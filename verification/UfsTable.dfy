/** UfsPtable::UfsReadGpt and UfsReadGptEntry (services/ptable_parse/ufs_ptable.cpp): the
    partitions of one logical unit are read into the list of all partitions, in place of those
    listed for it before. */
module UfsTables {
  import opened Bits
  import opened Device
  import opened LittleEndian
  import opened GptHeaders
  import opened GptNames
  import GptPatch
  import opened Strings

  const MAX_LUN_NUMBERS := 26
  const TYPE_GUID_LEN := 16
  /** "RESERVED" */
  const RESERVED: seq<byte> := [82, 69, 83, 69, 82, 86, 69, 68]

  datatype PartType = Common | SlotA | SlotB | Reserved

  datatype PtnInfo = PtnInfo(startAddr: nat, partitionSize: nat, typeGuid: seq<byte>, lun: nat, gptEntryBufOffset: nat,
                             isTailPart: bool, dispName: seq<byte>, partType: PartType)

  // ---------------------------------------------------------------- one row

  /** Ptable::SetPartitionType. */
  function TypeOf(name: seq<byte>): PartType {
    if Contains(name, RESERVED) then Reserved
    else if EndsIn(name, false) then SlotA
    else if EndsIn(name, true) then SlotB
    else Common
  }

  /** `name` ends in an underscore and this letter, in either case. */
  predicate HasSlot(name: seq<byte>, letter: char) {
    2 <= |name| && letter < 128 as char && name[|name| - 2] == '_' as int
    && (name[|name| - 1] == letter as int || Upper(letter as int) == name[|name| - 1])
  }

  /** The type of a partition by its name: RESERVED anywhere in it comes first, then the suffix. */
  lemma TypeIs(name: seq<byte>)
    ensures TypeOf(name) == Reserved <==> exists i: nat :: OccursAt(name, Ascii("RESERVED"), i)
    ensures TypeOf(name) == SlotA <==> TypeOf(name) != Reserved && HasSlot(name, 'a')
    ensures TypeOf(name) == SlotB <==> TypeOf(name) != Reserved && HasSlot(name, 'b')
  {
    assert RESERVED == Ascii("RESERVED");
    ContainsIff(name, RESERVED);
  }

  /** USERDATA is that name. */
  lemma UserDataIs()
    ensures USERDATA == Ascii("USERDATA") && Suffix(false) == Ascii("_a") && Suffix(true) == Ascii("_b")
  {
  }

  function NameOf(image: seq<byte>, bs: nat, k: nat): seq<byte>
    requires FieldAt(bs, k) + MAX_GPT_NAME_SIZE <= |image|
  {
    NameFrom(Field(image, bs, k), 0)
  }

  /** What is listed for slot `k`: addresses in bytes, modulo 2^64. */
  function Row(image: seq<byte>, lun: nat, bs: nat, deviceBlockSize: nat, k: nat, tail: bool): PtnInfo
    requires HasSlots(image, bs, k + 1)
  {
    var at := 2 * bs + PARTITION_ENTRY_SIZE * k;
    var first, last := Get(image, at + FIRST_LBA_OFFSET, 8), Get(image, at + LAST_LBA_OFFSET, 8);
    LbasBelow(image, at);
    PtnInfo(first * deviceBlockSize % U64, (U64 + last - first + 1) * deviceBlockSize % U64,
        image[at..at + TYPE_GUID_LEN], lun,
            PARTITION_ENTRY_SIZE * k, tail, NameOf(image, bs, k), TypeOf(NameOf(image, bs, k)))
  }

  /** A slot in order is listed by the bytes it covers on the device. */
  lemma RowCovers(image: seq<byte>, lun: nat, bs: nat, deviceBlockSize: nat, k: nat, tail: bool)
    requires HasSlots(image, bs, k + 1)
    requires var at := 2 * bs + PARTITION_ENTRY_SIZE * k;
      && Get(image, at + FIRST_LBA_OFFSET, 8) <= Get(image, at + LAST_LBA_OFFSET, 8)
      && (Get(image, at + LAST_LBA_OFFSET, 8) + 1) * deviceBlockSize < U64
    ensures var at, row := 2 * bs + PARTITION_ENTRY_SIZE * k, Row(image, lun, bs, deviceBlockSize, k, tail);
      && row.startAddr == Get(image, at + FIRST_LBA_OFFSET, 8) * deviceBlockSize
      && row.startAddr + row.partitionSize == (Get(image, at + LAST_LBA_OFFSET, 8) + 1) * deviceBlockSize
      && row.lun == lun && row.isTailPart == tail && 2 * bs + row.gptEntryBufOffset == at
  {
    hide Get, Number, NameFrom;
    var at := 2 * bs + PARTITION_ENTRY_SIZE * k;
    var first, last := Get(image, at + FIRST_LBA_OFFSET, 8), Get(image, at + LAST_LBA_OFFSET, 8);
    LbasBelow(image, at);
    Covers(first, last, deviceBlockSize);
  }

  lemma Covers(first: nat, last: nat, m: nat)
    requires first <= last && (last + 1) * m < U64
    ensures first * m % U64 == first * m
    ensures first * m + (U64 + last - first + 1) * m % U64 == (last + 1) * m
  {
    var n := last - first + 1;
    assert (last + 1) * m == first * m + n * m;
    assert (U64 + n) * m == U64 * m + n * m;
    GptPatch.AddMultiple(n * m, m);
  }

  lemma LbasBelow(image: seq<byte>, at: nat)
    requires at + PARTITION_ENTRY_SIZE <= |image|
    ensures Get(image, at + FIRST_LBA_OFFSET, 8) < U64
  {
    hide Number;
    NumberBelow(image[at + FIRST_LBA_OFFSET..at + FIRST_LBA_OFFSET + 8]);
    Widths();
  }

  /** The number of the last USERDATA among the first `n` slots, -1 if there is none. */
  function LastUserData(image: seq<byte>, bs: nat, n: nat): (k: int)
    requires HasSlots(image, bs, n)
    ensures -1 <= k < n && (0 <= k ==> NameOf(image, bs, k) == USERDATA)
    ensures forall i :: k < i < n ==> NameOf(image, bs, i) != USERDATA
  {
    if n == 0 then -1
    else if NameOf(image, bs, n - 1) == USERDATA then n - 1
    else LastUserData(image, bs, n - 1)
  }

  /** The rows of the first `n` slots; those behind a USERDATA are tail partitions. */
  function Rows(image: seq<byte>, lun: nat, bs: nat, deviceBlockSize: nat, n: nat): (rows: seq<PtnInfo>)
    requires HasSlots(image, bs, n)
    ensures |rows| == n
  {
    if n == 0 then []
    else Rows(image, lun, bs, deviceBlockSize, n - 1)
         + [Row(image, lun, bs, deviceBlockSize, n - 1, 0 <= LastUserData(image, bs, n - 1))]
  }

  /** Row by row: exactly the rows behind a USERDATA are marked. */
  lemma {:induction false} RowAt(image: seq<byte>, lun: nat, bs: nat, deviceBlockSize: nat, n: nat, k: nat)
    requires k < n && HasSlots(image, bs, n)
    ensures Rows(image, lun, bs, deviceBlockSize, n)[k]
              == Row(image, lun, bs, deviceBlockSize, k, 0 <= LastUserData(image, bs, k))
    ensures Rows(image, lun, bs, deviceBlockSize, n)[k].isTailPart <==>
              exists j :: 0 <= j < k && NameOf(image, bs, j) == USERDATA
    decreases n
  {
    hide Row;
    if k < n - 1 {
      RowAt(image, lun, bs, deviceBlockSize, n - 1, k);
    } else {
      RowTail(image, lun, bs, deviceBlockSize, k);
    }
  }

  lemma RowTail(image: seq<byte>, lun: nat, bs: nat, deviceBlockSize: nat, k: nat)
    requires HasSlots(image, bs, k + 1)
    ensures Row(image, lun, bs, deviceBlockSize, k, 0 <= LastUserData(image, bs, k)).isTailPart <==>
              exists j :: 0 <= j < k && NameOf(image, bs, j) == USERDATA
  {
    hide NameOf;
    var u := LastUserData(image, bs, k);
    if 0 <= u {
      assert NameOf(image, bs, u) == USERDATA;
    }
  }

  // ---------------------------------------------------------------- the list

  /** The partitions of other units, in order. */
  function Others(t: seq<PtnInfo>, lun: nat): seq<PtnInfo> {
    if t == [] then [] else Others(t[..|t| - 1], lun) + if t[|t| - 1].lun == lun then [] else [t[|t| - 1]]
  }

  function Own(t: seq<PtnInfo>, lun: nat): seq<PtnInfo> {
    if t == [] then [] else Own(t[..|t| - 1], lun) + if t[|t| - 1].lun == lun then [t[|t| - 1]] else []
  }

  /** Where the unit's partitions go among the others: where the last of them was, or at the end. */
  function Position(t: seq<PtnInfo>, lun: nat): (p: nat)
    ensures p <= |Others(t, lun)|
  {
    if t == [] then 0
    else if t[|t| - 1].lun == lun then |Others(t[..|t| - 1], lun)|
    else if Own(t, lun) == [] then |Others(t, lun)|
    else Position(t[..|t| - 1], lun)
  }

  function Replaced(t: seq<PtnInfo>, lun: nat, rows: seq<PtnInfo>): seq<PtnInfo> {
    var others, p := Others(t, lun), Position(t, lun);
    others[..p] + rows + others[p..]
  }

  lemma OneMore(t: seq<PtnInfo>, x: PtnInfo, lun: nat)
    ensures Others(t + [x], lun) == Others(t, lun) + if x.lun == lun then [] else [x]
    ensures Own(t + [x], lun) == Own(t, lun) + if x.lun == lun then [x] else []
  {
    assert (t + [x])[..|t|] == t;
  }

  lemma Nothing(lun: nat)
    ensures Others([], lun) == Own([], lun) == []
  {
  }

  lemma {:induction false} OthersSum(a: seq<PtnInfo>, b: seq<PtnInfo>, lun: nat)
    ensures Others(a + b, lun) == Others(a, lun) + Others(b, lun) && Own(a + b, lun) == Own(a, lun) + Own(b, lun)
    decreases |b|
  {
    hide Others, Own;
    if b == [] {
      assert a + b == a;
      Nothing(lun);
    } else {
      var n := |b| - 1;
      OthersSum(a, b[..n], lun);
      OneMore(a + b[..n], b[n], lun);
      OneMore(b[..n], b[n], lun);
      assert b[..n] + [b[n]] == b && a + b[..n] + [b[n]] == a + b;
    }
  }

  lemma {:induction false} OthersOfOthers(t: seq<PtnInfo>, lun: nat)
    ensures Others(Others(t, lun), lun) == Others(t, lun) && Own(Others(t, lun), lun) == []
    ensures forall i :: 0 <= i < |Others(t, lun)| ==> Others(t, lun)[i].lun != lun
  {
    if t != [] {
      var n := |t| - 1;
      OthersOfOthers(t[..n], lun);
      OthersSum(Others(t[..n], lun), if t[n].lun == lun then [] else [t[n]], lun);
    }
  }

  lemma {:induction false} AllOthers(t: seq<PtnInfo>, lun: nat)
    requires forall i :: 0 <= i < |t| ==> t[i].lun != lun
    ensures Others(t, lun) == t && Own(t, lun) == [] && Position(t, lun) == |t|
  {
    if t != [] {
      AllOthers(t[..|t| - 1], lun);
    }
  }

  lemma {:induction false} AllOwn(t: seq<PtnInfo>, lun: nat)
    requires forall i :: 0 <= i < |t| ==> t[i].lun == lun
    ensures Others(t, lun) == [] && Own(t, lun) == t
  {
    if t != [] {
      AllOwn(t[..|t| - 1], lun);
    }
  }

  /** The unit's partitions are exactly the new rows, in their order; the others are as before, in
      the same order. */
  lemma ReplacedExactly(t: seq<PtnInfo>, lun: nat, rows: seq<PtnInfo>)
    requires forall i :: 0 <= i < |rows| ==> rows[i].lun == lun
    ensures Own(Replaced(t, lun, rows), lun) == rows
    ensures Others(Replaced(t, lun, rows), lun) == Others(t, lun)
  {
    hide Others, Own, Position;
    var others, p := Others(t, lun), Position(t, lun);
    OthersOfOthers(t, lun);
    AllOthers(others[..p], lun);
    AllOthers(others[p..], lun);
    AllOwn(rows, lun);
    OthersSum(others[..p], rows, lun);
    OthersSum(others[..p] + rows, others[p..], lun);
    assert others[..p] + others[p..] == others;
  }

  lemma {:induction false} PositionSum(a: seq<PtnInfo>, b: seq<PtnInfo>, lun: nat)
    requires Own(a, lun) != [] && forall i :: 0 <= i < |b| ==> b[i].lun != lun
    ensures Position(a + b, lun) == Position(a, lun)
    decreases |b|
  {
    if b == [] {
      assert a + b == a;
    } else {
      var n := |b| - 1;
      PositionSum(a, b[..n], lun);
      assert (a + b)[..|a| + n] == a + b[..n];
      OthersSum(a, b, lun);
    }
  }

  /** Reading the same rows again changes nothing, if there are any. */
  lemma ReplacedTwice(t: seq<PtnInfo>, lun: nat, rows: seq<PtnInfo>)
    requires rows != [] && forall i :: 0 <= i < |rows| ==> rows[i].lun == lun
    ensures Replaced(Replaced(t, lun, rows), lun, rows) == Replaced(t, lun, rows)
  {
    hide Others, Own, Position;
    var others, p := Others(t, lun), Position(t, lun);
    OthersOfOthers(t, lun);
    ReplacedExactly(t, lun, rows);
    AllOthers(others[..p], lun);
    AllOwn(rows, lun);
    OthersSum(others[..p], rows, lun);
    PositionSum(others[..p] + rows, others[p..], lun);
    LastIsOwn(others[..p], rows, lun);
  }

  lemma LastIsOwn(a: seq<PtnInfo>, rows: seq<PtnInfo>, lun: nat)
    requires rows != [] && forall i :: 0 <= i < |rows| ==> rows[i].lun == lun
    requires forall i :: 0 <= i < |a| ==> a[i].lun != lun
    ensures Position(a + rows, lun) == |a|
  {
    hide Others, Own;
    var n := |rows| - 1;
    assert (a + rows)[..|a| + n] == a + rows[..n];
    OthersSum(a, rows[..n], lun);
    AllOthers(a, lun);
    AllOwn(rows[..n], lun);
  }

  /** What UfsReadGpt leaves lists the table of the unit, row by row, and the other units as
      before; reading the same table again would leave the list alone. */
  lemma ReadReplaces(t: seq<PtnInfo>, image: seq<byte>, lun: nat, bs: nat, deviceBlockSize: nat, n: nat)
    requires HasSlots(image, bs, n)
    ensures var rows := Rows(image, lun, bs, deviceBlockSize, n);
      && Own(Replaced(t, lun, rows), lun) == rows && Others(Replaced(t, lun, rows), lun) == Others(t, lun)
      && (0 < n ==> Replaced(Replaced(t, lun, rows), lun, rows) == Replaced(t, lun, rows))
  {
    hide Own, Others, Replaced, Rows, Row, LastUserData;
    var rows := Rows(image, lun, bs, deviceBlockSize, n);
    forall i | 0 <= i < n ensures rows[i].lun == lun {
      RowAt(image, lun, bs, deviceBlockSize, n, i);
      RowLun(image, lun, bs, deviceBlockSize, i);
    }
    ReplacedExactly(t, lun, rows);
    if 0 < n {
      ReplacedTwice(t, lun, rows);
    }
  }

  lemma RowLun(image: seq<byte>, lun: nat, bs: nat, deviceBlockSize: nat, k: nat)
    requires HasSlots(image, bs, k + 1)
    ensures forall tail :: Row(image, lun, bs, deviceBlockSize, k, tail).lun == lun
  {
  }

  // ---------------------------------------------------------------- the methods

  class UfsPtable {
    const deviceBlockSize: nat
    const writeDeviceLunSize: nat
    const lunCapacity: nat -> nat  // of a unit, in bytes
    const nodeCrc: nat -> nat      // checksum of the entry array a unit itself holds
    var partitionInfo: seq<PtnInfo>
    var startPtnIndex: int
    var endPtnIndex: int
    var usrDataPtnIndex: int
    var hasTailpart: bool

    constructor (deviceBlockSize: nat, writeDeviceLunSize: nat, lunCapacity: nat -> nat, nodeCrc: nat -> nat)
      ensures partitionInfo == [] && startPtnIndex == endPtnIndex == usrDataPtnIndex == -1 && !hasTailpart
      ensures this.deviceBlockSize == deviceBlockSize && this.writeDeviceLunSize == writeDeviceLunSize
      ensures this.lunCapacity == lunCapacity && this.nodeCrc == nodeCrc
    {
      this.deviceBlockSize, this.writeDeviceLunSize, this.lunCapacity, this.nodeCrc :=
        deviceBlockSize, writeDeviceLunSize, lunCapacity, nodeCrc;
      partitionInfo, startPtnIndex, endPtnIndex, usrDataPtnIndex, hasTailpart := [], -1, -1, -1, false;
    }

    function Inputs(len: nat, lun: nat): CheckInputs {
      CheckInputs(len, if deviceBlockSize == 0 then 0 else lunCapacity(lun) / deviceBlockSize % U32, lun, true,
                  deviceBlockSize, nodeCrc(lun))
    }

    /** The image holds a table for this unit. */
    predicate Accepts(image: seq<byte>, len: nat, lun: nat, bs: nat) {
      && len <= |image| && writeDeviceLunSize <= len && lun < MAX_LUN_NUMBERS && bs != 0 && 2 * bs <= len
      && InfoValid(image[bs..2 * bs]) && deviceBlockSize != 0
      && TablePasses(image, Inputs(len, lun), bs, writeDeviceLunSize, Info(image[bs..2 * bs]))
    }

    /** UfsPtable::ParseGptHeaderByUfsLun. */
    method ParseGptHeaderByUfsLun(image: seq<byte>, len: nat, lun: nat, bs: nat) returns (ok: bool)
      requires 2 * bs <= len <= |image|
      ensures ok <==> InfoValid(image[bs..2 * bs]) && deviceBlockSize != 0
                      && TablePasses(image, Inputs(len, lun), bs, writeDeviceLunSize, Info(image[bs..2 * bs]))
    {
      hide InfoValid, TablePasses;
      var info;
      ok, info := GetPartitionGptHeaderInfo(image[bs..2 * bs]);
      if !ok || deviceBlockSize == 0 {
        return false;
      }
      ok := PartitionCheckGptHeader(image, Inputs(len, lun), bs, writeDeviceLunSize, info);
    }

    /** The loop of UfsReadGpt: the unit's partitions are erased, and the place of the last one
        is remembered. */
    method EraseLun(lun: nat) returns (startIter: nat)
      modifies this`partitionInfo
      ensures partitionInfo == Others(old(partitionInfo), lun)
      ensures startIter == Position(old(partitionInfo), lun)
    {
      hide Others, Own, Position;
      ghost var was := partitionInfo;
      startIter := |partitionInfo|;
      var it := 0;
      ghost var seen := 0;
      assert was[..0] == [];
      Nothing(lun);
      while it < |partitionInfo|
        invariant 0 <= it <= |partitionInfo| && seen <= |was|
        invariant partitionInfo[..it] == Others(was[..seen], lun) && partitionInfo[it..] == was[seen..]
        invariant if Own(was[..seen], lun) == [] then startIter == |was| && it == seen
                  else startIter == Position(was[..seen], lun)
        decreases |partitionInfo| - it
      {
        Split(partitionInfo, it, was[seen..]);
        EraseStep(was, seen, lun);
        if partitionInfo[it].lun == lun {
          partitionInfo := partitionInfo[..it] + partitionInfo[it + 1..];
          startIter := it;
        } else {
          it := it + 1;
        }
        seen := seen + 1;
      }
      assert was[..seen] == was;
      NoneErased(was, lun);
    }

    /** The list at `it`: erasing and stepping on both take the next element off what is ahead. */
    static lemma Split(t: seq<PtnInfo>, it: nat, ahead: seq<PtnInfo>)
      requires it < |t| && t[it..] == ahead
      ensures t[it] == ahead[0] && ahead[1..] == t[it + 1..] && t[..it + 1] == t[..it] + [ahead[0]]
      ensures var erased := t[..it] + t[it + 1..]; erased[..it] == t[..it] && erased[it..] == ahead[1..]
    {
    }

    static lemma EraseStep(was: seq<PtnInfo>, n: nat, lun: nat)
      requires n < |was|
      ensures var a, b := was[..n], was[..n + 1];
        && Others(b, lun) == Others(a, lun) + (if was[n].lun == lun then [] else [was[n]])
        && (Own(b, lun) == [] <==> Own(a, lun) == [] && was[n].lun != lun)
        && (was[n].lun == lun ==> Position(b, lun) == |Others(a, lun)|)
        && (was[n].lun != lun && Own(a, lun) != [] ==> Position(b, lun) == Position(a, lun))
    {
      hide Others, Own;
      assert was[..n + 1] == was[..n] + [was[n]];
      OneMore(was[..n], was[n], lun);
      assert was[..n + 1][..n] == was[..n];
    }

    static lemma NoneErased(was: seq<PtnInfo>, lun: nat)
      ensures Own(was, lun) == [] ==> Position(was, lun) == |Others(was, lun)| == |was|
    {
      if Own(was, lun) == [] {
        NoneOwn(was, lun);
        AllOthers(was, lun);
      }
    }

    static lemma {:induction false} NoneOwn(was: seq<PtnInfo>, lun: nat)
      requires Own(was, lun) == []
      ensures forall i :: 0 <= i < |was| ==> was[i].lun != lun
    {
      if was != [] {
        NoneOwn(was[..|was| - 1], lun);
      }
    }

    /** One slot of the table, inserted at `startIter`. */
    method InsertEntry(image: seq<byte>, lun: nat, bs: nat, data: nat, tail: bool, startIter: nat, ghost k: nat)
      returns (isUserData: bool)
      requires HasSlots(image, bs, k + 1) && data == 2 * bs + PARTITION_ENTRY_SIZE * k && startIter <= |partitionInfo|
      modifies this`partitionInfo, this`usrDataPtnIndex
      ensures partitionInfo
                == old(partitionInfo)[..startIter] + [Row(image, lun, bs, deviceBlockSize, k, tail)]
                    + old(partitionInfo)[startIter..]
      ensures isUserData <==> NameOf(image, bs, k) == USERDATA
      ensures usrDataPtnIndex == if isUserData then startIter else old(usrDataPtnIndex)
    {
      hide NameFrom, Or, Shl, Number, TypeOf;
      LlwordIsNumber(image, data + FIRST_LBA_OFFSET);
      LlwordIsNumber(image, data + LAST_LBA_OFFSET);
      var firstLba := GetLlword(image, data + FIRST_LBA_OFFSET);
      var lastLba := GetLlword(image, data + LAST_LBA_OFFSET);
      var dispName := ParsePartitionName(image[data + NAME_OFFSET..data + NAME_OFFSET + MAX_GPT_NAME_SIZE]);
      assert dispName == NameOf(image, bs, k);
      var size := (U64 + lastLba - firstLba + 1) * deviceBlockSize % U64;
      var newPtnInfo := PtnInfo(firstLba * deviceBlockSize % U64, size, image[data..data + TYPE_GUID_LEN], lun,
                                data - 2 * bs, tail, dispName, TypeOf(dispName));
      isUserData := dispName == USERDATA;
      if isUserData {
        usrDataPtnIndex := startIter;
      }
      partitionInfo := partitionInfo[..startIter] + [newPtnInfo] + partitionInfo[startIter..];
    }

    /** The first `n` slots have been inserted into `was` at `start`. */
    ghost predicate Reading(was: seq<PtnInfo>, image: seq<byte>, lun: nat, bs: nat, start: nat, n: nat, user: int)
      reads this
    {
      && start <= |was| && n <= Slots(bs) && HasSlots(image, bs, Slots(bs))
          && (forall i :: 0 <= i < n ==> !Vacant(image, bs, i))
      && partitionInfo == was[..start] + Rows(image, lun, bs, deviceBlockSize, n) + was[start..]
      && usrDataPtnIndex == if LastUserData(image, bs, n) < 0 then user else start + LastUserData(image, bs, n)
    }

    lemma ReadNext(was: seq<PtnInfo>, before: seq<PtnInfo>, image: seq<byte>, lun: nat, bs: nat, start: nat, n: nat,
        row: PtnInfo)
      requires start <= |was| && HasSlots(image, bs, n + 1)
      requires row == Row(image, lun, bs, deviceBlockSize, n, 0 <= LastUserData(image, bs, n))
      requires before == was[..start] + Rows(image, lun, bs, deviceBlockSize, n) + was[start..]
      ensures before[..start + n] + [row] + before[start + n..]
              == was[..start] + Rows(image, lun, bs, deviceBlockSize, n + 1) + was[start..]
    {
      hide Row, LastUserData;
      var rows := Rows(image, lun, bs, deviceBlockSize, n);
      assert before[..start + n] == was[..start] + rows && before[start + n..] == was[start..];
    }

    static lemma LastNext(image: seq<byte>, bs: nat, n: nat)
      requires HasSlots(image, bs, n + 1)
      ensures LastUserData(image, bs, n + 1) == if NameOf(image, bs, n) == USERDATA then n
                else LastUserData(image, bs, n)
    {
    }

    /** One block of the entry array: the inner loop. */
    method ReadBlock(image: seq<byte>, lun: nat, bs: nat, data: nat, partEntryCnt: nat, first: nat, tailPartFlag: bool,
                     ghost was: seq<PtnInfo>, start: nat, ghost user: int)
      returns (over: bool, count: nat, tail: bool)
      requires data == 2 * bs + PARTITION_ENTRY_SIZE * first && first + partEntryCnt <= Slots(bs)
      requires Reading(was, image, lun, bs, start, first, user) && tailPartFlag == (0 <= LastUserData(image, bs, first))
      modifies this`partitionInfo, this`usrDataPtnIndex
      ensures first <= count <= first + partEntryCnt && Reading(was, image, lun, bs, start, count, user)
      ensures tail == (0 <= LastUserData(image, bs, count))
      ensures over ==> count < Slots(bs) && Vacant(image, bs, count)
      ensures !over ==> count == first + partEntryCnt
    {
      hide Slots, Row, NameOf, LastUserData, Rows;
      over, count, tail := false, first, tailPartFlag;
      var j := 0;
      while j < partEntryCnt
        invariant 0 <= j <= partEntryCnt && count == first + j && !over
        invariant Reading(was, image, lun, bs, start, count, user) && tail == (0 <= LastUserData(image, bs, count))
        decreases partEntryCnt - j
      {
        var entry := data + j * PARTITION_ENTRY_SIZE;
        if image[entry] == 0 && image[entry + 1] == 0 {
          over := true;
          break;
        }
        ghost var before := partitionInfo;
        var isUserData := InsertEntry(image, lun, bs, entry, tail, start + count, count);
        ReadNext(was, before, image, lun, bs, start, count, Row(image, lun, bs, deviceBlockSize, count, tail));
        LastNext(image, bs, count);
        tail := tail || isUserData;
        count := count + 1;
        j := j + 1;
      }
    }

    lemma ReadStarts(was: seq<PtnInfo>, image: seq<byte>, lun: nat, bs: nat, start: nat)
      requires start <= |was| && HasSlots(image, bs, Slots(bs)) && partitionInfo == was && 0 < bs / PARTITION_ENTRY_SIZE
      ensures Reading(was, image, lun, bs, start, 0, usrDataPtnIndex) && LastUserData(image, bs, 0) < 0
      ensures Standing(image, bs, bs / PARTITION_ENTRY_SIZE, 0, 0)
    {
      assert was == was[..start] + [] + was[start..];
    }

    /** The outer loop. */
    method ReadBlocks(image: seq<byte>, lun: nat, bs: nat, startIter: nat) returns (count: nat, tailPartFlag: bool)
      requires PARTITION_ENTRY_SIZE <= bs && bs % PARTITION_ENTRY_SIZE == 0 && HasSlots(image, bs, Slots(bs))
      requires startIter <= |partitionInfo|
      modifies this`partitionInfo, this`usrDataPtnIndex
      ensures count == Live(image, bs, 0, Slots(bs)) && tailPartFlag == (0 <= LastUserData(image, bs, count))
      ensures Reading(old(partitionInfo), image, lun, bs, startIter, count, old(usrDataPtnIndex))
    {
      hide Slots, Row, NameOf, Vacant, Live, Standing, LastUserData, Rows, Reading, Blocks, BlockAt;
      ghost var was, user := partitionInfo, usrDataPtnIndex;
      ReadStarts(was, image, lun, bs, startIter);
      var partEntryCnt := bs / PARTITION_ENTRY_SIZE;
      var i: nat := 0;
      count, tailPartFlag := 0, false;
      while i < Blocks(partEntryCnt) && count < MAX_PARTITION_NUM
        invariant Reading(was, image, lun, bs, startIter, count, user)
        invariant HasSlots(image, bs, count) && tailPartFlag == (0 <= LastUserData(image, bs, count))
        invariant Standing(image, bs, partEntryCnt, i, count)
        decreases Blocks(partEntryCnt) - i
      {
        BlockStarts(image, bs, partEntryCnt, i, count);
        ghost var first := count;
        var over;
        over, count, tailPartFlag := ReadBlock(image, lun, bs, BlockAt(bs, i), partEntryCnt, count, tailPartFlag, was,
            startIter, user);
        ReadSoFar(was, image, lun, bs, startIter, count, user);
        NextBlock(image, bs, partEntryCnt, i, first, count, over);
        if over {
          i := Blocks(partEntryCnt);
        }
        i := i + 1;
      }
      AllSeen(image, bs, partEntryCnt, i, count);
      ReadSoFar(was, image, lun, bs, startIter, count, user);
      LiveFrom(image, bs, count, Slots(bs));
    }

    lemma ReadSoFar(was: seq<PtnInfo>, image: seq<byte>, lun: nat, bs: nat, start: nat, n: nat, user: int)
      requires Reading(was, image, lun, bs, start, n, user)
      ensures n <= Slots(bs) && HasSlots(image, bs, Slots(bs)) && forall i :: 0 <= i < n ==> !Vacant(image, bs, i)
    {
      hide Slots, Row, NameOf, Vacant;
    }

    /** UfsPtable::UfsReadGptEntry. If the table has a USERDATA, the indices delimit its rows, the
        one of USERDATA is recorded, and the last row tells whether anything follows it. */
    method UfsReadGptEntry(image: seq<byte>, lun: nat, bs: nat, startIter: nat)
      requires PARTITION_ENTRY_SIZE <= bs && bs % PARTITION_ENTRY_SIZE == 0 && HasSlots(image, bs, Slots(bs))
      requires startIter <= |partitionInfo|
      modifies this
      ensures var n := Live(image, bs, 0, Slots(bs));
        var u := LastUserData(image, bs, n);
        && partitionInfo == old(partitionInfo)[..startIter]
                            + Rows(image, lun, bs, deviceBlockSize, n) + old(partitionInfo)[startIter..]
        && (u < 0 ==> usrDataPtnIndex == old(usrDataPtnIndex) && startPtnIndex == old(startPtnIndex)
                      && endPtnIndex == old(endPtnIndex) && hasTailpart == old(hasTailpart))
        && (0 <= u ==> usrDataPtnIndex == startIter + u && startPtnIndex == startIter
                       && endPtnIndex == startIter + n - 1
                       && (hasTailpart <==> LastUserData(image, bs, n - 1) >= 0))
    {
      hide Slots, Row, NameOf, Vacant, Live, Rows, LastUserData;
      var count, tailPartFlag := ReadBlocks(image, lun, bs, startIter);
      if tailPartFlag {
        endPtnIndex := startIter + count - 1;
        startPtnIndex := endPtnIndex + 1 - count;
        RowAt(image, lun, bs, deviceBlockSize, count, count - 1);
        LastTail(image, lun, bs, count - 1);
        hasTailpart := partitionInfo[endPtnIndex].isTailPart;
      }
    }

    lemma LastTail(image: seq<byte>, lun: nat, bs: nat, k: nat)
      requires HasSlots(image, bs, k + 1)
      ensures Row(image, lun, bs, deviceBlockSize, k, 0 <= LastUserData(image, bs, k)).isTailPart <==>
                0 <= LastUserData(image, bs, k)
    {
    }

    /** UfsPtable::UfsReadGpt: exactly this unit's partitions are replaced, by the table's rows in
        their order, where the last of them stood (or at the end). */
    method UfsReadGpt(image: seq<byte>, len: nat, lun: nat, bs: nat) returns (ok: bool)
      requires len <= |image| && bs % PARTITION_ENTRY_SIZE == 0 && HasSlots(image, bs, MAX_PARTITION_NUM)
      modifies this
      ensures ok <==> Accepts(image, len, lun, bs)
      ensures !ok ==> unchanged(this)
      ensures ok ==>
                var rows := Rows(image, lun, bs, deviceBlockSize, Live(image, bs, 0, Slots(bs)));
                partitionInfo == Replaced(old(partitionInfo), lun, rows)
      ensures ok ==> var n, p := Live(image, bs, 0, Slots(bs)), Position(old(partitionInfo), lun);
        var u := LastUserData(image, bs, n);
        if u < 0 then
          && startPtnIndex == old(startPtnIndex) && endPtnIndex == old(endPtnIndex)
          && usrDataPtnIndex == old(usrDataPtnIndex)
        else
          && startPtnIndex == p && endPtnIndex == p + n - 1 && usrDataPtnIndex == p + u
          && (hasTailpart <==> LastUserData(image, bs, n - 1) >= 0)
    {
      hide TablePasses, Rows, Live, LastUserData, Position, Others, Slots;
      if len < writeDeviceLunSize || lun >= MAX_LUN_NUMBERS || bs == 0 || len < 2 * bs {
        return false;
      }
      ok := ParseGptHeaderByUfsLun(image, len, lun, bs);
      if !ok {
        return;
      }
      var startIter := EraseLun(lun);
      UfsReadGptEntry(image, lun, bs, startIter);
    }
  }
}
