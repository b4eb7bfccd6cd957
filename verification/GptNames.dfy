/** UfsPtable::EditABPartition (services/ptable_parse/ufs_ptable.cpp): every partition of a table
    swaps its slot suffix, _a for _b and back, and the table is sealed again. */
module GptNames {
  import opened Bits
  import opened Device
  import opened LittleEndian
  import opened GptHeaders

  const UNDERSCORE: byte := 95
  const LOWER_A: byte := 97
  const LOWER_B: byte := 98
  const SUFFIX_SIZE := 2

  // ---------------------------------------------------------------- one name

  function Suffix(b: bool): seq<byte> {
    if b then [UNDERSCORE, LOWER_B] else [UNDERSCORE, LOWER_A]
  }

  /** strcasecmp with a suffix. */
  predicate EndsIn(name: seq<byte>, b: bool) {
    var n := |name|;
    && SUFFIX_SIZE <= n && name[n - 2] == UNDERSCORE && Lower(name[n - 1]) == if b then LOWER_B else LOWER_A
  }

  /** UfsPtable::GetTgtPartitionName: a name without a suffix gets that of the other slot. */
  function Target(name: seq<byte>, fromA: bool): (t: seq<byte>)
    ensures |t| == if EndsIn(name, false) || EndsIn(name, true) then |name| else |name| + SUFFIX_SIZE
  {
    if EndsIn(name, false) then name[..|name| - SUFFIX_SIZE] + Suffix(true)
    else if EndsIn(name, true) then name[..|name| - SUFFIX_SIZE] + Suffix(false)
    else name + Suffix(fromA)
  }

  predicate HasSuffix(name: seq<byte>) {
    EndsIn(name, false) || EndsIn(name, true)
  }

  /** Going to the other slot and back, from whichever slots, gives the name back if and only if it
      has a suffix, and that in lower case: one that has none gets one and keeps it. */
  lemma TargetTwice(name: seq<byte>, fromA: bool, fromA': bool)
    ensures Target(Target(name, fromA), fromA') == name <==>
              HasSuffix(name) && Lower(name[|name| - 1]) == name[|name| - 1]
  {
    var t := Target(name, fromA);
    var n := if HasSuffix(name) then |name| - SUFFIX_SIZE else |name|;
    assert t[..n] == name[..n] && |t| == n + SUFFIX_SIZE && HasSuffix(t);
    var back := Target(t, fromA');
    assert back[..n] == t[..n] && |back| == n + SUFFIX_SIZE;
    if HasSuffix(name) {
      assert back == name[..n] + back[n..] && name == name[..n] + name[n..];
    }
  }

  /** A name written over a field: in lower case, high bytes zero, what lies beyond it kept. */
  function Written(field: seq<byte>, name: seq<byte>): (r: seq<byte>)
    requires 2 * |name| <= |field|
    ensures |r| == |field|
  {
    seq(|field|, k requires 0 <= k < |field| =>
      if 2 * |name| <= k then field[k] else if k % 2 == 0 then Lower(name[k / 2]) else 0)
  }

  predicate IsField(field: seq<byte>) {
    |field| == MAX_GPT_NAME_SIZE
  }

  /** The new name fits in the field. */
  predicate Fits(field: seq<byte>, fromA: bool)
    requires IsField(field)
  {
    2 * |Target(NameFrom(field, 0), fromA)| <= MAX_GPT_NAME_SIZE
  }

  function Swapped(field: seq<byte>, fromA: bool): (r: seq<byte>)
    requires IsField(field) && Fits(field, fromA)
    ensures |r| == |field|
  {
    Written(field, Target(NameFrom(field, 0), fromA))
  }

  /** In lower case, high bytes zero, and with a suffix. */
  predicate Swappable(field: seq<byte>)
    requires IsField(field)
  {
    var name := NameFrom(field, 0);
    && (EndsIn(name, false) || EndsIn(name, true))
    && forall k :: 0 <= k < |name| ==> Plain(field, k)
  }

  predicate Plain(field: seq<byte>, k: nat)
    requires 2 * k + 1 < |field|
  {
    Lower(field[2 * k]) == field[2 * k] && field[2 * k + 1] == 0
  }

  lemma {:induction false} NameAt(field: seq<byte>, n: nat, k: nat)
    requires IsField(field) && n <= MAX_GPT_NAME_SIZE / 2 && k < |NameFrom(field, n)|
    ensures NameFrom(field, n)[k] == Upper(field[2 * (n + k)]) && field[2 * (n + k)] != 0
    decreases k
  {
    if 0 < k {
      NameAt(field, n + 1, k - 1);
    }
  }

  lemma {:induction false} NameEnds(field: seq<byte>, n: nat)
    requires IsField(field) && n <= MAX_GPT_NAME_SIZE / 2
    ensures var e := n + |NameFrom(field, n)|; e == MAX_GPT_NAME_SIZE / 2 || field[2 * e] == 0
    decreases MAX_GPT_NAME_SIZE / 2 - n
  {
    if n < MAX_GPT_NAME_SIZE / 2 && field[2 * n] != 0 {
      NameEnds(field, n + 1);
    }
  }

  /** A name is read off a field that holds exactly its characters and then a zero. */
  lemma {:induction false} NameIs(field: seq<byte>, n: nat, e: nat)
    requires IsField(field) && n <= e <= MAX_GPT_NAME_SIZE / 2
    requires forall k :: n <= k < e ==> field[2 * k] != 0
    requires e == MAX_GPT_NAME_SIZE / 2 || field[2 * e] == 0
    ensures |NameFrom(field, n)| == e - n
    decreases e - n
  {
    if n < e {
      assert field[2 * n] != 0;
      NameIs(field, n + 1, e);
    }
  }

  /** Every character of the target is that of the name, or one of the suffix: none is zero. */
  lemma TargetNonZero(field: seq<byte>, fromA: bool, k: nat)
    requires IsField(field)
    requires var t := Target(NameFrom(field, 0), fromA); k < |t|
    ensures Lower(Target(NameFrom(field, 0), fromA)[k]) != 0
  {
    var name := NameFrom(field, 0);
    if k < |name| {
      NameAt(field, 0, k);
    }
  }

  /** With a suffix, the swapped field holds a name of the same length, and its target is the
      name in lower case again. */
  lemma SuffixSwaps(field: seq<byte>, fromA: bool)
    requires IsField(field)
    requires var name := NameFrom(field, 0); EndsIn(name, false) || EndsIn(name, true)
    ensures Fits(field, fromA) && Fits(Swapped(field, fromA), fromA)
    ensures var name, g := NameFrom(field, 0), Swapped(field, fromA);
      var name' := NameFrom(g, 0);
      && |name'| == |name| && (EndsIn(name, false) <==> EndsIn(name', true))
          && (EndsIn(name, true) <==> EndsIn(name', false))
      && forall k :: 0 <= k < |name| - 2 ==> name'[k] == name[k]
  {
    hide NameFrom;
    var name := NameFrom(field, 0);
    var t, g := Target(name, fromA), Swapped(field, fromA);
    forall k | 0 <= k < |name| ensures g[2 * k] != 0 {
      TargetNonZero(field, fromA, k);
    }
    NameEnds(field, 0);
    NameIs(g, 0, |name|);
    var name' := NameFrom(g, 0);
    forall k | 0 <= k < |name| ensures name'[k] == Upper(Lower(t[k])) {
      NameAt(g, 0, k);
    }
    forall k | 0 <= k < |name| - 2 ensures name'[k] == name[k] {
      NameAt(field, 0, k);
    }
  }

  /** Twice swapped, a name with a suffix is itself in lower case, with its high bytes zero. */
  lemma SwappedBack(field: seq<byte>, fromA: bool, k: nat)
    requires IsField(field)
    requires var name := NameFrom(field, 0); k < |name| && (EndsIn(name, false) || EndsIn(name, true))
    requires Fits(field, fromA) && Fits(Swapped(field, fromA), fromA)
    ensures Swapped(Swapped(field, fromA), fromA)[2 * k] == Lower(field[2 * k])
    ensures Swapped(Swapped(field, fromA), fromA)[2 * k + 1] == 0
  {
    hide NameFrom, Fits;
    SuffixSwaps(field, fromA);
    NameAt(field, 0, k);
    var name, g := NameFrom(field, 0), Swapped(field, fromA);
    TwiceTarget(name, NameFrom(g, 0), fromA, k);
  }

  /** The target of the swapped name is the name in lower case. */
  lemma TwiceTarget(name: seq<byte>, name': seq<byte>, fromA: bool, k: nat)
    requires k < |name| == |name'| && (EndsIn(name, false) || EndsIn(name, true))
    requires (EndsIn(name, false) <==> EndsIn(name', true)) && (EndsIn(name, true) <==> EndsIn(name', false))
    requires forall i :: 0 <= i < |name| - 2 ==> name'[i] == name[i]
    requires exists b: byte :: Upper(b) == name[k]
    ensures |Target(name', fromA)| == |name|
    ensures forall b: byte :: Upper(b) == name[k] ==> Lower(Target(name', fromA)[k]) == Lower(b)
  {
  }

  /** Swapping twice restores a name exactly if it is in lower case, with its high bytes zero, and
      has a suffix. */
  lemma SwapTwice(field: seq<byte>, fromA: bool)
    requires IsField(field) && Fits(field, fromA) && Fits(Swapped(field, fromA), fromA)
    ensures Swapped(Swapped(field, fromA), fromA) == field <==> Swappable(field)
  {
    hide NameFrom, Target;
    var name := NameFrom(field, 0);
    var h := Swapped(Swapped(field, fromA), fromA);
    if EndsIn(name, false) || EndsIn(name, true) {
      SuffixSwaps(field, fromA);
      forall k | 0 <= k < |name| ensures h[2 * k] == Lower(field[2 * k]) && h[2 * k + 1] == 0 {
        SwappedBack(field, fromA, k);
      }
      if Swappable(field) {
        forall k | 0 <= k < |field| ensures h[k] == field[k] {
          if k < 2 * |name| {
            assert Plain(field, k / 2);
          }
        }
      }
    } else {
      Grows(field, fromA);
    }
  }

  /** A name without a suffix has got one, and keeps it. */
  lemma Grows(field: seq<byte>, fromA: bool)
    requires IsField(field) && Fits(field, fromA) && Fits(Swapped(field, fromA), fromA)
    requires var name := NameFrom(field, 0); !EndsIn(name, false) && !EndsIn(name, true)
    ensures Swapped(Swapped(field, fromA), fromA) != field
  {
    hide NameFrom, Target;
    var n, g := |NameFrom(field, 0)|, Swapped(field, fromA);
    NameEnds(field, 0);
    forall k | 0 <= k <= n ensures g[2 * k] != 0 {
      TargetNonZero(field, fromA, k);
    }
    NameReaches(g, 0, n + 1);
    TargetNonZero(g, fromA, n);
    assert Swapped(g, fromA)[2 * n] != 0 == field[2 * n];
  }

  lemma {:induction false} NameReaches(field: seq<byte>, n: nat, e: nat)
    requires IsField(field) && n <= e <= MAX_GPT_NAME_SIZE / 2 && forall k :: n <= k < e ==> field[2 * k] != 0
    ensures e - n <= |NameFrom(field, n)|
    decreases e - n
  {
    if n < e {
      assert field[2 * n] != 0;
      NameReaches(field, n + 1, e);
    }
  }

  method GetTgtPartitionName(source: seq<byte>, fromA: bool) returns (name: seq<byte>)
    ensures name == Target(source, fromA)
    ensures if HasSuffix(source) then
              && |name| == |source| && name[..|name| - SUFFIX_SIZE] == source[..|source| - SUFFIX_SIZE]
              && (EndsIn(name, false) <==> EndsIn(source, true)) && (EndsIn(name, true) <==> EndsIn(source, false))
            else source < name && |name| == |source| + SUFFIX_SIZE && EndsIn(name, fromA)
  {
    name := source;
    if |name| < SUFFIX_SIZE {
      return name + Suffix(fromA);
    }
    var n := |name| - SUFFIX_SIZE;
    var suffix, partitionName := name[n..], name[..n];
    if suffix[0] == UNDERSCORE && Lower(suffix[1]) == LOWER_A {
      name := partitionName + Suffix(true);
    } else if suffix[0] == UNDERSCORE && Lower(suffix[1]) == LOWER_B {
      name := partitionName + Suffix(false);
    } else {
      name := name + Suffix(fromA);
    }
  }

  /** The bytes `name` put in place of those at `at`. */
  function Over(d: seq<byte>, at: nat, field: seq<byte>): (r: seq<byte>)
    requires at + |field| <= |d|
    ensures |r| == |d|
  {
    d[..at] + field + d[at + |field|..]
  }

  /** Ptable::WritePartitionName, on the field at `at`. */
  method WritePartitionName(name: seq<byte>, data: array<byte>, at: nat) returns (ok: bool)
    requires at + MAX_GPT_NAME_SIZE <= data.Length
    modifies data
    ensures ok <==> name != [] && 2 * |name| <= MAX_GPT_NAME_SIZE
    ensures data[..] == if ok then Over(old(data[..]), at, Written(old(data[at..at + MAX_GPT_NAME_SIZE]), name))
              else old(data[..])
  {
    if |name| == 0 || MAX_GPT_NAME_SIZE < 2 * |name| {
      return false;
    }
    ghost var was := data[..];
    for n := 0 to |name|
      invariant forall k :: 0 <= k < |was| && !(at <= k < at + 2 * n) ==> data[k] == was[k]
      invariant forall k :: 0 <= k < n ==> data[at + 2 * k] == Lower(name[k]) && data[at + 2 * k + 1] == 0
    {
      data[at + 2 * n] := Lower(name[n]);
      data[at + 2 * n + 1] := 0;
    }
    ok := true;
    WrittenOver(was, data[..], at, name);
  }

  lemma WrittenOver(was: seq<byte>, d: seq<byte>, at: nat, name: seq<byte>)
    requires |d| == |was| && at + MAX_GPT_NAME_SIZE <= |d| && 2 * |name| <= MAX_GPT_NAME_SIZE
    requires forall k :: 0 <= k < |was| && !(at <= k < at + 2 * |name|) ==> d[k] == was[k]
    requires forall k :: 0 <= k < |name| ==> d[at + 2 * k] == Lower(name[k]) && d[at + 2 * k + 1] == 0
    ensures d == Over(was, at, Written(was[at..at + MAX_GPT_NAME_SIZE], name))
  {
    var r := Over(was, at, Written(was[at..at + MAX_GPT_NAME_SIZE], name));
    forall k | 0 <= k < |d| ensures d[k] == r[k] {
      if at <= k < at + 2 * |name| {
        var x := (k - at) / 2;
        assert k == at + 2 * x || k == at + 2 * x + 1;
      }
    }
  }

  // ---------------------------------------------------------------- the table

  function FieldAt(bs: nat, k: nat): nat {
    2 * bs + PARTITION_ENTRY_SIZE * k + NAME_OFFSET
  }

  function Field(d: seq<byte>, bs: nat, k: nat): (f: seq<byte>)
    requires FieldAt(bs, k) + MAX_GPT_NAME_SIZE <= |d|
    ensures IsField(f)
  {
    d[FieldAt(bs, k)..FieldAt(bs, k) + MAX_GPT_NAME_SIZE]
  }

  /** Slot `k` holds no partition: its type GUID starts with two zero bytes. */
  predicate Vacant(d: seq<byte>, bs: nat, k: nat)
    requires FieldAt(bs, k) <= |d|
  {
    d[FieldAt(bs, k) - NAME_OFFSET] == 0 && d[FieldAt(bs, k) - NAME_OFFSET + 1] == 0
  }

  predicate HasSlots(d: seq<byte>, bs: nat, slots: nat) {
    2 * bs + PARTITION_ENTRY_SIZE * slots <= |d|
  }

  /** How many partitions there are before the first vacant slot. */
  function Live(d: seq<byte>, bs: nat, k: nat, slots: nat): (n: nat)
    requires k <= slots && HasSlots(d, bs, slots)
    ensures k <= n <= slots && (n < slots ==> Vacant(d, bs, n)) && forall i :: k <= i < n ==> !Vacant(d, bs, i)
    decreases slots - k
  {
    if k == slots || Vacant(d, bs, k) then k else Live(d, bs, k + 1, slots)
  }

  /** The first `n` names fit when swapped. */
  predicate AllFit(d: seq<byte>, bs: nat, n: nat, fromA: bool)
    requires HasSlots(d, bs, n)
  {
    forall k :: 0 <= k < n ==> Fits(Field(d, bs, k), fromA)
  }

  /** The first `n` names swapped. */
  function Renamed(d: seq<byte>, bs: nat, n: nat, fromA: bool): (r: seq<byte>)
    requires HasSlots(d, bs, n) && AllFit(d, bs, n, fromA)
    ensures |r| == |d|
    decreases n
  {
    if n == 0 then d
    else Over(Renamed(d, bs, n - 1, fromA), FieldAt(bs, n - 1), Swapped(Field(d, bs, n - 1), fromA))
  }

  /** Byte `k` belongs to the name of one of the first `n` partitions. */
  predicate InNames(k: int, bs: nat, n: nat) {
    && 2 * bs <= k < 2 * bs + PARTITION_ENTRY_SIZE * n
    && NAME_OFFSET <= (k - 2 * bs) % PARTITION_ENTRY_SIZE < NAME_OFFSET + MAX_GPT_NAME_SIZE
  }

  lemma {:induction false} RenamedFrame(d: seq<byte>, bs: nat, n: nat, fromA: bool)
    requires HasSlots(d, bs, n) && AllFit(d, bs, n, fromA)
    ensures forall k :: 0 <= k < |d| && !InNames(k, bs, n) ==> Renamed(d, bs, n, fromA)[k] == d[k]
  {
    hide Swapped, Fits;
    if 0 < n {
      RenamedFrame(d, bs, n - 1, fromA);
    }
  }

  lemma {:induction false} RenamedField(d: seq<byte>, bs: nat, n: nat, fromA: bool, k: nat)
    requires HasSlots(d, bs, n) && AllFit(d, bs, n, fromA) && FieldAt(bs, k) + MAX_GPT_NAME_SIZE <= |d|
    ensures Field(Renamed(d, bs, n, fromA), bs, k) ==
              if k < n then Swapped(Field(d, bs, k), fromA) else Field(d, bs, k)
  {
    hide Swapped, Fits;
    if 0 < n {
      RenamedField(d, bs, n - 1, fromA, k);
      OverField(Renamed(d, bs, n - 1, fromA), bs, n - 1, Swapped(Field(d, bs, n - 1), fromA), k);
    }
  }

  lemma OverField(d: seq<byte>, bs: nat, n: nat, f: seq<byte>, k: nat)
    requires IsField(f) && FieldAt(bs, n) + MAX_GPT_NAME_SIZE <= |d| && FieldAt(bs, k) + MAX_GPT_NAME_SIZE <= |d|
    ensures Field(Over(d, FieldAt(bs, n), f), bs, k) == if k == n then f else Field(d, bs, k)
  {
    var a, b := FieldAt(bs, n), FieldAt(bs, k);
    var r := Over(d, a, f);
    if k == n {
      assert r[a..a + MAX_GPT_NAME_SIZE] == f;
    } else {
      assert b + MAX_GPT_NAME_SIZE <= a || a + MAX_GPT_NAME_SIZE <= b;
      assert r[b..b + MAX_GPT_NAME_SIZE] == d[b..b + MAX_GPT_NAME_SIZE];
    }
  }

  // ---------------------------------------------------------------- EditABPartition

  /** How many slots EditABPartition looks at: whole blocks of entries, at most 128. */
  function Slots(bs: nat): (n: nat)
    ensures n <= MAX_PARTITION_NUM
  {
    var c := bs / PARTITION_ENTRY_SIZE;
    if c == 0 then 0
    else
      assert MAX_PARTITION_NUM / c * c + MAX_PARTITION_NUM % c == MAX_PARTITION_NUM;
      MAX_PARTITION_NUM / c * c
  }

  /** Blocks are a whole number of entries (512 or 4096 bytes), and the table is all there. */
  predicate Editable(d: seq<byte>, bs: nat) {
    PARTITION_ENTRY_SIZE <= bs ==>
        bs % PARTITION_ENTRY_SIZE == 0 && HasTable(d, bs) && HasSlots(d, bs, MAX_PARTITION_NUM)
  }

  /** What EditABPartition leaves: every name before the first vacant slot swapped, and the table
      sealed; or, at the first name that does not fit, those before it swapped and no seal. */
  ghost predicate Edited(d: seq<byte>, r: seq<byte>, bs: nat, fromA: bool, ok: bool)
    requires PARTITION_ENTRY_SIZE <= bs && HasTable(d, bs) && HasSlots(d, bs, Slots(bs))
  {
    var n := Live(d, bs, 0, Slots(bs));
    && (ok <==> AllFit(d, bs, n, fromA))
    && (ok ==> (RenamedTable(d, bs, n, fromA); r == Seal(Renamed(d, bs, n, fromA), bs)))
    && (!ok ==> exists k :: 0 <= k < n &&
                  AllFit(d, bs, k, fromA) && !Fits(Field(d, bs, k), fromA) && r == Renamed(d, bs, k, fromA))
  }

  lemma RenamedTable(d: seq<byte>, bs: nat, n: nat, fromA: bool)
    requires HasTable(d, bs) && HasSlots(d, bs, n) && AllFit(d, bs, n, fromA)
    ensures HasTable(Renamed(d, bs, n, fromA), bs)
  {
    hide Number, Fits, Swapped, Renamed, AllFit;
    RenamedFrame(d, bs, n, fromA);
    var r := Renamed(d, bs, n, fromA);
    assert d[bs + PARTITION_COUNT_OFFSET..bs + PENTRY_SIZE_OFFSET]
        == r[bs + PARTITION_COUNT_OFFSET..bs + PENTRY_SIZE_OFFSET];
    assert d[bs + PENTRY_SIZE_OFFSET..bs + PARTITION_CRC_OFFSET]
        == r[bs + PENTRY_SIZE_OFFSET..bs + PARTITION_CRC_OFFSET];
  }

  /** The entry in slot `k`. */
  method EditEntry(gptImage: array<byte>, at: nat, fromA: bool, ghost bs: nat, ghost k: nat) returns (ok: bool)
    requires at == FieldAt(bs, k) && at + MAX_GPT_NAME_SIZE <= gptImage.Length
    modifies gptImage
    ensures ok <==> Fits(Field(old(gptImage[..]), bs, k), fromA)
    ensures gptImage[..] == if ok then Over(old(gptImage[..]), at, Swapped(Field(old(gptImage[..]), bs, k), fromA))
              else old(gptImage[..])
  {
    hide NameFrom, Target, Written;
    ghost var was := gptImage[..];
    assert gptImage[at..at + MAX_GPT_NAME_SIZE] == Field(was, bs, k);
    var sourceName := ParsePartitionName(gptImage[at..at + MAX_GPT_NAME_SIZE]);
    var targetName := GetTgtPartitionName(sourceName, fromA);
    TargetNonEmpty(sourceName, fromA);
    ok := WritePartitionName(targetName, gptImage, at);
  }

  lemma TargetNonEmpty(name: seq<byte>, fromA: bool)
    ensures Target(name, fromA) != []
  {
  }

  /** The names before slot `k` are swapped, and the rest is as it was. */
  ghost predicate Editing(was: seq<byte>, d: seq<byte>, bs: nat, k: nat, fromA: bool) {
    && k <= Slots(bs) && HasSlots(was, bs, Slots(bs)) && (forall i :: 0 <= i < k ==> !Vacant(was, bs, i))
    && AllFit(was, bs, k, fromA) && d == Renamed(was, bs, k, fromA)
  }

  lemma EditNext(was: seq<byte>, d: seq<byte>, bs: nat, k: nat, fromA: bool)
    requires Editing(was, d, bs, k, fromA) && k < Slots(bs)
    ensures Field(d, bs, k) == Field(was, bs, k) && (Vacant(d, bs, k) <==> Vacant(was, bs, k))
    ensures !Vacant(was, bs, k) && Fits(Field(was, bs, k), fromA) ==>
              Editing(was, Over(d, FieldAt(bs, k), Swapped(Field(was, bs, k), fromA)), bs, k + 1, fromA)
  {
    hide Fits, Swapped, Slots;
    RenamedField(was, bs, k, fromA, k);
    RenamedFrame(was, bs, k, fromA);
  }

  lemma EditStops(was: seq<byte>, d: seq<byte>, bs: nat, k: nat, fromA: bool)
    requires PARTITION_ENTRY_SIZE <= bs && HasTable(was, bs) && Editing(was, d, bs, k, fromA)
    ensures HasTable(d, bs)
    ensures k == Slots(bs) || Vacant(was, bs, k) ==> Edited(was, Seal(d, bs), bs, fromA, true)
    ensures k < Slots(bs) && !Vacant(was, bs, k) && !Fits(Field(was, bs, k), fromA) ==> Edited(was, d, bs, fromA, false)
  {
    hide Fits, Swapped, Slots, HasTable, Seal, Renamed, EntryBytes;
    RenamedTable(was, bs, k, fromA);
    LiveFrom(was, bs, k, Slots(bs));
    if k < Slots(bs) && !Vacant(was, bs, k) && !Fits(Field(was, bs, k), fromA) {
      assert k < Live(was, bs, 0, Slots(bs));
    }
  }

  lemma LiveFrom(d: seq<byte>, bs: nat, k: nat, slots: nat)
    requires k <= slots && HasSlots(d, bs, slots) && forall i :: 0 <= i < k ==> !Vacant(d, bs, i)
    ensures k <= Live(d, bs, 0, slots) && (k == slots || Vacant(d, bs, k) ==> Live(d, bs, 0, slots) == k)
  {
  }

  /** One block of the entry array: the inner loop. `first` is the number of its first slot. */
  method EditBlock(gptImage: array<byte>, data: nat, partEntryCnt: nat, fromA: bool,
                   first: nat, ghost was: seq<byte>, ghost bs: nat)
    returns (ok: bool, over: bool, count: nat)
    requires data == 2 * bs + PARTITION_ENTRY_SIZE * first && first + partEntryCnt <= Slots(bs)
    requires Editing(was, gptImage[..], bs, first, fromA)
    modifies gptImage
    ensures first <= count <= first + partEntryCnt && Editing(was, gptImage[..], bs, count, fromA)
    ensures !ok ==> count < Slots(bs) && !Vacant(was, bs, count) && !Fits(Field(was, bs, count), fromA)
    ensures ok && over ==> count < Slots(bs) && Vacant(was, bs, count)
    ensures ok && !over ==> count == first + partEntryCnt
  {
    hide Fits, Swapped, Slots, Renamed, Editing;
    ok, over, count := true, false, first;
    var j := 0;
    while j < partEntryCnt
      invariant 0 <= j <= partEntryCnt && count == first + j && ok && !over
      invariant Editing(was, gptImage[..], bs, count, fromA)
      decreases partEntryCnt - j
    {
      SlotsThere(was, gptImage[..], bs, count, fromA);
      EditNext(was, gptImage[..], bs, count, fromA);
      var entry := data + j * PARTITION_ENTRY_SIZE;
      assert entry + NAME_OFFSET == FieldAt(bs, count);
      if gptImage[entry] == 0 && gptImage[entry + 1] == 0 {
        over := true;
        break;
      }
      ok := EditEntry(gptImage, entry + NAME_OFFSET, fromA, bs, count);
      if !ok {
        return;
      }
      count := count + 1;
      j := j + 1;
    }
  }

  /** The loop bound, and where block `i` of the entry array starts. */
  function Blocks(c: nat): nat
    requires 0 < c
  {
    MAX_PARTITION_NUM / c
  }

  function BlockAt(bs: nat, i: nat): nat {
    (2 + i) * bs
  }

  /** UfsPtable::EditABPartition. */
  method EditABPartition(gptImage: array<byte>, bs: nat, fromA: bool) returns (ok: bool)
    requires Editable(gptImage[..], bs)
    modifies gptImage
    ensures bs < PARTITION_ENTRY_SIZE ==> !ok && gptImage[..] == old(gptImage[..])
    ensures PARTITION_ENTRY_SIZE <= bs ==> Edited(old(gptImage[..]), gptImage[..], bs, fromA, ok)
  {
    hide Editable, Fits, Swapped, Slots, HasTable, HasSlots, Seal, Renamed, EntryBytes,
      Editing, Edited, AllFit, Vacant, Standing, Blocks, BlockAt;
    var partEntryCnt := bs / PARTITION_ENTRY_SIZE;
    if partEntryCnt == 0 {
      return false;
    }
    ghost var was := gptImage[..];
    var i: nat, count: nat := 0, 0;
    EditStarts(was, bs, partEntryCnt, fromA);
    while i < Blocks(partEntryCnt) && count < MAX_PARTITION_NUM
      invariant Editing(was, gptImage[..], bs, count, fromA)
      invariant Standing(was, bs, partEntryCnt, i, count)
      decreases Blocks(partEntryCnt) - i
    {
      BlockStarts(was, bs, partEntryCnt, i, count);
      ghost var first := count;
      var over;
      ok, over, count := EditBlock(gptImage, BlockAt(bs, i), partEntryCnt, fromA, count, was, bs);
      if !ok {
        EditStops(was, gptImage[..], bs, count, fromA);
        return;
      }
      NextBlock(was, bs, partEntryCnt, i, first, count, over);
      if over {
        i := Blocks(partEntryCnt);
      }
      i := i + 1;
    }
    AllSeen(was, bs, partEntryCnt, i, count);
    EditStops(was, gptImage[..], bs, count, fromA);
    WriteCrcs(gptImage, bs);
    ok := true;
  }

  /** Before block `i`: all slots of the blocks before it are done, or a vacant one has been met. */
  ghost predicate Standing(was: seq<byte>, bs: nat, c: nat, i: nat, count: nat)
    requires 0 < c
  {
    if Blocks(c) < i then HasSlots(was, bs, Slots(bs)) && count < Slots(bs) && Vacant(was, bs, count)
    else count == i * c
  }

  lemma BlockStarts(was: seq<byte>, bs: nat, c: nat, i: nat, count: nat)
    requires bs % PARTITION_ENTRY_SIZE == 0 && 0 < c == bs / PARTITION_ENTRY_SIZE
    requires Standing(was, bs, c, i, count) && i < Blocks(c)
    ensures BlockAt(bs, i) == 2 * bs + PARTITION_ENTRY_SIZE * count && count + c <= Slots(bs)
  {
    var m := Blocks(c);
    assert bs == PARTITION_ENTRY_SIZE * c;
    assert i * (PARTITION_ENTRY_SIZE * c) == PARTITION_ENTRY_SIZE * (i * c);
    BlockBelow(c, i, m);
  }

  lemma NextBlock(was: seq<byte>, bs: nat, c: nat, i: nat, first: nat, count: nat, over: bool)
    requires 0 < c && i < Blocks(c) && Standing(was, bs, c, i, first)
    requires if over then HasSlots(was, bs, Slots(bs)) && count < Slots(bs) && Vacant(was, bs, count)
              else count == first + c
    ensures Standing(was, bs, c, if over then Blocks(c) + 1 else i + 1, count)
  {
    assert (i + 1) * c == i * c + c;
  }

  lemma AllSeen(was: seq<byte>, bs: nat, c: nat, i: nat, count: nat)
    requires 0 < c == bs / PARTITION_ENTRY_SIZE && Standing(was, bs, c, i, count)
    requires Blocks(c) <= i || MAX_PARTITION_NUM <= count
    requires HasSlots(was, bs, Slots(bs))
    ensures count == Slots(bs) || (count < Slots(bs) && Vacant(was, bs, count))
  {
    var m := Blocks(c);
    if i < m {
      BlockBelow(c, i, m);
    }
  }

  lemma BlockBelow(c: nat, i: nat, m: nat)
    requires i < m
    ensures i * c + c <= m * c
  {
    assert m * c - i * c == (m - i) * c;
    MulAtLeast(c, m - i);
  }

  lemma EditStarts(was: seq<byte>, bs: nat, c: nat, fromA: bool)
    requires Editable(was, bs) && 0 < c == bs / PARTITION_ENTRY_SIZE
    ensures PARTITION_ENTRY_SIZE <= bs && bs % PARTITION_ENTRY_SIZE == 0 && HasTable(was, bs)
    ensures HasSlots(was, bs, Slots(bs))
    ensures Editing(was, was, bs, 0, fromA) && Standing(was, bs, c, 0, 0)
  {
  }

  lemma SlotsThere(was: seq<byte>, d: seq<byte>, bs: nat, k: nat, fromA: bool)
    requires Editing(was, d, bs, k, fromA) && k < Slots(bs)
    ensures |d| == |was| && FieldAt(bs, k) + MAX_GPT_NAME_SIZE <= |d|
  {
    hide Fits, Swapped, Slots;
  }

  // ---------------------------------------------------------------- what the edit achieves

  lemma {:induction false} LiveSame(a: seq<byte>, b: seq<byte>, bs: nat, k: nat, slots: nat)
    requires |a| == |b| && HasSlots(a, bs, slots) && k <= slots
    requires forall i :: 0 <= i < slots ==> (Vacant(a, bs, i) <==> Vacant(b, bs, i))
    ensures Live(a, bs, k, slots) == Live(b, bs, k, slots)
    decreases slots - k
  {
    if k < slots {
      LiveSame(a, b, bs, k + 1, slots);
    }
  }

  /** A successful edit changes only bytes of names and the two checksums, which are right
      afterwards; it finds as many partitions in its result. */
  lemma EditSeals(d: seq<byte>, r: seq<byte>, bs: nat, fromA: bool)
    requires PARTITION_ENTRY_SIZE <= bs && HasTable(d, bs) && HasSlots(d, bs, Slots(bs))
    requires Edited(d, r, bs, fromA, true)
    ensures HasTable(r, bs) && Sealed(r, bs) && |r| == |d|
    ensures var n := Live(d, bs, 0, Slots(bs));
      && (forall k :: 0 <= k < |d| && !InCrcs(k, bs) && !InNames(k, bs, n) ==> r[k] == d[k])
      && Live(r, bs, 0, Slots(bs)) == n
      && AllFit(d, bs, n, fromA) && SameButCrcs(Renamed(d, bs, n, fromA), r, bs)
  {
    hide Fits, Swapped, Slots, HasTable, Sealed, Seal, Renamed, AllFit;
    var n := Live(d, bs, 0, Slots(bs));
    RenamedTable(d, bs, n, fromA);
    RenamedFrame(d, bs, n, fromA);
    SealSeals(Renamed(d, bs, n, fromA), bs);
    SealKeeps(Renamed(d, bs, n, fromA), bs);
    LiveSame(d, r, bs, 0, Slots(bs));
  }

  lemma {:induction false} RenamedSame(a: seq<byte>, b: seq<byte>, bs: nat, n: nat, fromA: bool)
    requires GPT_CRC_LEN <= bs && HasSlots(a, bs, n) && AllFit(a, bs, n, fromA) && SameButCrcs(a, b, bs)
    ensures AllFit(b, bs, n, fromA) && SameButCrcs(Renamed(a, bs, n, fromA), Renamed(b, bs, n, fromA), bs)
    decreases n
  {
    hide Fits, Swapped, Over, Field;
    if 0 < n {
      RenamedSame(a, b, bs, n - 1, fromA);
      SameName(a, b, bs, n - 1);
      OverSame(Renamed(a, bs, n - 1, fromA), Renamed(b, bs, n - 1, fromA), bs, n - 1,
          Swapped(Field(a, bs, n - 1), fromA));
    }
  }

  lemma OverSame(a: seq<byte>, b: seq<byte>, bs: nat, k: nat, f: seq<byte>)
    requires SameButCrcs(a, b, bs) && FieldAt(bs, k) + |f| <= |a|
    ensures SameButCrcs(Over(a, FieldAt(bs, k), f), Over(b, FieldAt(bs, k), f), bs)
  {
  }

  /** Equal outside the names, and name by name, is equal. */
  lemma FieldsEqual(a: seq<byte>, b: seq<byte>, bs: nat, n: nat)
    requires |a| == |b| && HasSlots(a, bs, n)
    requires forall k :: 0 <= k < |a| && !InNames(k, bs, n) ==> a[k] == b[k]
    requires forall f :: 0 <= f < n ==> Field(a, bs, f) == Field(b, bs, f)
    ensures a == b
  {
    forall k | 0 <= k < |a| && InNames(k, bs, n) ensures a[k] == b[k] {
      var f := (k - 2 * bs) / PARTITION_ENTRY_SIZE;
      var x := k - FieldAt(bs, f);
      assert a[k] == Field(a, bs, f)[x] && b[k] == Field(b, bs, f)[x];
    }
  }

  /** Swapping twice is the identity on the names exactly if all are swappable. */
  lemma RenamedTwice(d: seq<byte>, bs: nat, n: nat, fromA: bool)
    requires HasSlots(d, bs, n) && AllFit(d, bs, n, fromA) && AllFit(Renamed(d, bs, n, fromA), bs, n, fromA)
    ensures var z := Renamed(Renamed(d, bs, n, fromA), bs, n, fromA);
      && (z == d <==> forall k :: 0 <= k < n ==> Swappable(Field(d, bs, k)))
      && forall k :: 0 <= k < n ==> (Field(z, bs, k) == Field(d, bs, k) <==> Swappable(Field(d, bs, k)))
  {
    hide Fits, Swapped, Swappable, Renamed, InNames;
    var x := Renamed(d, bs, n, fromA);
    var z := Renamed(x, bs, n, fromA);
    RenamedFrame(d, bs, n, fromA);
    RenamedFrame(x, bs, n, fromA);
    forall k | 0 <= k < n ensures Field(z, bs, k) == Field(d, bs, k) <==> Swappable(Field(d, bs, k)) {
      RenamedField(d, bs, n, fromA, k);
      RenamedField(x, bs, n, fromA, k);
      SwapTwice(Field(d, bs, k), fromA);
    }
    if forall k :: 0 <= k < n ==> Swappable(Field(d, bs, k)) {
      FieldsEqual(z, d, bs, n);
    }
  }

  /** Editing twice restores the table exactly if both its checksums were right and every name was
      in lower case, with its high bytes zero, and ended in _a or _b. */
  lemma EditTwice(d: seq<byte>, r: seq<byte>, s: seq<byte>, bs: nat, fromA: bool)
    requires PARTITION_ENTRY_SIZE <= bs && HasTable(d, bs) && HasSlots(d, bs, Slots(bs))
    requires Edited(d, r, bs, fromA, true)
    requires HasTable(r, bs) && |r| == |d| && Edited(r, s, bs, fromA, true)
    ensures s == d <==> Sealed(d, bs) && forall k :: 0 <= k < Live(d, bs, 0, Slots(bs)) ==> Swappable(Field(d, bs, k))
  {
    hide Fits, Swapped, Swappable, Slots, Live, HasTable, Sealed, Seal, Renamed, AllFit, InNames;
    var n := Live(d, bs, 0, Slots(bs));
    var x := Renamed(d, bs, n, fromA);
    EditSeals(d, r, bs, fromA);
    SameButCrcsBack(x, r, bs);
    RenamedSame(r, x, bs, n, fromA);
    RenamedTwice(d, bs, n, fromA);
    RenamedTable(r, bs, n, fromA);
    var z := Renamed(x, bs, n, fromA);
    SealSame(Renamed(r, bs, n, fromA), z, bs);
    assert s == Seal(z, bs);
    if s == d {
      SealSeals(z, bs);
      SealKeeps(z, bs);
      forall k | 0 <= k < n ensures Swappable(Field(d, bs, k)) {
        SameName(z, d, bs, k);
      }
    }
    if z == d {
      SealedIff(d, bs);
    }
  }

  lemma SameButCrcsBack(a: seq<byte>, b: seq<byte>, bs: nat)
    requires SameButCrcs(a, b, bs)
    ensures SameButCrcs(b, a, bs)
  {
  }

  lemma SameName(a: seq<byte>, b: seq<byte>, bs: nat, k: nat)
    requires GPT_CRC_LEN <= bs && SameButCrcs(a, b, bs) && FieldAt(bs, k) + MAX_GPT_NAME_SIZE <= |a|
    ensures Field(a, bs, k) == Field(b, bs, k)
  {
  }
}
