/** services/common/ring_buffer/ring_buffer.cpp: a buffer of slots whose indices run modulo twice
    the number of slots. The value `Ring` is what the two threads share; the class holds it in
    arrays, and its methods are the sections the source runs under `arrayMtx_`. */
module Rings {
  import opened Bits

  datatype Ring<T> = Ring(num: nat, writeIndex: nat, readIndex: nat, slots: seq<T>) {

    predicate Full() {
      writeIndex == Xor(readIndex, num)
    }

    predicate Empty() {
      writeIndex == readIndex
    }

    /** 2 * num - 1 as a uint32_t: for num == 2^31 the product wraps to 0 and the mask is all ones. */
    function IndexMask(): nat {
      ((2 * num) % U32 + U32 - 1) % U32
    }

    function Advance(index: nat): nat {
      And((index + 1) % U32, IndexMask())
    }

    function Slot(index: nat): (slot: nat)
      requires 0 < num
      ensures slot < num
    {
      AndBound(index, num - 1);
      And(index, num - 1)
    }

    ghost predicate Shape() {
      && (exists k: nat :: k <= 31 && num == Pow2(k))
      && |slots| == num && writeIndex < 2 * num && readIndex < 2 * num
    }

    function Put(x: T): (r: Ring<T>)
      requires 0 < num == |slots|
    {
      Ring(num, Advance(writeIndex), readIndex, slots[Slot(writeIndex) := x])
    }

    function Front(): T
      requires 0 < num == |slots|
    {
      slots[Slot(readIndex)]
    }

    function Drop(): Ring<T> {
      Ring(num, writeIndex, Advance(readIndex), slots)
    }

    /** The ring holds exactly the items of `pushed` from number `popped` on, in order. */
    ghost predicate Holds(pushed: seq<T>, popped: nat) {
      && Shape()
      && popped <= |pushed| <= popped + num
      && writeIndex == |pushed| % (2 * num) && readIndex == popped % (2 * num)
      && forall i :: popped <= i < |pushed| ==> slots[i % num] == pushed[i]
    }

    // -------------------------------------------------------------- the index arithmetic

    lemma SlotIsMod(x: nat)
      requires Shape()
      ensures Slot(x) == x % num
    {
      var k: nat :| k <= 31 && num == Pow2(k);
      MaskIsMod(x, k);
    }

    lemma AdvanceIsMod(x: nat)
      requires Shape() && x < U32
      ensures Advance(x) == (x + 1) % (2 * num)
    {
      Small();
      var k: nat :| k <= 31 && num == Pow2(k);
      MaskWrapped(x + 1, k + 1, 2 * num);
    }

    /** The XOR test means exactly num items in flight, the equality test exactly none. */
    lemma Counts(pushed: seq<T>, popped: nat)
      requires Holds(pushed, popped)
      ensures Full() <==> |pushed| - popped == num
      ensures Empty() <==> |pushed| == popped
    {
      hide Xor;
      var k: nat :| k <= 31 && num == Pow2(k);
      XorFlips(readIndex, k);
      ModShift(popped, num);
      if Full() {
        ModSame(|pushed|, popped + num, 2 * num);
      }
      if Empty() {
        ModSame(popped, |pushed|, 2 * num);
      }
    }

    lemma StartsEmpty()
      requires Shape() && writeIndex == readIndex == 0
      ensures Holds([], 0)
    {
      assert 0 % (2 * num) == 0;
    }

    lemma Bounds(pushed: seq<T>, popped: nat)
      requires Holds(pushed, popped)
      ensures 0 < num == |slots| && popped <= |pushed| <= popped + num
    {
    }

    lemma PutHolds(pushed: seq<T>, popped: nat, x: T)
      requires Holds(pushed, popped) && |pushed| < popped + num
      ensures Put(x).Holds(pushed + [x], popped)
    {
      Small();
      SlotIsMod(writeIndex);
      AdvanceIsMod(writeIndex);
      ModHalf(|pushed|, num);
      ModNext(|pushed|, 2 * num);
      var after := Put(x);
      forall i | popped <= i < |pushed + [x]| ensures after.slots[i % num] == (pushed + [x])[i] {
        if i < |pushed| && i % num == |pushed| % num {
          ModSame(i, |pushed|, num);
        }
      }
    }

    lemma DropHolds(pushed: seq<T>, popped: nat)
      requires Holds(pushed, popped) && popped < |pushed|
      ensures Front() == pushed[popped]
      ensures Drop().Holds(pushed, popped + 1)
    {
      Small();
      SlotIsMod(readIndex);
      AdvanceIsMod(readIndex);
      ModHalf(popped, num);
      ModNext(popped, 2 * num);
    }

    lemma Small()
      requires Shape()
      ensures 2 * num <= U32 && IndexMask() == 2 * num - 1
    {
      var k: nat :| k <= 31 && num == Pow2(k);
      PowBound(k);
      MaskWhole(num);
    }
  }

  lemma MaskWhole(num: nat)
    requires 0 < num <= 0x8000_0000
    ensures ((2 * num) % U32 + U32 - 1) % U32 == 2 * num - 1
  {
  }

  lemma PowBound(k: nat)
    requires k <= 31
    ensures Pow2(k) <= 0x8000_0000
  {
    Pow2Grows(k, 31);
    Pow32();
  }

  /** Wrapping at 2^32 does not disturb a remainder by a smaller power of two. */
  lemma {:induction false} Wrap(x: nat, k: nat)
    requires k <= 32 && x <= U32
    ensures (x % U32) % Pow2(k) == x % Pow2(k)
  {
    if x == U32 {
      Pow32();
      PowDivides(k, 32);
    }
  }

  lemma MaskWrapped(x: nat, k: nat, m: nat)
    requires k <= 32 && x <= U32 && m == Pow2(k)
    ensures And(x % U32, m - 1) == x % m
  {
    MaskIsMod(x % U32, k);
    Wrap(x, k);
  }

  lemma Pow32()
    ensures Pow2(32) == U32
  {
    assert Pow2(8) == 256;
    assert Pow2(16) == 65536;
    assert Pow2(24) == 0x100_0000;
  }

  lemma {:induction false} PowDivides(k: nat, n: nat)
    requires k <= n
    ensures Pow2(n) % Pow2(k) == 0
    decreases n
  {
    if k < n {
      PowDivides(k, n - 1);
      var q := Pow2(n - 1) / Pow2(k);
      assert Pow2(k) * q == Pow2(n - 1);
      assert Pow2(k) * (2 * q) == 2 * (Pow2(k) * q);
      ModUnique(Pow2(n), Pow2(k), 2 * q, 0);
    } else {
      ModUnique(Pow2(n), Pow2(n), 1, 0);
    }
  }
}

module RingBuffers {
  import opened Bits
  import opened Rings
  import opened Device

  class RingBuffer {
    var writeIndex: nat
    var readIndex: nat
    var singleSize: nat
    var num: nat
    var bufArray: array?<seq<byte>>
    var lenArray: array?<nat>
    /** Everything that has been pushed, and how many items have been popped. */
    ghost var pushed: seq<seq<byte>>
    ghost var popped: nat

    constructor ()
      ensures num == 0 && bufArray == null && lenArray == null && pushed == [] && popped == 0
    {
      writeIndex, readIndex, singleSize, num := 0, 0, 0, 0;
      bufArray, lenArray, pushed, popped := null, null, [], 0;
    }

    ghost predicate Allocated()
      reads this, bufArray, lenArray
    {
      && bufArray != null && lenArray != null && bufArray.Length == num == lenArray.Length
      && forall i :: 0 <= i < num ==> |bufArray[i]| == singleSize && lenArray[i] <= singleSize
    }

    ghost function Value(): Ring<seq<byte>>
      requires Allocated()
      reads this, bufArray, lenArray
    {
      Ring(num, writeIndex, readIndex, seq(num, i requires 0 <= i < num && Allocated() reads this, bufArray, lenArray =>
        bufArray[i][..lenArray[i]]))
    }

    ghost predicate Valid()
      reads this, bufArray, lenArray
    {
      Allocated() && Value().Holds(pushed, popped)
    }

    ghost function InFlight(): seq<seq<byte>>
      requires Valid()
      reads this, bufArray, lenArray
    {
      pushed[popped..]
    }

    /** `num` is a uint32_t. The buffer is usable exactly if the sizes are positive and `num` is
        a power of two. */
    method Init(singleSize: nat, num: nat) returns (ok: bool)
      requires num < U32 && pushed == [] && popped == 0
      modifies this
      ensures ok <==> 0 < singleSize && 0 < num && exists k: nat :: num == Pow2(k)
      ensures ok ==> Valid() && fresh(bufArray) && fresh(lenArray) && InFlight() == []
      ensures ok ==> this.num == num && this.singleSize == singleSize && pushed == [] && popped == 0
    {
      PowBelow(num);
      if singleSize == 0 || num == 0 || And(num, num - 1) != 0 {
        return false;
      }
      Allocate(singleSize, num);
      ok := true;
    }

    method Allocate(singleSize: nat, num: nat)
      requires (exists k: nat :: k <= 31 && num == Pow2(k)) && pushed == [] && popped == 0
      modifies this
      ensures Valid() && fresh(bufArray) && fresh(lenArray) && InFlight() == []
      ensures this.num == num && this.singleSize == singleSize && pushed == [] && popped == 0
    {
      bufArray := new seq<byte>[num](_ => seq(singleSize, _ => 0));
      lenArray := new nat[num](_ => 0);
      writeIndex, readIndex, this.num, this.singleSize := 0, 0, num, singleSize;
      hide Ring.Holds, Pow2;
      Value().StartsEmpty();
    }

    method IsFull() returns (full: bool)
      requires Valid()
      ensures full <==> |InFlight()| == num
    {
      Value().Counts(pushed, popped);
      full := writeIndex == Xor(readIndex, num);
    }

    method IsEmpty() returns (empty: bool)
      requires Valid()
      ensures empty <==> InFlight() == []
    {
      Value().Counts(pushed, popped);
      empty := writeIndex == readIndex;
    }

    /** What Push checks, and what it does under `arrayMtx_` once there is room. */
    method Store(data: seq<byte>) returns (ok: bool)
      requires Valid() && |InFlight()| < num
      modifies this, bufArray, lenArray
      ensures Valid() && num == old(num) && singleSize == old(singleSize)
      ensures bufArray == old(bufArray) && lenArray == old(lenArray)
      ensures ok <==> 0 < |data| <= singleSize
      ensures ok ==> InFlight() == old(InFlight()) + [data] && Value() == old(Value()).Put(data)
      ensures !ok ==> InFlight() == old(InFlight()) && Value() == old(Value())
    {
      if |data| == 0 || singleSize < |data| {
        return false;
      }
      ok := true;
      ghost var was := Value();
      was.PutHolds(pushed, popped, data);
      was.Small();
      var index := And(writeIndex, num - 1);
      bufArray[index] := data + bufArray[index][|data|..];
      lenArray[index] := |data|;
      writeIndex := And((writeIndex + 1) % U32, ((2 * num) % U32 + U32 - 1) % U32);
      assert Value().slots == was.Put(data).slots;
      pushed := pushed + [data];
    }

    /** What Pop does under `arrayMtx_`. An item longer than the caller's buffer stays. */
    method Take(maxLen: nat) returns (ok: bool, data: seq<byte>)
      requires Valid() && InFlight() != []
      modifies this
      ensures Valid() && num == old(num) && singleSize == old(singleSize)
      ensures bufArray == old(bufArray) && lenArray == old(lenArray)
      ensures ok <==> |old(InFlight())[0]| <= maxLen
      ensures ok ==> [data] + InFlight() == old(InFlight()) && Value() == old(Value()).Drop()
      ensures !ok ==> InFlight() == old(InFlight()) && Value() == old(Value())
    {
      Value().DropHolds(pushed, popped);
      var index := And(readIndex, num - 1);
      data := bufArray[index][..lenArray[index]];
      ok := lenArray[index] <= maxLen;
      if ok {
        readIndex := And((readIndex + 1) % U32, ((2 * num) % U32 + U32 - 1) % U32);
        popped := popped + 1;
      }
    }
  }

  /** The test Init makes, for a uint32_t. */
  lemma PowBelow(num: nat)
    requires num < U32
    ensures 0 < num && And(num, num - 1) == 0 <==> 0 < num && exists k: nat :: num == Pow2(k)
    ensures (exists k: nat :: num == Pow2(k)) ==> exists k: nat :: k <= 31 && num == Pow2(k)
  {
    if 0 < num {
      PowerTest(num);
    }
    if k: nat :| num == Pow2(k) {
      if 31 < k {
        Pow32();
        Pow2Grows(32, k);
      }
    }
  }
}
