/** services/factory_reset/secure_erase.cpp: the partitions are overwritten a gigabyte at a time,
    each several times over, and after each step the offset reached is put in misc, from where the
    next boot takes it up. Bytes are addressed through all partitions one after the other. */
module SecureErases {
  import opened LittleEndian
  import opened MiscMessages

  const OVERWRITE_SZIE: nat := 1024 * 1024 * 1024
  const DISK_ERASE_TIMES := 3

  /** What becomes of a write to a partition, or of a write to misc. */
  datatype Fault = Works | Breaks(written: nat)

  /** Every byte from `lo` to `hi` has been overwritten `times` times since `was`, and none below. */
  ghost predicate Covered(was: seq<nat>, now: seq<nat>, lo: nat, hi: nat, times: int) {
    && |was| == |now| && (forall a :: 0 <= a < |was| ==> was[a] <= now[a])
    && (forall a :: 0 <= a < lo && a < |was| ==> now[a] == was[a])
    && forall a :: lo <= a < hi && a < |was| ==> was[a] + times <= now[a]
  }

  /** The bytes from `lo` to `hi` have been overwritten `n` times since `was`, and no others. */
  ghost predicate Added(was: seq<nat>, now: seq<nat>, lo: nat, hi: nat, n: nat) {
    |was| == |now| && forall a :: 0 <= a < |was| ==> now[a] == was[a] + if lo <= a < hi then n else 0
  }

  /** A pass over a piece after `n` others, the last perhaps cut short. */
  lemma AddedNext(was: seq<nat>, mid: seq<nat>, now: seq<nat>, lo: nat, hi: nat, n: nat, end: nat,
                  times: int)
    requires Added(was, mid, lo, hi, n) && Added(mid, now, lo, end, 1) && end <= hi
    ensures end == hi ==> Added(was, now, lo, hi, n + 1)
    ensures |now| == |was| && Covered(was, now, lo, lo, times) && Same(was, now, hi)
  {
  }

  lemma AddedCovers(was: seq<nat>, now: seq<nat>, lo: nat, hi: nat, n: nat, times: int)
    requires Added(was, now, lo, hi, n) && times <= n
    ensures Covered(was, now, lo, hi, times) && Same(was, now, hi)
  {
  }

  lemma AddedNone(was: seq<nat>, lo: nat, hi: nat)
    ensures Added(was, was, lo, hi, 0)
  {
  }

  /** From `hi` on nothing has been overwritten. */
  ghost predicate Same(was: seq<nat>, now: seq<nat>, hi: nat) {
    |was| == |now| && forall a :: hi <= a < |was| ==> now[a] == was[a]
  }

  lemma SameSize(was: seq<nat>, hi: nat)
    ensures Same(was, was, hi)
  {
  }

  lemma SameOn(was: seq<nat>, mid: seq<nat>, now: seq<nat>, at: nat, hi: nat)
    requires Same(was, mid, hi) && Same(mid, now, at) && at <= hi
    ensures Same(was, now, hi)
  {
  }

  lemma CoveredOn(was: seq<nat>, mid: seq<nat>, now: seq<nat>, lo: nat, at: nat, hi: nat, times: int)
    requires lo <= at && Covered(was, mid, lo, at, times) && Covered(mid, now, at, hi, times)
    ensures Covered(was, now, lo, hi, times)
  {
  }

  /** What is covered up to `hi` is covered up to anywhere before. */
  lemma CoveredBefore(was: seq<nat>, now: seq<nat>, lo: nat, hi: nat, times: int)
    requires Covered(was, now, lo, hi, times)
    ensures forall at: nat :: at <= hi ==> Covered(was, now, lo, at, times)
    ensures Covered(was, now, 0, 0, 0)
  {
  }

  lemma CoveredNone(was: seq<nat>, lo: nat, times: int)
    ensures Covered(was, was, lo, lo, times)
  {
  }

  function Sum(sizes: seq<nat>): nat {
    if sizes == [] then 0 else Sum(sizes[..|sizes| - 1]) + sizes[|sizes| - 1]
  }

  lemma {:induction false} SumPrefix(sizes: seq<nat>, i: nat)
    requires i <= |sizes|
    ensures Sum(sizes[..i]) <= Sum(sizes)
    ensures i < |sizes| ==> Sum(sizes[..i + 1]) == Sum(sizes[..i]) + sizes[i]
    decreases |sizes| - i
  {
    if i == |sizes| {
      assert sizes[..i] == sizes;
    } else {
      SumPrefix(sizes, i + 1);
      assert sizes[..i + 1][..i] == sizes[..i];
    }
  }

  /** The argument that holds the offset. */
  function HeadOf(diskErase: bool): seq<char> {
    if diskErase then "disk_erase" else "secure_erase"
  }

  lemma WrittenArgument(kept: seq<seq<char>>, head: seq<char>, offset: nat)
    requires offset < U64
    ensures Argument(head, Value(AsInt64(offset))) != []
  {
  }

  class SecureErase {
    const sizes: seq<nat>  // overwritePartInfos_: partition sizes
    const diskErase: bool  // ERASE_DATA_AND_OS
    const faults: nat -> Fault
    var ops: nat
    // kept across boots
    /** How often each byte has been overwritten. */
    var count: seq<nat>
    const misc: Misc
    // lost on a reboot
    var overwriteOffset: nat
    var currentOffset: nat

    constructor (sizes: seq<nat>, diskErase: bool, faults: nat -> Fault, count: seq<nat>, misc: Misc)
      ensures this.sizes == sizes && this.diskErase == diskErase && this.faults == faults
      ensures this.count == count && this.misc == misc && overwriteOffset == 0
    {
      this.sizes, this.diskErase, this.faults, this.count, this.misc := sizes, diskErase, faults, count, misc;
      ops, overwriteOffset, currentOffset := 0, 0, 0;
    }

    ghost predicate Faultless() {
      forall k :: faults(k).Works?
    }

    function Head(): seq<char> {
      HeadOf(diskErase)
    }

    /** The offset in misc. */
    function Persisted(): nat
      reads misc
    {
      NumberIn(misc.Arguments(), Head())
    }

    /** InitSecureEraseFunc and LoadOffsetInRetry: take up the offset that misc holds. */
    method LoadOffsetInRetry()
      modifies this`overwriteOffset
      ensures overwriteOffset == Persisted()
    {
      var args := misc.ParseParams();
      overwriteOffset := NumberIn(args, Head());
    }

    /** Utils::WriteFully: all of the bytes, or the first of them. */
    method WriteFully(at: nat, size: nat) returns (ok: bool)
      requires at + size <= |count|
      modifies this`ops, this`count
      ensures ok == old(faults(ops)).Works? && ops == old(ops) + 1
      ensures var fault := old(faults(ops));
        Added(old(count), count, at, at + if ok || size < fault.written then size else fault.written, 1)
    {
      var fault := faults(ops);
      ops := ops + 1;
      ok := fault.Works?;
      var n := if ok || size < fault.written then size else fault.written;
      count := seq(|count|, a requires 0 <= a < |count| reads this =>
        if at <= a < at + n then count[a] + 1 else count[a]);
    }

    /** SyncOffsetInMisc. That this may fail is not noticed. */
    method SyncOffsetInMisc(offset: nat)
      requires offset < U64
      modifies this`ops, misc
      ensures Persisted() == offset || Persisted() == old(Persisted())
      ensures ops == old(ops) + 1
    {
      hide NumberIn, Argument, Lines, Kept, Split;
      var writable := faults(ops).Works?;
      ops := ops + 1;
      ghost var kept := Kept(misc.Arguments(), Head());
      var ok := misc.UpdateInfoInMisc(Head(), Value(AsInt64(offset)), writable);
      if ok {
        WrittenArgument(kept, Head(), offset);
        NumberWritten(kept, Head(), offset);
      }
    }

    /** OverWritePartition on one piece, `base` being where the partition starts. */
    method OverWritePiece(base: nat, writeSize: nat, number: int) returns (ok: bool)
      requires base + currentOffset + writeSize <= |count|
      modifies this`ops, this`count, this`currentOffset, this`overwriteOffset
      ensures var at := base + old(currentOffset);
        && |count| == old(|count|) && Covered(old(count), count, at, if ok then at + writeSize else at, number)
        && Same(old(count), count, at + writeSize)
        && (ok ==> Added(old(count), count, at, at + writeSize, if number < 0 then 0 else number))
      ensures currentOffset == old(currentOffset) + (if ok then writeSize else 0)
      ensures overwriteOffset == old(overwriteOffset) + (if ok then writeSize else 0)
      ensures Faultless() ==> ok
    {
      hide Covered, Added, Same;
      ghost var was, at := count, base + currentOffset;
      var i := 0;
      AddedNone(was, at, at + writeSize);
      while i < number
        invariant 0 <= i && (i <= number || i == 0) && currentOffset == old(currentOffset)
        invariant overwriteOffset == old(overwriteOffset)
        invariant |count| == |was| && Added(was, count, at, at + writeSize, i)
      {
        ghost var mid, fault := count, faults(ops);
        ok := WriteFully(base + currentOffset, writeSize);
        AddedNext(was, mid, count, at, at + writeSize, i,
                  at + if ok || writeSize < fault.written then writeSize else fault.written, number);
        if !ok {
          return;
        }
        i := i + 1;
      }
      AddedCovers(was, count, at, at + writeSize, i, number);
      currentOffset := currentOffset + writeSize;
      overwriteOffset := overwriteOffset + writeSize;
      ok := true;
    }

    /** While a partition is being written, the offset is the size of those before it and what is
        done of it; all from `start` up to there has been overwritten, and misc is not ahead. */
    ghost predicate Writing(was: seq<nat>, start: nat, base: nat, times: int)
      reads this
    {
      && overwriteOffset == base + currentOffset && start <= overwriteOffset
      && Covered(was, count, start, overwriteOffset, times)
    }

    method OverwriteSinglePartition(base: nat, partSize: nat, eraseTimes: int, ghost was: seq<nat>,
                                    ghost start: nat)
      returns (ok: bool)
      requires currentOffset < partSize && base + partSize <= |count| < U64 && Writing(was, start, base, eraseTimes)
      modifies this, misc
      ensures |count| == old(|count|) && Same(old(count), count, base + partSize)
      ensures Writing(was, start, base, eraseTimes)
      ensures old(overwriteOffset) <= overwriteOffset && (ok ==> currentOffset == partSize)
      ensures Persisted() == old(Persisted()) || (start <= Persisted() <= overwriteOffset)
      ensures Faultless() ==> ok
    {
      hide Covered, Same, Added, Persisted;
      ghost var before := count;
      SameSize(before, base + partSize);
      while currentOffset < partSize
        invariant currentOffset <= partSize && Writing(was, start, base, eraseTimes)
        invariant |count| == old(|count|) && Same(old(count), count, base + partSize)
        invariant Persisted() == old(Persisted()) || start <= Persisted() <= overwriteOffset
        invariant old(overwriteOffset) <= overwriteOffset
        decreases partSize - currentOffset
      {
        var writeSize := OVERWRITE_SZIE;
        if currentOffset + writeSize > partSize {
          writeSize := partSize - currentOffset;
        }
        ghost var mid, from := count, overwriteOffset;
        ok := OverWritePiece(base, writeSize, eraseTimes);
        SameOn(before, mid, count, from + writeSize, base + partSize);
        if !ok {
          CoveredOn(was, mid, count, start, from, from, eraseTimes);
          return;
        }
        CoveredOn(was, mid, count, start, from, overwriteOffset, eraseTimes);
        SyncOffsetInMisc(overwriteOffset);
      }
      ok := currentOffset != 0;
    }

    function Times(eraseTimes: int): int {
      if diskErase then DISK_ERASE_TIMES else eraseTimes
    }

    /** OverWritePartition. A run that reports success has overwritten every byte from the offset
        it was given to the end; the offset in misc is never ahead of what has been. */
    method OverWritePartition(eraseTimes: int) returns (ok: bool)
      requires |count| == Sum(sizes) < U64
      modifies this, misc
      ensures ok ==> sizes != [] && Covered(old(count), count, old(overwriteOffset), |count|, Times(eraseTimes))
      ensures Faultless() && sizes != [] ==> ok
      ensures Covered(old(count), count, old(overwriteOffset), old(overwriteOffset), Times(eraseTimes))
      ensures Persisted() == old(Persisted()) ||
              (old(overwriteOffset) <= Persisted()
               && Covered(old(count), count, old(overwriteOffset), Persisted(), Times(eraseTimes)))
    {
      hide Covered, Persisted;
      var times := Times(eraseTimes);
      CoveredNone(count, overwriteOffset, times);
      CoveredBefore(count, count, overwriteOffset, overwriteOffset, times);
      if sizes == [] {
        return false;
      }
      ghost var was, start := count, overwriteOffset;
      currentOffset := overwriteOffset;
      var base: nat := 0;
      for i := 0 to |sizes|
        invariant base == Sum(sizes[..i]) && |count| == |was| && Writing(was, start, base, times)
        invariant Persisted() == old(Persisted()) || start <= Persisted() <= overwriteOffset
      {
        SumPrefix(sizes, i);
        SumPrefix(sizes, i + 1);
        if currentOffset >= sizes[i] {
          currentOffset := currentOffset - sizes[i];
          base := base + sizes[i];
          continue;
        }
        var isOpen := faults(ops).Works?;
        ops := ops + 1;
        CoveredBefore(was, count, start, overwriteOffset, times);
        if !isOpen {
          return false;
        }
        ok := OverwriteSinglePartition(base, sizes[i], times, was, start);
        CoveredBefore(was, count, start, overwriteOffset, times);
        if !ok {
          return;
        }
        base := base + sizes[i];
        currentOffset := 0;
      }
      assert sizes[..|sizes|] == sizes;
      CoveredBefore(was, count, start, overwriteOffset, times);
      ok := true;
    }
  }

  /** Every byte below `hi` has been overwritten at least `times` times. */
  ghost predicate Erased(count: seq<nat>, hi: nat, times: int) {
    forall a :: 0 <= a < hi && a < |count| ==> times <= count[a]
  }

  lemma ErasedOn(was: seq<nat>, now: seq<nat>, at: nat, hi: nat, times: int)
    requires Erased(was, at, times) && Covered(was, now, at, hi, times)
    ensures Erased(now, at, times) && Erased(now, hi, times)
  {
  }

  lemma ErasedStays(was: seq<nat>, now: seq<nat>, at: nat, times: int)
    requires Erased(was, at, times) && Covered(was, now, at, at, times)
    ensures |now| == |was| && Erased(now, at, times)
  {
  }

  /** An erase and its retries, each in a fresh process that takes the offset from misc. After
      every boot, whatever failed in it, all bytes below the offset in misc have been overwritten
      often enough; once a run reports success, every byte has; and a boot that meets no fault
      reports success. */
  method EraseAcrossBoots(sizes: seq<nat>, diskErase: bool, eraseTimes: int, boots: seq<nat -> Fault>, misc: Misc)
    returns (done: bool, count: seq<nat>)
    requires Sum(sizes) < U64 && NumberIn(misc.Arguments(), if diskErase then "disk_erase" else "secure_erase") == 0
    modifies misc
    ensures |count| == Sum(sizes)
    ensures var times := if diskErase then DISK_ERASE_TIMES else eraseTimes;
      && Erased(count, NumberIn(misc.Arguments(), if diskErase then "disk_erase" else "secure_erase"), times)
      && (done ==> Erased(count, Sum(sizes), times))
    ensures sizes != [] && (exists b :: 0 <= b < |boots| && Quiet(boots[b])) ==> done
  {
    hide Covered, Erased, NumberIn;
    var times := if diskErase then DISK_ERASE_TIMES else eraseTimes;
    done, count := false, seq(Sum(sizes), _ => 0);
    NothingErased(count, times);
    for b := 0 to |boots|
      invariant |count| == Sum(sizes) && (done ==> Erased(count, Sum(sizes), times))
      invariant Erased(count, NumberIn(misc.Arguments(), HeadOf(diskErase)), times)
      invariant !done && sizes != [] ==> forall x :: 0 <= x < b ==> !Quiet(boots[x])
    {
      if !done {
        ghost var loaded := NumberIn(misc.Arguments(), HeadOf(diskErase));
        var erase := new SecureErase(sizes, diskErase, boots[b], count, misc);
        erase.LoadOffsetInRetry();
        done := erase.OverWritePartition(eraseTimes);
        ErasedStays(count, erase.count, loaded, times);
        if erase.Persisted() != loaded {
          ErasedOn(count, erase.count, loaded, erase.Persisted(), times);
        }
        if done {
          ErasedOn(count, erase.count, loaded, |count|, times);
        }
        count := erase.count;
      }
    }
  }

  ghost predicate Quiet(faults: nat -> Fault) {
    forall k :: faults(k).Works?
  }

  lemma NothingErased(count: seq<nat>, times: int)
    ensures Erased(count, 0, times)
  {
  }
}
