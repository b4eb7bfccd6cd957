/** UScriptInstructionUpdateFromBin::UnCompressDataProducer
    (services/updater_binary/update_processor.cpp): unpacked data, in pieces of any size, goes into
    the ring buffer in pieces of one size. */
module DataProducers {
  import opened Device
  import opened BlockWriters

  const STASH_BUFFER_SIZE: nat := 4 * 1024 * 1024

  /** Those of the pieces offered to the ring buffer that it has taken. */
  function Taken(offered: seq<seq<byte>>, accepts: nat -> bool): (r: seq<seq<byte>>)
    ensures |r| <= |offered|
  {
    if offered == [] then []
    else
      var n := |offered| - 1;
      Taken(offered[..n], accepts) + if accepts(n) then [offered[n]] else []
  }

  /** A piece that is not taken is lost for good, and nobody notices. */
  lemma {:induction false} TakenWhole(offered: seq<seq<byte>>, accepts: nat -> bool)
    ensures Taken(offered, accepts) == offered <==> forall k :: 0 <= k < |offered| ==> accepts(k)
  {
    if offered != [] {
      var n := |offered| - 1;
      TakenWhole(offered[..n], accepts);
      assert offered[..n] + [offered[n]] == offered;
      if Taken(offered, accepts) == offered {
        assert |Taken(offered, accepts)| == n + 1;
        assert Taken(offered, accepts)[..n] == Taken(offered[..n], accepts);
      }
    }
  }

  class DataProducer {
    const stashBuffer: array<byte>
    /** Whether the ring buffer takes its k-th piece: it refuses when it has been stopped. */
    const accepts: nat -> bool
    var stashDataSize: nat
    /** What the ring buffer holds, what it has been offered, and what has come in. */
    var pushed: seq<seq<byte>>
    var pushes: nat
    ghost var offered: seq<seq<byte>>
    ghost var produced: seq<byte>

    constructor (accepts: nat -> bool)
      ensures Valid() && fresh(stashBuffer) && this.accepts == accepts
      ensures offered == [] && produced == [] && stashDataSize == 0
    {
      stashBuffer := new byte[STASH_BUFFER_SIZE](_ => 0);
      this.accepts := accepts;
      stashDataSize, pushed, pushes, offered, produced := 0, [], 0, [], [];
      new;
      assert stashBuffer[..0] == [];
    }

    /** Full pieces have been pushed, and what is left is stashed. */
    ghost predicate Valid()
      reads this, stashBuffer
    {
      && stashBuffer.Length == STASH_BUFFER_SIZE && stashDataSize < STASH_BUFFER_SIZE
      && Flatten(offered) + stashBuffer[..stashDataSize] == produced
      && pushed == Taken(offered, accepts) && pushes == |offered|
    }

    ghost predicate FullFrom(n: nat)
      reads this
    {
      forall i :: n <= i < |offered| ==> |offered[i]| == STASH_BUFFER_SIZE
    }

    method Push(data: seq<byte>)
      requires pushed == Taken(offered, accepts) && pushes == |offered|
      modifies this`pushed, this`pushes, this`offered
      ensures offered == old(offered) + [data] && Flatten(offered) == Flatten(old(offered)) + data
      ensures pushed == Taken(offered, accepts) && pushes == |offered|
    {
      if accepts(pushes) {
        pushed := pushed + [data];
      }
      pushes := pushes + 1;
      offered := offered + [data];
      assert offered[..|offered| - 1] == old(offered);
    }

    /** Nothing is lost, repeated or reordered wherever the data is cut. Every piece has the full size,
        except that the last call pushes what is left, if anything is. Whether a push succeeds is not
        looked at: what the ring buffer has of it all is told by `accepts` alone. */
    method UnCompressDataProducer(data: seq<byte>, isFinish: bool)
      requires Valid()
      modifies this, stashBuffer
      ensures Valid() && produced == old(produced) + data
      ensures old(offered) <= offered
      ensures if isFinish then stashDataSize == 0 else FullFrom(|old(offered)|)
      ensures isFinish ==> forall i :: |old(offered)| <= i < |offered| ==>
                if i < |offered| - 1 then |offered[i]| == STASH_BUFFER_SIZE else 0 < |offered[i]| <= STASH_BUFFER_SIZE
    {
      hide Flatten, Taken;
      var bufferStart, size: nat := 0, |data|;
      ghost var was, had := produced, offered;
      while stashDataSize + size >= STASH_BUFFER_SIZE
        invariant bufferStart + size == |data| && Valid() && produced == was + data[..bufferStart]
        invariant had <= offered && FullFrom(|had|)
        decreases size
      {
        var readLen := STASH_BUFFER_SIZE - stashDataSize;
        ghost var kept, sent := stashBuffer[..stashDataSize], Flatten(offered);
        Fill(data[bufferStart..bufferStart + readLen]);
        assert stashBuffer[..] == kept + data[bufferStart..bufferStart + readLen];
        Push(stashBuffer[..]);
        stashDataSize := 0;
        size := size - readLen;
        assert data[..bufferStart] + data[bufferStart..bufferStart + readLen] == data[..bufferStart + readLen];
        Joined(sent, kept, was, data[..bufferStart], data[bufferStart..bufferStart + readLen]);
        bufferStart := bufferStart + readLen;
        produced := was + data[..bufferStart];
        assert stashBuffer[..0] == [];
      }
      assert data[..bufferStart] + data[bufferStart..] == data;
      if size == 0 && stashDataSize == 0 {
        assert data[..bufferStart] == data;
        return;
      }
      ghost var kept, sent := stashBuffer[..stashDataSize], Flatten(offered);
      Fill(data[bufferStart..]);
      Joined(sent, kept, was, data[..bufferStart], data[bufferStart..]);
      produced := was + data;
      if isFinish {
        Push(stashBuffer[..stashDataSize + size]);
        stashDataSize := 0;
        assert stashBuffer[..0] == [];
      } else {
        stashDataSize := stashDataSize + size;
      }
    }

    /** memcpy behind what is stashed. */
    method Fill(data: seq<byte>)
      requires stashDataSize + |data| <= stashBuffer.Length
      modifies stashBuffer
      ensures stashBuffer[..stashDataSize + |data|] == old(stashBuffer[..stashDataSize]) + data
    {
      forall k | 0 <= k < |data| {
        stashBuffer[stashDataSize + k] := data[k];
      }
    }

    static lemma Joined(sent: seq<byte>, kept: seq<byte>, was: seq<byte>, before: seq<byte>, more: seq<byte>)
      requires sent + kept == was + before
      ensures sent + (kept + more) == was + (before + more)
    {
      assert sent + (kept + more) == sent + kept + more;
    }
  }
}
