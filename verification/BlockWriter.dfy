/** services/applypatch/block_writer.cpp: a resumable writer that lays a stream of pieces
    along a list of block ranges. */
module BlockWriters {
  import opened Ranges
  import opened Device

  class BlockWriter {
    const disk: BlockDevice
    const blocks: seq<BlockPair>
    var blockIndex: nat
    var currentBlockLeft: nat
    var totalWritten: nat
    /** The image the writer started from, the addresses it is to cover, and every byte it has
        accepted. */
    ghost const image: seq<byte>
    ghost const addrs: seq<nat>
    ghost var accepted: seq<byte>

    /** written + left in the current range + later ranges == GetBlocksSize, and the device is
        the starting image with the accepted bytes laid along the ranges, in order. */
    ghost predicate Valid()
      reads this, disk
    {
      && addrs == Addrs(blocks)
      && blockIndex <= |blocks|
      && totalWritten == |accepted| && totalWritten + currentBlockLeft <= |addrs|
      && totalWritten + currentBlockLeft == |Addrs(blocks[..blockIndex])|
      && (0 < blockIndex ==> currentBlockLeft <= RangeBytes(blocks[blockIndex - 1]))
      && (0 < currentBlockLeft ==> 0 < blockIndex)
      && (0 < currentBlockLeft ==> disk.pos + currentBlockLeft == blocks[blockIndex - 1].second * BLOCK_SIZE)
      && disk.content == Scatter(image, addrs, accepted)
    }

    constructor (disk: BlockDevice, blocks: seq<BlockPair>)
      ensures Valid() && Settled() && this.disk == disk && this.blocks == blocks
      ensures accepted == [] && image == disk.content
    {
      this.disk, this.blocks := disk, blocks;
      blockIndex, currentBlockLeft, totalWritten := 0, 0, 0;
      accepted, image, addrs := [], disk.content, Addrs(blocks);
    }

    function IsWriteDone(): bool
      reads this
    {
      blockIndex == |blocks| && currentBlockLeft == 0
    }

    /** No range has been entered without a byte being written in it. */
    predicate Settled()
      reads this
    {
      0 < blockIndex <= |blocks| ==> currentBlockLeft < RangeBytes(blocks[blockIndex - 1])
    }

    function GetBlocksSize(): nat {
      TotalBlocks(blocks) * BLOCK_SIZE
    }

    /** Exactly when `IsWriteDone` recognises that every byte has been written: an empty last
        range is only entered by a further `Write`, so with one the writer never reports done. */
    lemma DoneWhenFull()
      requires Valid()
      ensures IsWriteDone() ==> totalWritten == GetBlocksSize()
      ensures Settled() && totalWritten == GetBlocksSize() ==>
                (IsWriteDone() <==> blocks == [] || 0 < RangeBytes(blocks[|blocks| - 1]))
    {
      if blockIndex == |blocks| {
        assert blocks[..blockIndex] == blocks;
      } else if blockIndex < |blocks| {
        assert blocks == blocks[..|blocks|];
        AddrsPrefix(blocks, |blocks| - 1);
        AddrsOfPrefix(blocks[..|blocks| - 1], blockIndex);
        assert blocks[..|blocks| - 1][..blockIndex] == blocks[..blockIndex];
      }
    }

    /** Move to the next range and seek to its start. */
    method NextRange()
      requires Valid() && currentBlockLeft == 0 && blockIndex < |blocks|
      modifies this`blockIndex, this`currentBlockLeft, disk`pos
      ensures Valid() && blockIndex == old(blockIndex) + 1
    {
      AddrsPrefix(blocks, blockIndex);
      AddrsOfPrefix(blocks, blockIndex + 1);
      disk.Seek(blocks[blockIndex].first * BLOCK_SIZE);
      currentBlockLeft := RangeBytes(blocks[blockIndex]);
      blockIndex := blockIndex + 1;
    }

    /** Write a piece that fits in what is left of the current range. */
    method WritePiece(piece: seq<byte>) returns (ok: bool)
      requires Valid() && 0 < |piece| <= currentBlockLeft
      modifies this`currentBlockLeft, this`totalWritten, this`accepted, disk
      ensures ok ==> Valid() && accepted == old(accepted) + piece
      ensures ok ==> currentBlockLeft == old(currentBlockLeft) - |piece|
      ensures !ok ==> old(disk.faults(disk.ops)).Fail? || |disk.content| < old(disk.pos) + |piece|
      ensures SameOutside(old(disk.content), disk.content, addrs)
    {
      ghost var was, here := disk.content, Span(disk.pos, |piece|);
      AddrsHere(blocks, blockIndex, totalWritten, currentBlockLeft, |piece|);
      ok := disk.WriteFully(piece);
      SameOutsidePart(was, disk.content, addrs, totalWritten, here);
      if ok {
        ScatterConcat(image, addrs, accepted, here, piece);
        accepted := accepted + piece;
        currentBlockLeft := currentBlockLeft - |piece|;
        totalWritten := totalWritten + |piece|;
      }
    }

    /** As much of `rest` as the current range takes. */
    method WriteSome(rest: seq<byte>) returns (ok: bool, n: nat)
      requires Valid() && rest != [] && 0 < currentBlockLeft
      modifies this`currentBlockLeft, this`totalWritten, this`accepted, disk
      ensures ok ==> Valid() && Settled() && 0 < n <= |rest| && accepted == old(accepted) + rest[..n]
      ensures Sound(disk) && InBounds(addrs, |image|) ==> ok
      ensures SameOutside(old(disk.content), disk.content, addrs)
    {
      n := |rest|;
      if currentBlockLeft < n {
        n := currentBlockLeft;
      }
      HereInBounds(blocks, blockIndex, totalWritten, currentBlockLeft, n, |image|);
      ok := WritePiece(rest[..n]);
    }

    method Write(data: seq<byte>) returns (ok: bool)
      requires Valid() && Settled()
      modifies this, disk
      ensures ok ==> Valid() && Settled() && accepted == old(accepted) + data
      ensures old(IsWriteDone()) ==> !ok
      ensures Sound(disk) && InBounds(addrs, |image|) && !old(IsWriteDone()) && |old(accepted) + data| <= |addrs| ==> ok
      ensures SameOutside(old(disk.content), disk.content, addrs)
    {
      if IsWriteDone() {
        return false;
      }
      var rest := data;
      while rest != []
        invariant Valid() && (rest == [] ==> Settled())
        invariant accepted + rest == old(accepted) + data
        invariant SameOutside(old(disk.content), disk.content, addrs)
        decreases |rest|, |blocks| - blockIndex
      {
        if currentBlockLeft == 0 {
          if blockIndex >= |blocks| {
            DoneWhenFull();
            return false;
          }
          NextRange();
        }
        if 0 < currentBlockLeft {
          ghost var was, had := disk.content, accepted;
          var whole, n := WriteSome(rest);
          SameOutsideTrans(old(disk.content), was, disk.content, addrs);
          if !whole {
            return false;
          }
          Regroup(had, rest, n);
          rest := rest[n..];
        }
      }
      ok := true;
    }
  }

  /** Every write on the device succeeds if it stays on the device. */
  ghost predicate Sound(disk: BlockDevice) {
    forall k :: disk.faults(k).Fine?
  }

  ghost function Flatten(chunks: seq<seq<byte>>): seq<byte> {
    if chunks == [] then [] else Flatten(chunks[..|chunks| - 1]) + chunks[|chunks| - 1]
  }

  /** What a patch or an unpacker does with a writer: hand it a stream in pieces. The image it
      leaves depends on the stream alone, never on where the stream was cut. */
  method WriteChunks(disk: BlockDevice, blocks: seq<BlockPair>, chunks: seq<seq<byte>>) returns (ok: bool)
    requires forall i :: 0 <= i < |chunks| ==> chunks[i] != []
    modifies disk
    ensures SameOutside(old(disk.content), disk.content, Addrs(blocks))
    ensures ok ==> |Flatten(chunks)| <= |Addrs(blocks)|
    ensures ok ==> disk.content == Scatter(old(disk.content), Addrs(blocks), Flatten(chunks))
    ensures Sound(disk) && InBounds(Addrs(blocks), |disk.content|) && |Flatten(chunks)| <= |Addrs(blocks)| ==> ok
  {
    var writer := new BlockWriter(disk, blocks);
    ghost var image := disk.content;
    var i := 0;
    while i < |chunks|
      invariant 0 <= i <= |chunks| && writer.Valid() && writer.Settled() && writer.image == image
      invariant writer.disk == disk && writer.blocks == blocks && fresh(writer)
      invariant writer.accepted == Flatten(chunks[..i])
      invariant SameOutside(image, disk.content, Addrs(blocks))
    {
      assert chunks[..i + 1][..i] == chunks[..i];
      FlattenPrefix(chunks, i + 1);
      writer.DoneWhenFull();
      ghost var was := disk.content;
      ok := writer.Write(chunks[i]);
      SameOutsideTrans(image, was, disk.content, Addrs(blocks));
      if !ok {
        return;
      }
      i := i + 1;
    }
    assert chunks[..i] == chunks;
    ok := true;
  }

  lemma {:induction false} FlattenPrefix(chunks: seq<seq<byte>>, i: nat)
    requires i <= |chunks|
    ensures |Flatten(chunks[..i])| <= |Flatten(chunks)|
    decreases |chunks| - i
  {
    if i == |chunks| {
      assert chunks[..i] == chunks;
    } else {
      FlattenPrefix(chunks, i + 1);
      assert chunks[..i + 1][..i] == chunks[..i];
    }
  }

  lemma Regroup(before: seq<byte>, rest: seq<byte>, n: nat)
    requires n <= |rest|
    ensures before + rest[..n] + rest[n..] == before + rest
  {
    assert rest[..n] + rest[n..] == rest;
  }

  /** The next addresses to cover are those at the file position. */
  lemma AddrsHere(blocks: seq<BlockPair>, index: nat, done: nat, left: nat, n: nat)
    requires 0 < index <= |blocks| && n <= left <= RangeBytes(blocks[index - 1])
    requires done + left == |Addrs(blocks[..index])|
    ensures done + left <= |Addrs(blocks)|
    ensures Addrs(blocks)[done..done + n] == Span(blocks[index - 1].second * BLOCK_SIZE - left, n)
  {
    AddrsPrefix(blocks, index - 1);
    AddrsOfPrefix(blocks, index);
    assert Addrs(blocks)[done..done + n] == Addrs(blocks[..index])[done..done + n];
  }

  lemma HereInBounds(blocks: seq<BlockPair>, index: nat, done: nat, left: nat, n: nat, size: nat)
    requires 0 < index <= |blocks| && 0 < n <= left <= RangeBytes(blocks[index - 1])
    requires done + left == |Addrs(blocks[..index])|
    ensures InBounds(Addrs(blocks), size) ==> blocks[index - 1].second * BLOCK_SIZE - left + n <= size
  {
    AddrsHere(blocks, index, done, left, n);
    assert Addrs(blocks)[done + n - 1] == Addrs(blocks)[done..done + n][n - 1];
  }
}
