/** services/applypatch/block_set.cpp: range reads, writes and comparison, the overlap test, and
    the in-place scatter of `MoveBlock`. */
module BlockSets {
  import opened Ranges
  import opened Device

  // ---------------------------------------------------------------- overlap

  predicate Meet(r: BlockPair, s: BlockPair) {
    !(s.first >= r.second || r.first >= s.second)
  }

  method IsTwoBlocksOverlap(source: seq<BlockPair>, target: seq<BlockPair>) returns (overlap: bool)
    ensures !overlap ==> Apart(Addrs(source), Addrs(target))
    ensures overlap && NoneEmpty(source) && NoneEmpty(target) ==> !Apart(Addrs(source), Addrs(target))
    ensures overlap == Overlapping(source, target)
  {
    for i := 0 to |source|
      invariant forall x, y :: 0 <= x < i && 0 <= y < |target| ==> !Meet(source[x], target[y])
    {
      for j := 0 to |target|
        invariant forall y :: 0 <= y < j ==> !Meet(source[i], target[y])
      {
        if !(target[j].first >= source[i].second || source[i].first >= target[j].second) {
          assert Meet(source[i], target[j]);
          if NoneEmpty(source) && NoneEmpty(target) {
            MeetShares(source, target, i, j);
          }
          return true;
        }
      }
    }
    NoMeetApart(source, target);
    return false;
  }

  ghost predicate Overlapping(source: seq<BlockPair>, target: seq<BlockPair>) {
    exists x, y :: 0 <= x < |source| && 0 <= y < |target| && Meet(source[x], target[y])
  }

  ghost predicate NoneEmpty(bs: seq<BlockPair>) {
    forall i :: 0 <= i < |bs| ==> bs[i].first < bs[i].second
  }

  /** Which range an address of the list falls in. */
  lemma {:induction false} AddrInSome(bs: seq<BlockPair>, k: nat) returns (i: nat)
    requires k < |Addrs(bs)|
    ensures i < |bs| && Addrs(bs)[k] in RangeAddrs(bs[i])
    decreases |bs|
  {
    var n := |bs| - 1;
    if k < |Addrs(bs[..n])| {
      i := AddrInSome(bs[..n], k);
    } else {
      i := n;
      assert Addrs(bs)[k] == RangeAddrs(bs[n])[k - |Addrs(bs[..n])|];
    }
  }

  lemma RangeInAddrs(bs: seq<BlockPair>, i: nat, a: nat)
    requires i < |bs| && a in RangeAddrs(bs[i])
    ensures a in Addrs(bs)
  {
    AddrsPrefix(bs, i);
    AddrsOfPrefix(bs, i + 1);
    assert a in Addrs(bs[..i + 1]);
  }

  lemma MeetShares(source: seq<BlockPair>, target: seq<BlockPair>, i: nat, j: nat)
    requires i < |source| && j < |target| && Meet(source[i], target[j])
    requires NoneEmpty(source) && NoneEmpty(target)
    ensures !Apart(Addrs(source), Addrs(target))
  {
    var b := if source[i].first < target[j].first then target[j].first else source[i].first;
    RangeInAddrs(source, i, b * BLOCK_SIZE);
    RangeInAddrs(target, j, b * BLOCK_SIZE);
  }

  lemma NoMeetApart(source: seq<BlockPair>, target: seq<BlockPair>)
    requires !Overlapping(source, target)
    ensures Apart(Addrs(source), Addrs(target))
  {
    forall j, k | 0 <= j < |Addrs(source)| && 0 <= k < |Addrs(target)|
      ensures Addrs(source)[j] != Addrs(target)[k]
    {
      var x := AddrInSome(source, j);
      var y := AddrInSome(target, k);
      assert !Meet(source[x], target[y]);
    }
  }

  // ---------------------------------------------------------------- reading and writing

  function Min(a: nat, b: nat): nat {
    if a < b then a else b
  }

  /** The first bytes the ranges hold, read into the front of a buffer. */
  ghost function ReadInto(mem: seq<byte>, addrs: seq<nat>, buffer: seq<byte>): (r: seq<byte>)
    ensures |r| == |buffer|
  {
    seq(|buffer|, k requires 0 <= k < |buffer| =>
      if k < |addrs| && addrs[k] < |mem| then mem[addrs[k]] else buffer[k])
  }

  /** One range: seek, then read `size` bytes to position `pos` of the buffer. */
  method ReadRange(disk: BlockDevice, first: nat, buffer: array<byte>, pos: nat, size: nat) returns (ok: bool)
    requires pos + size <= buffer.Length
    modifies disk`pos, buffer
    ensures ok <==> size == 0 || first + size <= |disk.content|
    ensures ok && 0 < size ==>
              buffer[..] == old(buffer[..pos]) + disk.content[first..first + size] + old(buffer[pos + size..])
    ensures size == 0 ==> buffer[..] == old(buffer[..])
  {
    disk.Seek(first);
    var data;
    ok, data := disk.ReadFully(size);
    if ok {
      forall k | 0 <= k < size {
        buffer[pos + k] := data[k];
      }
    }
  }

  lemma NothingRead(mem: seq<byte>, was: seq<byte>)
    ensures Addrs([]) == [] && ReadInto(mem, Addrs([]), was) == was
  {
  }

  lemma ReadIntoMore(mem: seq<byte>, addrs: seq<nat>, first: nat, n: nat, was: seq<byte>, pos: nat, size: nat)
    requires pos == Min(|addrs|, |was|) && size == Min(|was| - pos, n)
    ensures pos + size == Min(|addrs + Span(first, n)|, |was|)
    ensures var got := ReadInto(mem, addrs, was);
      size == 0 ==> ReadInto(mem, addrs + Span(first, n), was) == got
    ensures var got := ReadInto(mem, addrs, was);
      first + size <= |mem| ==>
        ReadInto(mem, addrs + Span(first, n), was) == got[..pos] + mem[first..first + size] + got[pos + size..]
  {
  }

  lemma RangeFits(blocks: seq<BlockPair>, i: nat, size: nat)
    requires i < |blocks|
    ensures InBounds(Addrs(blocks), size) ==> RangeBytes(blocks[i]) == 0 || blocks[i].second * BLOCK_SIZE <= size
  {
    if InBounds(Addrs(blocks), size) && 0 < RangeBytes(blocks[i]) {
      RangeInAddrs(blocks, i, blocks[i].second * BLOCK_SIZE - 1);
    }
  }

  /** Returns the number of bytes read, 0 on failure. */
  method ReadDataFromBlock(disk: BlockDevice, blocks: seq<BlockPair>, buffer: array<byte>) returns (pos: nat)
    modifies disk`pos, buffer
    ensures pos == 0 || pos == Min(|Addrs(blocks)|, buffer.Length)
    ensures 0 < pos ==> buffer[..] == ReadInto(disk.content, Addrs(blocks), old(buffer[..]))
    ensures InBounds(Addrs(blocks), |disk.content|) ==> pos == Min(|Addrs(blocks)|, buffer.Length)
  {
    hide ReadInto, Addrs, InBounds;
    pos := 0;
    ghost var was := buffer[..];
    assert blocks[..0] == [];
    NothingRead(disk.content, was);
    for i := 0 to |blocks|
      invariant pos == Min(|Addrs(blocks[..i])|, |was|)
      invariant buffer[..] == ReadInto(disk.content, Addrs(blocks[..i]), was)
    {
      var size := Min(buffer.Length - pos, RangeBytes(blocks[i]));
      var whole := ReadRange(disk, blocks[i].first * BLOCK_SIZE, buffer, pos, size);
      if !whole {
        RangeFits(blocks, i, |disk.content|);
        return 0;
      }
      AddrsPrefix(blocks, i);
      ReadIntoMore(disk.content, Addrs(blocks[..i]), blocks[i].first * BLOCK_SIZE, RangeBytes(blocks[i]), was, pos,
          size);
      pos := pos + size;
    }
    assert blocks[..|blocks|] == blocks;
  }

  /** The next range of a write in progress. */
  lemma ScatterRange(image: seq<byte>, blocks: seq<BlockPair>, i: nat, done: seq<byte>, here: seq<nat>,
      piece: seq<byte>)
    requires i < |blocks| && here == RangeAddrs(blocks[i]) && |done| == |Addrs(blocks[..i])| && |piece| == |here|
    ensures |done + piece| == |Addrs(blocks[..i + 1])| <= |Addrs(blocks)| && |done| <= |Addrs(blocks)|
    ensures Scatter(Scatter(image, Addrs(blocks), done), here, piece) == Scatter(image, Addrs(blocks), done + piece)
    ensures Addrs(blocks)[|done|..|done| + |here|] == here
  {
    AddrsPrefix(blocks, i);
    AddrsOfPrefix(blocks, i + 1);
    assert Addrs(blocks)[|done|..|done| + |here|] == Addrs(blocks[..i + 1])[|done|..];
    ScatterConcat(image, Addrs(blocks), done, here, piece);
  }

  /** Returns the number of bytes written, 0 on failure. */
  method WriteDataToBlock(disk: BlockDevice, blocks: seq<BlockPair>, buffer: array<byte>) returns (pos: nat)
    requires |Addrs(blocks)| <= buffer.Length
    modifies disk
    ensures pos == 0 || pos == |Addrs(blocks)|
    ensures 0 < pos ==> disk.content == Scatter(old(disk.content), Addrs(blocks), buffer[..pos])
    ensures SameOutside(old(disk.content), disk.content, Addrs(blocks))
    ensures (forall k :: disk.faults(k).Fine?) && InBounds(Addrs(blocks), |disk.content|) ==> pos == |Addrs(blocks)|
  {
    hide Scatter, SameOutside, InBounds, Addrs;
    pos := 0;
    ghost var image := disk.content;
    ScatterNothing(image, Addrs(blocks), buffer[..0]);
    assert blocks[..0] == [];
    NoAddrs();
    for i := 0 to |blocks|
      invariant pos == |Addrs(blocks[..i])| <= |Addrs(blocks)|
      invariant disk.content == Scatter(image, Addrs(blocks), buffer[..pos])
      invariant SameOutside(image, disk.content, Addrs(blocks))
    {
      var writeSize := RangeBytes(blocks[i]);
      ghost var was := disk.content;
      AddrsPrefix(blocks, i);
      AddrsOfPrefix(blocks, i + 1);
      ScatterRange(image, blocks, i, buffer[..pos], RangeAddrs(blocks[i]), buffer[pos..pos + writeSize]);
      RangeFits(blocks, i, |disk.content|);
      disk.Seek(blocks[i].first * BLOCK_SIZE);
      var whole := disk.WriteFully(buffer[pos..pos + writeSize]);
      SameOutsidePart(was, disk.content, Addrs(blocks), pos, RangeAddrs(blocks[i]));
      SameOutsideTrans(image, was, disk.content, Addrs(blocks));
      if !whole {
        return 0;
      }
      assert buffer[..pos] + buffer[pos..pos + writeSize] == buffer[..pos + writeSize];
      pos := pos + writeSize;
    }
    assert blocks[..|blocks|] == blocks;
  }

  function Zeros(n: nat): (s: seq<byte>)
    ensures |s| == n && forall k :: 0 <= k < n ==> s[k] == 0
  {
    seq(n, _ => 0)
  }

  /** One range of `WriteZeroToBlock`: a block of zeros at a time. */
  method WriteZeroRange(disk: BlockDevice, range: BlockPair) returns (ok: bool)
    modifies disk
    ensures SameOutside(old(disk.content), disk.content, RangeAddrs(range))
    ensures ok ==> disk.content == Scatter(old(disk.content), RangeAddrs(range), Zeros(RangeBytes(range)))
    ensures (forall k :: disk.faults(k).Fine?) && range.second * BLOCK_SIZE <= |disk.content| ==> ok
  {
    hide Scatter, SameOutside;
    disk.Seek(range.first * BLOCK_SIZE);
    ghost var image := disk.content;
    ScatterNothing(image, RangeAddrs(range), Zeros(0));
    for b := range.first to range.second
      invariant disk.pos == b * BLOCK_SIZE
      invariant SameOutside(image, disk.content, RangeAddrs(range))
      invariant disk.content == Scatter(image, RangeAddrs(range), Zeros((b - range.first) * BLOCK_SIZE))
    {
      ghost var was, done := disk.content, (b - range.first) * BLOCK_SIZE;
      ghost var here := Span(b * BLOCK_SIZE, BLOCK_SIZE);
      assert RangeAddrs(range)[done..done + BLOCK_SIZE] == here;
      ok := disk.WriteFully(Zeros(BLOCK_SIZE));
      SameOutsidePart(was, disk.content, RangeAddrs(range), done, here);
      SameOutsideTrans(image, was, disk.content, RangeAddrs(range));
      if !ok {
        return;
      }
      ScatterConcat(image, RangeAddrs(range), Zeros(done), here, Zeros(BLOCK_SIZE));
      assert Zeros(done) + Zeros(BLOCK_SIZE) == Zeros(done + BLOCK_SIZE);
    }
    ok := true;
  }

  method WriteZeroToBlock(disk: BlockDevice, blocks: seq<BlockPair>) returns (ok: bool)
    modifies disk
    ensures SameOutside(old(disk.content), disk.content, Addrs(blocks))
    ensures ok ==> disk.content == Scatter(old(disk.content), Addrs(blocks), Zeros(|Addrs(blocks)|))
    ensures (forall k :: disk.faults(k).Fine?) && InBounds(Addrs(blocks), |disk.content|) ==> ok
  {
    hide Scatter, SameOutside, InBounds, Addrs;
    ghost var image := disk.content;
    ScatterNothing(image, Addrs(blocks), Zeros(0));
    assert blocks[..0] == [];
    NoAddrs();
    for i := 0 to |blocks|
      invariant |Addrs(blocks[..i])| <= |Addrs(blocks)|
      invariant SameOutside(image, disk.content, Addrs(blocks))
      invariant disk.content == Scatter(image, Addrs(blocks), Zeros(|Addrs(blocks[..i])|))
    {
      ghost var was, done := disk.content, |Addrs(blocks[..i])|;
      ScatterRange(image, blocks, i, Zeros(done), RangeAddrs(blocks[i]), Zeros(RangeBytes(blocks[i])));
      RangeFits(blocks, i, |disk.content|);
      if blocks[i].first < blocks[i].second {
        ok := WriteZeroRange(disk, blocks[i]);
        SameOutsidePart(was, disk.content, Addrs(blocks), done, RangeAddrs(blocks[i]));
        SameOutsideTrans(image, was, disk.content, Addrs(blocks));
        if !ok {
          return;
        }
      }
      assert Zeros(done) + Zeros(RangeBytes(blocks[i])) == Zeros(done + RangeBytes(blocks[i]));
    }
    assert blocks[..|blocks|] == blocks;
    ok := true;
  }

  // ---------------------------------------------------------------- comparison

  const MAX_COMPARE: nat := 128 * 1024

  /** Compares block by block, as memcmp on each. */
  method CompareBlocks(lhs: seq<byte>, rhs: seq<byte>, size: nat) returns (same: bool)
    requires size <= |lhs| && size <= |rhs|
    ensures same <==> lhs[..size] == rhs[..size]
  {
    var offset := 0;
    while offset < size
      invariant 0 <= offset <= size
      invariant lhs[..offset] == rhs[..offset]
    {
      var currSize := Min(size - offset, BLOCK_SIZE);
      if lhs[offset..offset + currSize] != rhs[offset..offset + currSize] {
        assert lhs[..size][offset..offset + currSize] == lhs[offset..offset + currSize];
        assert rhs[..size][offset..offset + currSize] == rhs[offset..offset + currSize];
        return false;
      }
      assert lhs[..offset + currSize] == lhs[..offset] + lhs[offset..offset + currSize];
      assert rhs[..offset + currSize] == rhs[..offset] + rhs[offset..offset + currSize];
      offset := offset + currSize;
    }
    same := true;
  }

  /** The device holds `want` at `addrs`. */
  ghost predicate Holds(mem: seq<byte>, addrs: seq<nat>, want: seq<byte>) {
    |addrs| == |want| && forall k :: 0 <= k < |addrs| ==> addrs[k] < |mem| && mem[addrs[k]] == want[k]
  }

  ghost predicate HoldsAt(mem: seq<byte>, first: nat, want: seq<byte>, k: nat)
    requires k < |want|
  {
    first + k < |mem| && mem[first + k] == want[k]
  }

  lemma HoldsSpan(mem: seq<byte>, first: nat, want: seq<byte>)
    ensures Holds(mem, Span(first, |want|), want) <==> forall k :: 0 <= k < |want| ==> HoldsAt(mem, first, want, k)
  {
    var addrs := Span(first, |want|);
    if Holds(mem, addrs, want) {
      forall k | 0 <= k < |want| ensures HoldsAt(mem, first, want, k) {
        assert addrs[k] == first + k;
      }
    }
    if forall k :: 0 <= k < |want| ==> HoldsAt(mem, first, want, k) {
      forall k | 0 <= k < |want| ensures addrs[k] < |mem| && mem[addrs[k]] == want[k] {
        assert HoldsAt(mem, first, want, k);
      }
    }
  }

  lemma HoldsPrefix(mem: seq<byte>, blocks: seq<BlockPair>, i: nat, want: seq<byte>)
    requires i < |blocks| && |want| == |Addrs(blocks)|
    ensures |Addrs(blocks[..i + 1])| == |Addrs(blocks[..i])| + RangeBytes(blocks[i]) <= |want|
    ensures Holds(mem, Addrs(blocks[..i + 1]), want[..|Addrs(blocks[..i + 1])|]) <==>
            && Holds(mem, Addrs(blocks[..i]), want[..|Addrs(blocks[..i])|])
            && Holds(mem, RangeAddrs(blocks[i]), want[|Addrs(blocks[..i])|..|Addrs(blocks[..i + 1])|])
  {
    AddrsPrefix(blocks, i);
    AddrsOfPrefix(blocks, i + 1);
    var a, b := Addrs(blocks[..i]), RangeAddrs(blocks[i]);
    HoldsConcat(mem, a, b, want[..|a| + |b|]);
    assert want[..|a| + |b|][..|a|] == want[..|a|];
    assert want[..|a| + |b|][|a|..] == want[|a|..|a| + |b|];
  }

  lemma HoldsConcat(mem: seq<byte>, a: seq<nat>, b: seq<nat>, want: seq<byte>)
    requires |want| == |a| + |b|
    ensures Holds(mem, a + b, want) <==> Holds(mem, a, want[..|a|]) && Holds(mem, b, want[|a|..])
  {
    if Holds(mem, a + b, want) {
      forall k | 0 <= k < |a| ensures a[k] < |mem| && mem[a[k]] == want[k] {
        assert (a + b)[k] == a[k];
      }
      forall k | 0 <= k < |b| ensures b[k] < |mem| && mem[b[k]] == want[|a| + k] {
        assert (a + b)[|a| + k] == b[k];
      }
    }
  }

  /** One range, in pieces of at most 128 KiB. */
  method CompareRange(disk: BlockDevice, first: nat, want: seq<byte>, bufferSize: nat) returns (same: bool)
    requires 0 < bufferSize || want == []
    modifies disk`pos
    ensures same <==> Holds(disk.content, Span(first, |want|), want)
  {
    HoldsSpan(disk.content, first, want);
    disk.Seek(first);
    var done := 0;
    while done < |want|
      invariant 0 <= done <= |want| && disk.pos == first + done
      invariant forall k :: 0 <= k < done ==> HoldsAt(disk.content, first, want, k)
    {
      var readSize := Min(|want| - done, bufferSize);
      same := ComparePiece(disk, first, want, done, readSize);
      if !same {
        return;
      }
      done := done + readSize;
    }
    same := true;
  }

  method ComparePiece(disk: BlockDevice, first: nat, want: seq<byte>, done: nat, size: nat) returns (same: bool)
    requires 0 < size && done + size <= |want| && disk.pos == first + done
    modifies disk`pos
    ensures same ==> disk.pos == first + done + size
    ensures same <==> forall k :: done <= k < done + size ==> HoldsAt(disk.content, first, want, k)
  {
    var whole, temp := disk.ReadFully(size);
    if !whole {
      assert !HoldsAt(disk.content, first, want, done + size - 1);
      return false;
    }
    same := CompareBlocks(temp, want[done..done + size], size);
    assert temp[..size] == temp && want[done..done + size][..size] == want[done..done + size];
    if !same {
      var k :| 0 <= k < size && temp[k] != want[done..done + size][k];
      assert !HoldsAt(disk.content, first, want, done + k);
    } else {
      forall k | done <= k < done + size ensures HoldsAt(disk.content, first, want, k) {
        assert temp[k - done] == want[done..done + size][k - done];
      }
    }
  }

  method CompareDataFromBlock(disk: BlockDevice, blocks: seq<BlockPair>, buffer: seq<byte>) returns (same: bool)
    modifies disk`pos
    ensures same <==> Holds(disk.content, Addrs(blocks), buffer)
  {
    var totalBytes := TotalBlocks(blocks) * BLOCK_SIZE;
    if totalBytes != |buffer| {
      return false;
    }
    var bufferSize := Min(totalBytes, MAX_COMPARE);
    var bufferPos := 0;
    for i := 0 to |blocks|
      invariant bufferPos == |Addrs(blocks[..i])| <= |buffer|
      invariant Holds(disk.content, Addrs(blocks[..i]), buffer[..bufferPos])
    {
      var blockBytes := RangeBytes(blocks[i]);
      HoldsPrefix(disk.content, blocks, i, buffer);
      var equal := CompareRange(disk, blocks[i].first * BLOCK_SIZE, buffer[bufferPos..bufferPos + blockBytes],
          bufferSize);
      bufferPos := bufferPos + blockBytes;
      if !equal {
        HoldsWhole(disk.content, blocks, i + 1, buffer);
        return false;
      }
    }
    assert blocks[..|blocks|] == blocks && buffer[..|buffer|] == buffer;
    same := true;
  }

  lemma HoldsWhole(mem: seq<byte>, blocks: seq<BlockPair>, i: nat, want: seq<byte>)
    requires i <= |blocks|
    ensures Holds(mem, Addrs(blocks), want) ==>
            |Addrs(blocks[..i])| <= |want| && Holds(mem, Addrs(blocks[..i]), want[..|Addrs(blocks[..i])|])
  {
    AddrsOfPrefix(blocks, i);
    if Holds(mem, Addrs(blocks), want) {
      forall k | 0 <= k < |Addrs(blocks[..i])|
        ensures Addrs(blocks[..i])[k] < |mem| && mem[Addrs(blocks[..i])[k]] == want[k]
      {
        assert Addrs(blocks[..i])[k] == Addrs(blocks)[k];
      }
    }
  }

  /** What a write leaves, a comparison accepts, provided no block is listed twice. */
  lemma CompareAfterWrite(image: seq<byte>, blocks: seq<BlockPair>, data: seq<byte>)
    requires |data| == |Addrs(blocks)| && InBounds(Addrs(blocks), |image|) && Unique(Addrs(blocks))
    ensures Holds(Scatter(image, Addrs(blocks), data), Addrs(blocks), data)
  {
    GatherAfterScatter(image, Addrs(blocks), data);
    forall k | 0 <= k < |data| ensures Scatter(image, Addrs(blocks), data)[Addrs(blocks)[k]] == data[k] {
      ScatterAt(image, Addrs(blocks), data, k);
    }
  }
}
