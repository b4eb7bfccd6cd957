/** Block ranges and what they address: the vocabulary shared by the block set, the block
    writer and the transfer engine. A range list is read as the list of byte addresses it
    visits, in order; reading is `Gather` along that list and writing is `Scatter`. */
module Ranges {

  /** H_BLOCK_SIZE */
  const BLOCK_SIZE: nat := 4096

  datatype RawPair = RawPair(first: nat, second: nat)

  /** A half-open range of block numbers. */
  type BlockPair = r: RawPair | r.first <= r.second witness RawPair(0, 0)

  function Span(lo: nat, n: nat): (s: seq<nat>)
    ensures |s| == n && forall k :: 0 <= k < n ==> s[k] == lo + k
    ensures forall a :: a in s <==> lo <= a < lo + n
  {
    var s := seq(n, k requires 0 <= k => lo + k);
    assert forall a | lo <= a < lo + n :: a in s by {
      forall a | lo <= a < lo + n ensures a in s {
        assert s[a - lo] == a;
      }
    }
    s
  }

  function RangeBytes(r: BlockPair): nat {
    (r.second - r.first) * BLOCK_SIZE
  }

  function RangeAddrs(r: BlockPair): seq<nat> {
    Span(r.first * BLOCK_SIZE, RangeBytes(r))
  }

  /** Every byte address the list visits, in the order in which it is visited. */
  function Addrs(bs: seq<BlockPair>): (s: seq<nat>)
    ensures |s| == TotalBlocks(bs) * BLOCK_SIZE
  {
    if bs == [] then [] else Addrs(bs[..|bs| - 1]) + RangeAddrs(bs[|bs| - 1])
  }

  function TotalBlocks(bs: seq<BlockPair>): nat {
    if bs == [] then 0 else TotalBlocks(bs[..|bs| - 1]) + (bs[|bs| - 1].second - bs[|bs| - 1].first)
  }

  lemma NoAddrs()
    ensures Addrs([]) == []
  {
  }

  lemma AddrsPrefix(bs: seq<BlockPair>, i: nat)
    requires i < |bs|
    ensures Addrs(bs[..i + 1]) == Addrs(bs[..i]) + RangeAddrs(bs[i])
    ensures TotalBlocks(bs[..i + 1]) == TotalBlocks(bs[..i]) + (bs[i].second - bs[i].first)
  {
    assert bs[..i + 1][..i] == bs[..i];
  }

  lemma {:induction false} AddrsOfPrefix(bs: seq<BlockPair>, i: nat)
    requires i <= |bs|
    ensures Addrs(bs[..i]) <= Addrs(bs)
    ensures TotalBlocks(bs[..i]) <= TotalBlocks(bs)
    decreases |bs| - i
  {
    if i == |bs| {
      assert bs[..i] == bs;
    } else {
      AddrsPrefix(bs, i);
      AddrsOfPrefix(bs, i + 1);
    }
  }

  ghost predicate InBounds(addrs: seq<nat>, n: nat) {
    forall k :: 0 <= k < |addrs| ==> addrs[k] < n
  }

  ghost predicate Unique(addrs: seq<nat>) {
    forall j, k :: 0 <= j < k < |addrs| ==> addrs[j] != addrs[k]
  }

  ghost predicate Apart(a: seq<nat>, b: seq<nat>) {
    forall j, k :: 0 <= j < |a| && 0 <= k < |b| ==> a[j] != b[k]
  }

  /** What a read along `addrs` returns. */
  ghost function Gather<T>(mem: seq<T>, addrs: seq<nat>): (s: seq<T>)
    requires InBounds(addrs, |mem|)
    ensures |s| == |addrs|
    ensures forall k :: 0 <= k < |addrs| ==> s[k] == mem[addrs[k]]
  {
    seq(|addrs|, k requires 0 <= k < |addrs| => mem[addrs[k]])
  }

  function Put<T>(mem: seq<T>, a: nat, x: T): (r: seq<T>)
    ensures |r| == |mem|
  {
    if a < |mem| then mem[a := x] else mem
  }

  /** What a write of `data` along the first addresses of `addrs` leaves; a later write wins
      over an earlier one. */
  ghost function Scatter<T>(mem: seq<T>, addrs: seq<nat>, data: seq<T>): (r: seq<T>)
    requires |data| <= |addrs|
    ensures |r| == |mem|
    decreases |data|
  {
    if data == [] then mem
    else
      var n := |data| - 1;
      Put(Scatter(mem, addrs, data[..n]), addrs[n], data[n])
  }

  lemma ScatterNothing<T>(mem: seq<T>, addrs: seq<nat>, data: seq<T>)
    requires data == []
    ensures Scatter(mem, addrs, data) == mem && SameOutside(mem, mem, addrs)
  {
  }

  lemma {:induction false} ScatterFrame<T>(mem: seq<T>, addrs: seq<nat>, data: seq<T>, a: nat)
    requires |data| <= |addrs| && a < |mem| && a !in addrs
    ensures Scatter(mem, addrs, data)[a] == mem[a]
    decreases |data|
  {
    if data != [] {
      var n := |data| - 1;
      assert addrs[n] in addrs;
      ScatterFrame(mem, addrs, data[..n], a);
    }
  }

  lemma {:induction false} ScatterAt<T>(mem: seq<T>, addrs: seq<nat>, data: seq<T>, k: nat)
    requires |data| <= |addrs| && InBounds(addrs, |mem|) && Unique(addrs)
    requires k < |data|
    ensures Scatter(mem, addrs, data)[addrs[k]] == data[k]
    decreases |data|
  {
    var n := |data| - 1;
    if k < n {
      ScatterAt(mem, addrs, data[..n], k);
      assert addrs[k] != addrs[n];
    }
  }

  /** Reading back what was written returns it. */
  lemma GatherAfterScatter<T>(mem: seq<T>, addrs: seq<nat>, data: seq<T>)
    requires |addrs| == |data| && InBounds(addrs, |mem|) && Unique(addrs)
    ensures Gather(Scatter(mem, addrs, data), addrs) == data
  {
    forall k | 0 <= k < |addrs| ensures Scatter(mem, addrs, data)[addrs[k]] == data[k] {
      ScatterAt(mem, addrs, data, k);
    }
  }

  /** Writing a stream in two pieces is writing it at once. */
  lemma {:induction false} ScatterConcat<T>(mem: seq<T>, addrs: seq<nat>, x: seq<T>, here: seq<nat>, y: seq<T>)
    requires |x| + |y| <= |addrs| && addrs[|x|..|x| + |y|] == here
    ensures Scatter(mem, addrs, x + y) == Scatter(Scatter(mem, addrs, x), here, y)
    decreases |y|
  {
    if y == [] {
      assert x + y == x;
    } else {
      var n := |y| - 1;
      assert addrs[|x| + n] == addrs[|x|..|x| + |y|][n];
      ScatterConcat(mem, addrs, x, here[..n], y[..n]);
      ScatterPrefix(Scatter(mem, addrs, x), here[..n], here, y[..n]);
      assert (x + y)[..|x| + n] == x + y[..n];
    }
  }

  /** Only the addresses that are reached matter. */
  lemma {:induction false} ScatterPrefix<T>(mem: seq<T>, a: seq<nat>, b: seq<nat>, data: seq<T>)
    requires |data| <= |a| && |data| <= |b| && a[..|data|] == b[..|data|]
    ensures Scatter(mem, a, data) == Scatter(mem, b, data)
    decreases |data|
  {
    if data != [] {
      var n := |data| - 1;
      assert a[..n] == a[..|data|][..n] && b[..n] == b[..|data|][..n];
      assert a[n] == a[..|data|][n] && b[n] == b[..|data|][n];
      ScatterPrefix(mem, a, b, data[..n]);
    }
  }

  /** A write along `addrs` may have changed nothing else. */
  ghost predicate SameOutside<T>(m1: seq<T>, m2: seq<T>, addrs: seq<nat>) {
    |m1| == |m2| && forall a :: 0 <= a < |m1| && a !in addrs ==> m1[a] == m2[a]
  }

  lemma SameOutsidePart<T>(m1: seq<T>, m2: seq<T>, addrs: seq<nat>, i: nat, part: seq<nat>)
    requires i + |part| <= |addrs| && addrs[i..i + |part|] == part
    requires SameOutside(m1, m2, part)
    ensures SameOutside(m1, m2, addrs)
  {
    forall a | 0 <= a < |m1| && a !in addrs ensures m1[a] == m2[a] {
      assert forall x :: x in part ==> x in addrs by {
        assert forall k :: 0 <= k < |part| ==> part[k] == addrs[i + k];
      }
    }
  }

  lemma SameOutsideTrans<T>(m1: seq<T>, m2: seq<T>, m3: seq<T>, addrs: seq<nat>)
    requires SameOutside(m1, m2, addrs) && SameOutside(m2, m3, addrs)
    ensures SameOutside(m1, m3, addrs)
  {
  }

  lemma SameOutsideScatter<T>(mem: seq<T>, addrs: seq<nat>, data: seq<T>)
    requires |data| <= |addrs|
    ensures SameOutside(mem, Scatter(mem, addrs, data), addrs)
  {
    forall a | 0 <= a < |mem| && a !in addrs ensures Scatter(mem, addrs, data)[a] == mem[a] {
      ScatterFrame(mem, addrs, data, a);
    }
  }
}
