/** `BlockSet::MoveBlock`: spread a packed buffer over the ranges of a location list, last range
    first. Target and source may be the same buffer, and then it is a move in place. */
module MoveBlocks {
  import opened Ranges
  import opened Device

  /** SECUREC_MEM_MAX_LEN: the most one memmove_s call takes. */
  const MAX_MOVE: nat := 0x7fff_ffff

  /** Every location lies in the target, and the packed bytes lie in the source. */
  ghost predicate Fits(locs: seq<BlockPair>, targetSize: nat, sourceSize: nat) {
    && (forall i :: 0 <= i < |locs| ==> locs[i].second * BLOCK_SIZE <= targetSize)
    && TotalBlocks(locs) * BLOCK_SIZE <= sourceSize
  }

  /** memmove: `n` bytes of `source` at `from` replace those of `target` at `to`. */
  function Moved<T>(target: seq<T>, to: nat, source: seq<T>, from: nat, n: nat): (r: seq<T>)
    requires to + n <= |target| && from + n <= |source|
    ensures |r| == |target|
  {
    target[..to] + source[from..from + n] + target[to + n..]
  }

  /** One range moved within a buffer, in forward pieces of at most MAX_MOVE. */
  function Pieces<T>(buffer: seq<T>, to: nat, from: nat, n: nat): (r: seq<T>)
    requires to + n <= |buffer| && from + n <= |buffer|
    ensures |r| == |buffer|
    decreases n
  {
    if n <= MAX_MOVE then Moved(buffer, to, buffer, from, n)
    else Pieces(Moved(buffer, to, buffer, from, MAX_MOVE), to + MAX_MOVE, from + MAX_MOVE, n - MAX_MOVE)
  }

  /** The whole move, in place. */
  ghost function MovedInPlace<T>(buffer: seq<T>, locs: seq<BlockPair>): (r: seq<T>)
    requires Fits(locs, |buffer|, |buffer|)
    ensures |r| == |buffer|
    decreases |locs|
  {
    if locs == [] then buffer
    else
      var n := |locs| - 1;
      var start := TotalBlocks(locs[..n]) * BLOCK_SIZE;
      MovedInPlace(Pieces(buffer, locs[n].first * BLOCK_SIZE, start, RangeBytes(locs[n])), locs[..n])
  }

  /** The whole move from another buffer. */
  ghost function MovedFrom<T>(target: seq<T>, locs: seq<BlockPair>, source: seq<T>): (r: seq<T>)
    requires Fits(locs, |target|, |source|)
    ensures |r| == |target|
    decreases |locs|
  {
    if locs == [] then target
    else
      var n := |locs| - 1;
      var start := TotalBlocks(locs[..n]) * BLOCK_SIZE;
      MovedFrom(Moved(target, locs[n].first * BLOCK_SIZE, source, start, RangeBytes(locs[n])), locs[..n], source)
  }

  method Memmove(target: array<byte>, to: nat, source: array<byte>, from: nat, n: nat)
    requires to + n <= target.Length && from + n <= source.Length
    modifies target
    ensures target[..] == Moved(old(target[..]), to, old(source[..]), from, n)
  {
    forall k | 0 <= k < n {
      target[to + k] := source[from + k];
    }
  }

  /** One range moved from another buffer is not affected by being cut in pieces. */
  function PiecesFrom<T>(target: seq<T>, to: nat, source: seq<T>, from: nat, n: nat): (r: seq<T>)
    requires to + n <= |target| && from + n <= |source|
    ensures r == Moved(target, to, source, from, n)
    decreases n
  {
    if n <= MAX_MOVE then Moved(target, to, source, from, n)
    else
      MovedFurther(target, to, source, from, MAX_MOVE, n - MAX_MOVE);
      PiecesFrom(Moved(target, to, source, from, MAX_MOVE), to + MAX_MOVE, source, from + MAX_MOVE, n - MAX_MOVE)
  }

  ghost function RangeMoved(target: array<byte>, to: nat, source: array<byte>, from: nat, n: nat): seq<byte>
    requires to + n <= target.Length && from + n <= source.Length
    reads target, source
  {
    if target == source then Pieces(target[..], to, from, n) else PiecesFrom(target[..], to, source[..], from, n)
  }

  /** The pieces of one range. */
  method MoveRange(target: array<byte>, to: nat, source: array<byte>, from: nat, n: nat)
    requires to + n <= target.Length && from + n <= source.Length
    modifies target
    ensures target[..] == old(RangeMoved(target, to, source, from, n))
  {
    hide Pieces, PiecesFrom, Moved;
    var remainSize: nat, td: nat, sd: nat := n, to, from;
    ghost var goal := RangeMoved(target, to, source, from, n);
    while remainSize > 0
      invariant td + remainSize == to + n && sd + remainSize == from + n
      invariant RangeMoved(target, td, source, sd, remainSize) == goal
    {
      var moveSize := if remainSize > MAX_MOVE then MAX_MOVE else remainSize;
      ghost var was, had := target[..], source[..];
      NextPiece(was, td, had, sd, remainSize, moveSize);
      Memmove(target, td, source, sd, moveSize);
      if target != source {
        assert source[..] == had;
      }
      remainSize, td, sd := remainSize - moveSize, td + moveSize, sd + moveSize;
    }
    NothingLeft(target[..], td, source[..], sd);
  }

  lemma NothingLeft<T>(target: seq<T>, to: nat, source: seq<T>, from: nat)
    requires to <= |target| && from <= |source|
    ensures PiecesFrom(target, to, source, from, 0) == target
    ensures target == source ==> Pieces(target, to, from, 0) == target
  {
  }

  lemma NextPiece<T>(target: seq<T>, to: nat, source: seq<T>, from: nat, n: nat, m: nat)
    requires to + n <= |target| && from + n <= |source| && m == if n > MAX_MOVE then MAX_MOVE else n
    ensures var moved := Moved(target, to, source, from, m);
      && PiecesFrom(target, to, source, from, n) == PiecesFrom(moved, to + m, source, from + m, n - m)
      && (target == source ==> Pieces(target, to, from, n) == Pieces(moved, to + m, from + m, n - m))
  {
    hide Moved;
    var moved := Moved(target, to, source, from, m);
    if n <= MAX_MOVE {
      NothingLeft(moved, to + m, source, from + m);
      if target == source {
        NothingLeft(moved, to + m, moved, from + m);
      }
    }
  }

  lemma MovedFurther<T>(target: seq<T>, to: nat, source: seq<T>, from: nat, n: nat, m: nat)
    requires to + n + m <= |target| && from + n + m <= |source|
    ensures Moved(Moved(target, to, source, from, n), to + n, source, from + n, m)
              == Moved(target, to, source, from, n + m)
  {
  }

  lemma NoRange<T>(target: seq<T>, source: seq<T>)
    ensures MovedInPlace(target, []) == target == MovedFrom(target, [], source)
  {
  }

  lemma LastRange<T>(target: seq<T>, locs: seq<BlockPair>, i: nat, source: seq<T>)
    requires i < |locs| && Fits(locs[..i + 1], |target|, |source|) && Fits(locs[..i], |target|, |source|)
    ensures var to, start := locs[i].first * BLOCK_SIZE, TotalBlocks(locs[..i]) * BLOCK_SIZE;
      && start + RangeBytes(locs[i]) == TotalBlocks(locs[..i + 1]) * BLOCK_SIZE
      && to + RangeBytes(locs[i]) <= |target|
      && (target == source ==>
            MovedInPlace(target, locs[..i + 1])
              == MovedInPlace(Pieces(target, to, start, RangeBytes(locs[i])), locs[..i]))
      && MovedFrom(target, locs[..i + 1], source)
           == MovedFrom(PiecesFrom(target, to, source, start, RangeBytes(locs[i])), locs[..i], source)
  {
    hide Pieces, PiecesFrom, Moved;
    AddrsPrefix(locs, i);
    assert locs[..i + 1][..i] == locs[..i] && locs[..i + 1][i] == locs[i];
  }

  method MoveBlock(target: array<byte>, locations: seq<BlockPair>, source: array<byte>)
    requires Fits(locations, target.Length, source.Length)
    modifies target
    ensures target == source ==> target[..] == MovedInPlace(old(target[..]), locations)
    ensures target != source ==> target[..] == MovedFrom(old(target[..]), locations, source[..])
  {
    hide MovedInPlace, MovedFrom, Pieces, PiecesFrom;
    var start: nat, it: nat := TotalBlocks(locations) * BLOCK_SIZE, |locations|;
    ghost var was := target[..];
    assert locations[..it] == locations;
    while it > 0
      invariant 0 <= it <= |locations| && start == TotalBlocks(locations[..it]) * BLOCK_SIZE <= source.Length
      invariant target == source ==> MovedInPlace(target[..], locations[..it]) == MovedInPlace(was, locations)
      invariant target != source ==>
                MovedFrom(target[..], locations[..it], source[..]) == MovedFrom(was, locations, source[..])
    {
      it := it - 1;
      AddrsPrefix(locations, it);
      LastRange(target[..], locations, it, source[..]);
      start := start - RangeBytes(locations[it]);
      MoveRange(target, locations[it].first * BLOCK_SIZE, source, start, RangeBytes(locations[it]));
    }
    NoRange(target[..], source[..]);
  }

  // ---------------------------------------------------------------- what the move achieves

  /** Ranges in increasing order, none overlapping another. */
  ghost predicate Ascending(locs: seq<BlockPair>) {
    forall i, j :: 0 <= i < j < |locs| ==> locs[i].second <= locs[j].first
  }

  /** `result` is `target` with the packed `source` spread over `addrs`. */
  ghost predicate Spread<T>(target: seq<T>, addrs: seq<nat>, source: seq<T>, result: seq<T>) {
    && |result| == |target| && |addrs| <= |source| && InBounds(addrs, |target|)
    && (forall k :: 0 <= k < |addrs| ==> result[addrs[k]] == source[k])
    && SameOutside(target, result, addrs)
  }

  lemma SpreadIsScatter<T>(target: seq<T>, addrs: seq<nat>, source: seq<T>, result: seq<T>)
    requires Unique(addrs) && Spread(target, addrs, source, result)
    ensures result == Scatter(target, addrs, source[..|addrs|])
  {
    var want := Scatter(target, addrs, source[..|addrs|]);
    SameOutsideScatter(target, addrs, source[..|addrs|]);
    forall a | 0 <= a < |target| ensures result[a] == want[a] {
      if a in addrs {
        var k :| 0 <= k < |addrs| && addrs[k] == a;
        ScatterAt(target, addrs, source[..|addrs|], k);
      }
    }
  }

  lemma FitsPrefix(locs: seq<BlockPair>, n: nat, m: nat)
    requires locs != [] && Fits(locs, n, m)
    ensures Fits(locs[..|locs| - 1], n, m)
    ensures TotalBlocks(locs[..|locs| - 1]) * BLOCK_SIZE + RangeBytes(locs[|locs| - 1]) <= m
  {
  }

  /** The last range has been put in place; the earlier ones follow. */
  lemma SpreadStep<T>(target: seq<T>, moved: seq<T>, before: seq<nat>, to: nat, n: nat, source: seq<T>, result: seq<T>)
    requires to + n <= |target| && |before| + n <= |source|
    requires moved == Moved(target, to, source, |before|, n)
    requires Spread(moved, before, source, result)
    requires Apart(before, Span(to, n))
    ensures Spread(target, before + Span(to, n), source, result)
  {
    var addrs := before + Span(to, n);
    forall k | 0 <= k < |addrs| ensures addrs[k] < |target| && result[addrs[k]] == source[k] {
      if |before| <= k {
        var a := to + (k - |before|);
        assert addrs[k] == Span(to, n)[k - |before|] == a;
        assert a !in before;
      }
    }
    forall a | 0 <= a < |target| && a !in addrs ensures target[a] == result[a] {
      assert a !in before && a !in Span(to, n) by {
        assert forall x :: x in before || x in Span(to, n) ==> x in addrs;
      }
    }
  }

  lemma UniqueParts(a: seq<nat>, b: seq<nat>)
    requires Unique(a + b)
    ensures Unique(a) && Apart(a, b)
  {
    forall j, k | 0 <= j < |a| && 0 <= k < |b| ensures a[j] != b[k] {
      assert (a + b)[j] == a[j] && (a + b)[|a| + k] == b[k];
    }
    forall j, k | 0 <= j < k < |a| ensures a[j] != a[k] {
      assert (a + b)[j] == a[j] && (a + b)[k] == a[k];
    }
  }

  /** From another buffer (a stash), the order of the ranges does not matter. */
  lemma {:induction false} MovedFromSpreads<T>(target: seq<T>, locs: seq<BlockPair>, source: seq<T>)
    requires Fits(locs, |target|, |source|) && Unique(Addrs(locs))
    ensures Spread(target, Addrs(locs), source, MovedFrom(target, locs, source))
    decreases |locs|
  {
    if locs != [] {
      var n := |locs| - 1;
      FitsPrefix(locs, |target|, |source|);
      UniqueParts(Addrs(locs[..n]), RangeAddrs(locs[n]));
      var to, size := locs[n].first * BLOCK_SIZE, RangeBytes(locs[n]);
      var moved := Moved(target, to, source, |Addrs(locs[..n])|, size);
      MovedFromSpreads(moved, locs[..n], source);
      SpreadStep(target, moved, Addrs(locs[..n]), to, size, source, MovedFrom(target, locs, source));
    }
  }

  /** Where the packed bytes of range `i` start. */
  function Start(locs: seq<BlockPair>, i: nat): nat
    requires i < |locs|
  {
    TotalBlocks(locs[..i]) * BLOCK_SIZE
  }

  /** Range `i` survives being moved in forward pieces: it is one piece, or does not move, or
      moves clear of itself. */
  ghost predicate Safe(locs: seq<BlockPair>, i: nat)
    requires i < |locs|
  {
    var to, from, n := locs[i].first * BLOCK_SIZE, Start(locs, i), RangeBytes(locs[i]);
    n <= MAX_MOVE || to == from || from + n <= to
  }

  lemma {:induction false} StartBelow(locs: seq<BlockPair>, i: nat)
    requires i < |locs| && Ascending(locs)
    ensures Start(locs, i) <= locs[i].first * BLOCK_SIZE
  {
    if 0 < i {
      AddrsPrefix(locs, i - 1);
      StartBelow(locs, i - 1);
    }
  }

  lemma {:induction false} PiecesSafe<T>(buffer: seq<T>, to: nat, from: nat, n: nat)
    requires to + n <= |buffer| && from <= to
    requires n <= MAX_MOVE || to == from || from + n <= to
    ensures Pieces(buffer, to, from, n) == Moved(buffer, to, buffer, from, n)
    decreases n
  {
    hide Moved;
    if MAX_MOVE < n {
      var moved := Moved(buffer, to, buffer, from, MAX_MOVE);
      PiecesSafe(moved, to + MAX_MOVE, from + MAX_MOVE, n - MAX_MOVE);
      if to == from {
        MovedSame(buffer, to, from, MAX_MOVE);
      }
      StillUnread(buffer, to, from, MAX_MOVE, n - MAX_MOVE);
      MovedFurther(buffer, to, buffer, from, MAX_MOVE, n - MAX_MOVE);
    }
  }

  lemma MovedSame<T>(buffer: seq<T>, to: nat, from: nat, m: nat)
    requires to + m <= |buffer| && from + m <= |buffer| && buffer[to..to + m] == buffer[from..from + m]
    ensures Moved(buffer, to, buffer, from, m) == buffer
  {
    assert buffer == buffer[..to] + buffer[to..to + m] + buffer[to + m..];
  }

  /** What the next pieces read is untouched by this one. */
  lemma StillUnread<T>(buffer: seq<T>, to: nat, from: nat, m: nat, n: nat)
    requires to + m + n <= |buffer| && (from == to || from + m + n <= to)
    ensures var moved := Moved(buffer, to, buffer, from, m);
            Moved(moved, to + m, moved, from + m, n) == Moved(moved, to + m, buffer, from + m, n)
  {
    var moved := Moved(buffer, to, buffer, from, m);
    assert moved[from + m..from + m + n] == buffer[from + m..from + m + n];
  }

  lemma {:induction false} AscendingUnique(locs: seq<BlockPair>)
    requires Ascending(locs)
    ensures Unique(Addrs(locs))
    ensures forall k :: 0 <= k < |Addrs(locs)| ==> Addrs(locs)[k] < locs[|locs| - 1].second * BLOCK_SIZE
    decreases |locs|
  {
    if locs != [] {
      var n := |locs| - 1;
      var before, last := Addrs(locs[..n]), RangeAddrs(locs[n]);
      AscendingUnique(locs[..n]);
      forall j, k | 0 <= j < k < |before + last| ensures (before + last)[j] != (before + last)[k] {
        if j < |before| <= k {
          assert locs[n - 1].second <= locs[n].first;
        }
      }
      forall k | 0 <= k < |before + last| ensures (before + last)[k] < locs[n].second * BLOCK_SIZE {
        if k < |before| {
          assert locs[n - 1].second <= locs[n].first;
        }
      }
    }
  }

  lemma {:induction false} MovedInPlaceSpreads<T>(buffer: seq<T>, locs: seq<BlockPair>)
    requires Fits(locs, |buffer|, |buffer|) && Ascending(locs)
    requires forall i :: 0 <= i < |locs| ==> Safe(locs, i)
    ensures Spread(buffer, Addrs(locs), buffer, MovedInPlace(buffer, locs))
    decreases |locs|
  {
    if locs != [] {
      var n := |locs| - 1;
      FitsPrefix(locs, |buffer|, |buffer|);
      AscendingUnique(locs);
      UniqueParts(Addrs(locs[..n]), RangeAddrs(locs[n]));
      var to, size, start := locs[n].first * BLOCK_SIZE, RangeBytes(locs[n]), Start(locs, n);
      StartBelow(locs, n);
      assert Safe(locs, n);
      PiecesSafe(buffer, to, start, size);
      var moved := Moved(buffer, to, buffer, start, size);
      assert forall i {:trigger Safe(locs[..n], i)} :: 0 <= i < n ==> Safe(locs[..n], i) by {
        forall i | 0 <= i < n ensures Safe(locs[..n], i) {
          assert Safe(locs, i) && locs[..n][..i] == locs[..i];
        }
      }
      MovedInPlaceSpreads(moved, locs[..n]);
      var result := MovedInPlace(moved, locs[..n]);
      forall k | 0 <= k < start ensures result[Addrs(locs[..n])[k]] == buffer[k] {
        assert moved[k] == buffer[k];
      }
      assert Spread(moved, Addrs(locs[..n]), buffer, result);
      SpreadStep(buffer, moved, Addrs(locs[..n]), to, size, buffer, result);
    }
  }

  /** A buffer of zeros with a single one at `q`. */
  function OneAt(size: nat, q: nat): (s: seq<byte>)
    ensures |s| == size && forall a :: 0 <= a < size ==> s[a] == if a == q then 1 else 0
  {
    seq(size, a => if a == q then 1 else 0)
  }

  /** Moving zeros onto zeros changes nothing. */
  lemma {:induction false} PiecesOfZeros(buffer: seq<byte>, to: nat, from: nat, n: nat)
    requires to + n <= |buffer| && from + n <= |buffer|
    requires forall a :: to <= a < to + n || from <= a < from + n ==> buffer[a] == 0
    ensures Pieces(buffer, to, from, n) == buffer
    decreases n
  {
    var m := if n <= MAX_MOVE then n else MAX_MOVE;
    assert buffer[to..to + m] == buffer[from..from + m];
    MovedSame(buffer, to, from, m);
    if MAX_MOVE < n {
      PiecesOfZeros(buffer, to + MAX_MOVE, from + MAX_MOVE, n - MAX_MOVE);
    }
  }

  lemma {:induction false} ZerosStay(buffer: seq<byte>, locs: seq<BlockPair>)
    requires Fits(locs, |buffer|, |buffer|)
    requires forall a :: 0 <= a < |buffer| ==> buffer[a] == 0
    ensures MovedInPlace(buffer, locs) == buffer
    decreases |locs|
  {
    if locs != [] {
      var n := |locs| - 1;
      FitsPrefix(locs, |buffer|, |buffer|);
      PiecesOfZeros(buffer, locs[n].first * BLOCK_SIZE, Start(locs, n), RangeBytes(locs[n]));
      ZerosStay(buffer, locs[..n]);
    }
  }

  /** The first piece of an unsafe range overwrites a byte that a later piece still has to read. */
  lemma OneIsLost(size: nat, to: nat, from: nat, n: nat, q: nat)
    requires to + n <= size && from < to < from + n && MAX_MOVE < n
    requires q == if to < from + MAX_MOVE then from + MAX_MOVE else to
    ensures Pieces(OneAt(size, q), to, from, n) == OneAt(size, size)
  {
    hide Moved, OneAt;
    PiecesOfZeros(OneAt(size, size), to + MAX_MOVE, from + MAX_MOVE, n - MAX_MOVE);
    OneOverwritten(size, to, from, MAX_MOVE, q);
  }

  lemma OneOverwritten(size: nat, to: nat, from: nat, m: nat, q: nat)
    requires to + m <= size && from + m <= size && to <= q < to + m && (q < from || from + m <= q)
    ensures Moved(OneAt(size, q), to, OneAt(size, q), from, m) == OneAt(size, size)
  {
  }

  /** The first byte of range `i` beyond its first piece that the first piece overwrites. */
  function LostAt(locs: seq<BlockPair>, i: nat): nat
    requires i < |locs|
  {
    var to, from := locs[i].first * BLOCK_SIZE, Start(locs, i);
    if to < from + MAX_MOVE then from + MAX_MOVE else to
  }

  /** With a one in an unsafe range, in-place moving ends with none: later ranges never see it,
      and the unsafe range destroys it. */
  lemma {:induction false} UnsafeLoses(locs: seq<BlockPair>, i: nat, size: nat, q: nat)
    requires i < |locs| && Fits(locs, size, size) && Ascending(locs) && !Safe(locs, i)
    requires q == LostAt(locs, i)
    ensures Start(locs, i) <= q < Start(locs, i) + RangeBytes(locs[i])
    ensures MovedInPlace(OneAt(size, q), locs) == OneAt(size, size)
    decreases |locs|
  {
    hide Pieces, Moved, OneAt, Addrs;
    var n := |locs| - 1;
    FitsPrefix(locs, size, size);
    StartBelow(locs, i);
    if i == n {
      UnsafeLast(locs, size, q);
    } else {
      assert locs[..n][..i] == locs[..i];
      UnsafeLoses(locs[..n], i, size, q);
      StartAfter(locs, i, n);
      PiecesOfZeros(OneAt(size, q), locs[n].first * BLOCK_SIZE, Start(locs, n), RangeBytes(locs[n]));
    }
  }

  lemma UnsafeLast(locs: seq<BlockPair>, size: nat, q: nat)
    requires locs != [] && Fits(locs, size, size) && Ascending(locs) && !Safe(locs, |locs| - 1)
    requires q == LostAt(locs, |locs| - 1)
    ensures MovedInPlace(OneAt(size, q), locs) == OneAt(size, size)
  {
    var n := |locs| - 1;
    FitsPrefix(locs, size, size);
    StartBelow(locs, n);
    OneIsLost(size, locs[n].first * BLOCK_SIZE, Start(locs, n), RangeBytes(locs[n]), q);
    ZerosStay(OneAt(size, size), locs[..n]);
  }

  lemma StartAfter(locs: seq<BlockPair>, i: nat, n: nat)
    requires i < n < |locs|
    ensures Start(locs, i) + RangeBytes(locs[i]) <= Start(locs, n)
  {
    AddrsPrefix(locs, i);
    AddrsOfPrefix(locs[..n], i + 1);
    assert locs[..n][..i + 1] == locs[..i + 1];
  }

  /** Moving in place is the out-of-place spread for every buffer exactly when every range is
      safe. A single piece of up to MAX_MOVE bytes always is. */
  lemma InPlaceExactly(locs: seq<BlockPair>, size: nat)
    requires Fits(locs, size, size) && Ascending(locs)
    ensures (forall i :: 0 <= i < |locs| ==> Safe(locs, i)) <==>
            (forall buffer: seq<byte> :: |buffer| == size ==>
              MovedInPlace(buffer, locs) == Scatter(buffer, Addrs(locs), buffer[..|Addrs(locs)|]))
  {
    AscendingUnique(locs);
    if forall i :: 0 <= i < |locs| ==> Safe(locs, i) {
      forall buffer: seq<byte> | |buffer| == size
        ensures MovedInPlace(buffer, locs) == Scatter(buffer, Addrs(locs), buffer[..|Addrs(locs)|])
      {
        MovedInPlaceSpreads(buffer, locs);
        SpreadIsScatter(buffer, Addrs(locs), buffer, MovedInPlace(buffer, locs));
      }
    } else {
      var i :| 0 <= i < |locs| && !Safe(locs, i);
      UnsafeDiffers(locs, i, size);
    }
  }

  lemma UnsafeDiffers(locs: seq<BlockPair>, i: nat, size: nat)
    requires i < |locs| && Fits(locs, size, size) && Ascending(locs) && !Safe(locs, i)
    ensures exists buffer: seq<byte> :: |buffer| == size &&
              MovedInPlace(buffer, locs) != Scatter(buffer, Addrs(locs), buffer[..|Addrs(locs)|])
  {
    var q, addrs := LostAt(locs, i), Addrs(locs);
    var buffer := OneAt(size, q);
    UnsafeLoses(locs, i, size, q);
    assert Start(locs, i) + RangeBytes(locs[i]) <= |addrs| by {
      AddrsPrefix(locs, i);
      AddrsOfPrefix(locs, i + 1);
    }
    SpreadKeepsOne(buffer, addrs, q) by {
      AscendingUnique(locs);
      FitsInBounds(locs, size);
    }
  }

  lemma SpreadKeepsOne(buffer: seq<byte>, addrs: seq<nat>, q: nat)
    requires q < |addrs| <= |buffer| && InBounds(addrs, |buffer|) && Unique(addrs) && buffer[q] == 1
    ensures Scatter(buffer, addrs, buffer[..|addrs|]) != OneAt(|buffer|, |buffer|)
  {
    ScatterAt(buffer, addrs, buffer[..|addrs|], q);
    assert Scatter(buffer, addrs, buffer[..|addrs|])[addrs[q]] == 1;
  }

  lemma {:induction false} FitsInBounds(locs: seq<BlockPair>, size: nat)
    requires Fits(locs, size, size)
    ensures InBounds(Addrs(locs), size)
    decreases |locs|
  {
    if locs != [] {
      FitsPrefix(locs, size, size);
      FitsInBounds(locs[..|locs| - 1], size);
    }
  }
}
