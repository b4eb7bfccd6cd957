/** Ptable::ChangeGpt and AdjustGpt (services/ptable_parse/ptable.cpp): one partition gets new
    bounds, and every later one moves up behind its predecessor. LBAs are uint64_t. */
module GptEdit {
  import opened Bits
  import opened Device
  import opened LittleEndian
  import opened GptHeaders

  datatype Entry = Entry(name: seq<byte>, first: nat, last: nat)

  /** The bounds that are asked for, already divided by the block size of the device. */
  datatype Request = Request(name: seq<byte>, first: nat, last: nat)

  /** LAST_PATITION_NAME */
  predicate IsUserData(name: seq<byte>) {
    name == USERDATA
  }

  // ---------------------------------------------------------------- on lists of entries

  function Next(pre: nat): nat {
    (pre + 1) % U64
  }

  /** `e` right behind LBA `pre`: of the same size, or, for USERDATA, up to the end of the device. */
  function Moved(e: Entry, pre: nat, end: nat): Entry {
    Entry(e.name, Next(pre), if IsUserData(e.name) then end else (U64 + e.last - e.first + pre + 1) % U64)
  }

  function Placed(t: seq<Entry>, pre: nat, end: nat): (r: seq<Entry>)
    requires AreLbas(t)
    ensures |r| == |t|
  {
    if t == [] then [] else [Moved(t[0], pre, end)] + Placed(t[1..], Moved(t[0], pre, end).last, end)
  }

  predicate AreLbas(t: seq<Entry>) {
    forall i :: 0 <= i < |t| ==> t[i].first < U64 && t[i].last < U64
  }

  /** Where placing stops: at a USERDATA that would start past the end of the device. */
  function StopsAt(t: seq<Entry>, pre: nat, end: nat): (n: nat)
    requires AreLbas(t)
    ensures n <= |t|
  {
    if t == [] || (IsUserData(t[0].name) && end < Next(pre)) then 0
    else 1 + StopsAt(t[1..], Moved(t[0], pre, end).last, end)
  }

  /** The first entry with the requested name. */
  function Find(t: seq<Entry>, name: seq<byte>): (k: nat)
    ensures k <= |t| && (k < |t| ==> t[k].name == name) && forall i :: 0 <= i < k ==> t[i].name != name
  {
    if t == [] || t[0].name == name then 0 else 1 + Find(t[1..], name)
  }

  function StartsRight(e: Request, end: nat): bool {
    IsUserData(e.name) ==> e.last == end
  }

  /** The edit succeeds if there is nothing to edit, or every USERDATA it meets has room. */
  predicate Succeeds(t: seq<Entry>, req: Request, end: nat)
    requires AreLbas(t)
  {
    var k := Find(t, req.name);
    k < |t| ==> StartsRight(req, end) && StopsAt(t[k + 1..], req.last, end) == |t| - k - 1
  }

  /** What the edit leaves, whether it succeeds or stops on the way. */
  function Changed(t: seq<Entry>, req: Request, end: nat): (r: seq<Entry>)
    requires AreLbas(t)
    ensures |r| == |t|
  {
    var k := Find(t, req.name);
    if k == |t| || !StartsRight(req, end) then t
    else t[..k] + [Entry(req.name, req.first, req.last)] + Partly(t[k + 1..], req.last, end)
  }

  /** Entries up to where placing stops are placed, the rest is as it was. */
  function Partly(t: seq<Entry>, pre: nat, end: nat): (r: seq<Entry>)
    requires AreLbas(t)
    ensures |r| == |t|
  {
    var n := StopsAt(t, pre, end);
    Placed(t, pre, end)[..n] + t[n..]
  }

  /** Entry `i` of `r` starts right behind its predecessor, with the size it has in `t`, or, for
      USERDATA, ends with the device. */
  predicate Cascades(t: seq<Entry>, r: seq<Entry>, i: nat, end: nat)
    requires 0 < i < |t| == |r|
  {
    && r[i].name == t[i].name && r[i].first == Next(r[i - 1].last)
    && if IsUserData(t[i].name) then r[i].first <= r[i].last == end else SameSize(r[i], t[i])
  }

  /** A successful edit leaves the entries before the modified one alone, gives it its bounds, and
      makes every later one follow its predecessor. */
  lemma ChangeCascades(t: seq<Entry>, req: Request, end: nat)
    requires AreLbas(t) && Succeeds(t, req, end) && Find(t, req.name) < |t|
    ensures var k, r := Find(t, req.name), Changed(t, req, end);
      && r[..k] == t[..k] && r[k] == Entry(req.name, req.first, req.last)
      && forall i :: k < i < |t| ==> Cascades(t, r, i, end)
  {
    hide *;
    ChangedBefore(t, req, end);
    forall i | Find(t, req.name) < i < |t| ensures Cascades(t, Changed(t, req, end), i, end) {
      CascadeAt(t, req, end, i);
    }
  }

  lemma CascadeAt(t: seq<Entry>, req: Request, end: nat, i: nat)
    requires AreLbas(t) && Succeeds(t, req, end) && Find(t, req.name) < i < |t|
    ensures Cascades(t, Changed(t, req, end), i, end)
  {
    hide Placed, StopsAt, Moved, Find, SameSize, Next, IsUserData, Changed, Partly, AreLbas;
    var k, r := Find(t, req.name), Changed(t, req, end);
    var rest, x := t[k + 1..], i - k - 1;
    LbasAfter(t, k + 1);
    PlacedChain(rest, req.last, end, x);
    if IsUserData(rest[x].name) {
      PlacedFits(rest, req.last, end, x);
    }
    ChangedAt(t, req, end, i);
    if x == 0 {
      ChangedBefore(t, req, end);
    } else {
      ChangedAt(t, req, end, i - 1);
    }
  }

  lemma LbasAfter(t: seq<Entry>, k: nat)
    requires AreLbas(t) && k <= |t|
    ensures AreLbas(t[k..])
  {
  }

  lemma ChangedBefore(t: seq<Entry>, req: Request, end: nat)
    requires AreLbas(t) && Succeeds(t, req, end) && Find(t, req.name) < |t|
    ensures var k, r := Find(t, req.name), Changed(t, req, end);
      r[..k] == t[..k] && r[k] == Entry(req.name, req.first, req.last)
  {
    hide Find, Partly;
  }

  lemma ChangedAt(t: seq<Entry>, req: Request, end: nat, i: nat)
    requires AreLbas(t) && Succeeds(t, req, end) && Find(t, req.name) < i < |t|
    ensures var k := Find(t, req.name);
      Changed(t, req, end)[i] == Placed(t[k + 1..], req.last, end)[i - k - 1] && t[i] == t[k + 1..][i - k - 1]
  {
    hide Placed, StopsAt, Find;
    var k := Find(t, req.name);
    var p := Placed(t[k + 1..], req.last, end);
    assert Partly(t[k + 1..], req.last, end) == p;
  }

  predicate SameSize(a: Entry, b: Entry) {
    (U64 + a.last - a.first) % U64 == (U64 + b.last - b.first) % U64
  }

  predicate IsPlaced(t: seq<Entry>, r: seq<Entry>, pre: nat, end: nat, i: nat)
    requires i < |t| == |r|
  {
    && r[i].name == t[i].name && r[i].first == Next(if i == 0 then pre else r[i - 1].last)
    && if IsUserData(t[i].name) then r[i].last == end else SameSize(r[i], t[i])
  }

  lemma {:induction false} PlacedChain(t: seq<Entry>, pre: nat, end: nat, i: nat)
    requires AreLbas(t) && i < |t|
    ensures IsPlaced(t, Placed(t, pre, end), pre, end, i)
  {
    var e := Moved(t[0], pre, end);
    if 0 < i {
      PlacedChain(t[1..], e.last, end, i - 1);
    } else if !IsUserData(t[0].name) {
      MovedKeepsSize(t[0], pre, end);
    }
  }

  lemma MovedKeepsSize(e: Entry, pre: nat, end: nat)
    requires e.first < U64 && e.last < U64 && !IsUserData(e.name)
    ensures SameSize(Moved(e, pre, end), e)
  {
    var s := U64 + e.last - e.first;
    WrapSum(s, pre + 1);
  }

  /** Adding and taking away the same amount modulo 2^64. */
  lemma WrapSum(s: nat, p: nat)
    ensures (U64 + (s + p) % U64 - p % U64) % U64 == s % U64
  {
  }

  lemma {:induction false} PlacedFits(t: seq<Entry>, pre: nat, end: nat, i: nat)
    requires AreLbas(t) && StopsAt(t, pre, end) == |t| && i < |t| && IsUserData(t[i].name)
    ensures Placed(t, pre, end)[i].first <= end
  {
    if 0 < i {
      PlacedFits(t[1..], Moved(t[0], pre, end).last, end, i - 1);
    }
  }

  // ---------------------------------------------------------------- consequences

  /** The number of sectors of an entry, as a uint64_t: 0 if it is empty or covers 2^64. */
  function Size(e: Entry): nat
    requires e.first < U64 && e.last < U64
  {
    (U64 + e.last - e.first + 1) % U64
  }

  function Sizes(t: seq<Entry>): nat
    requires AreLbas(t)
  {
    if t == [] then 0 else Size(t[0]) + Sizes(t[1..])
  }

  lemma MovedBySize(e: Entry, pre: nat, end: nat)
    requires e.first < U64 && e.last < U64 && !IsUserData(e.name)
    ensures Moved(e, pre, end).last == (pre + Size(e)) % U64
  {
    WrapAdd(U64 + e.last - e.first + 1, pre);
  }

  lemma WrapAdd(s: nat, p: nat)
    ensures (p + s % U64) % U64 == (s + p) % U64 && (p % U64 + s) % U64 == (p + s) % U64
  {
  }

  /** Only the last entry may be the one that ends with the device. */
  predicate UserDataLast(t: seq<Entry>) {
    forall i :: 0 <= i < |t| - 1 ==> !IsUserData(t[i].name)
  }

  /** Whether placing runs through can be told from the sizes. */
  lemma {:induction false} StopsBySizes(t: seq<Entry>, pre: nat, end: nat)
    requires AreLbas(t) && UserDataLast(t) && t != []
    ensures StopsAt(t, pre, end) == |t| <==>
              !IsUserData(t[|t| - 1].name) || (pre + Sizes(t[..|t| - 1]) + 1) % U64 <= end
  {
    hide Moved, Size, IsUserData;
    if |t| == 1 {
      assert t[..0] == [] && Sizes([]) == 0;
      assert StopsAt(t[1..], Moved(t[0], pre, end).last, end) == 0;
    } else {
      var next := Moved(t[0], pre, end).last;
      LbasAfter(t, 1);
      assert UserDataLast(t[1..]) by {
        assert forall i :: 0 <= i < |t[1..]| - 1 ==> t[1..][i] == t[i + 1];
      }
      assert !IsUserData(t[0].name);
      StopsBySizes(t[1..], next, end);
      MovedBySize(t[0], pre, end);
      var init := t[..|t| - 1];
      assert init[0] == t[0] && init[1..] == t[1..][..|t| - 2];
      WrapAdd(Sizes(init[1..]) + 1, pre + Size(t[0]));
      assert (next + Sizes(init[1..]) + 1) % U64 == (pre + Sizes(init) + 1) % U64;
    }
  }

  /** The sectors between entry `k` and the last one. */
  function Between(t: seq<Entry>, k: nat): nat
    requires AreLbas(t) && k < |t|
  {
    if k == |t| - 1 then 0 else Sizes(t[k + 1..|t| - 1])
  }

  /** The edit succeeds exactly if the requested bounds and everything between the modified entry
      and USERDATA leave USERDATA a sector, counting modulo 2^64; USERDATA itself can only be asked
      to end with the device. */
  lemma SucceedsIff(t: seq<Entry>, req: Request, end: nat)
    requires AreLbas(t) && UserDataLast(t) && Find(t, req.name) < |t|
    ensures var k, n := Find(t, req.name), |t| - 1;
      Succeeds(t, req, end) <==>
        (!IsUserData(t[n].name) ||
         if k == n then req.last == end else (req.last + Between(t, k) + 1) % U64 <= end)
  {
    hide IsUserData, Find, Size, Moved, Sizes, StopsAt, UserDataLast;
    var k, n := Find(t, req.name), |t| - 1;
    LbasAfter(t, k + 1);
    if k < n {
      BehindBySizes(t, req.last, end, k);
      NotUserData(t, k);
    } else {
      assert t[k + 1..] == [];
      StopsNowhere(req.last, end);
    }
  }

  lemma StopsNowhere(pre: nat, end: nat)
    ensures StopsAt([], pre, end) == 0
  {
  }

  lemma NotUserData(t: seq<Entry>, k: nat)
    requires UserDataLast(t) && k < |t| - 1
    ensures !IsUserData(t[k].name)
  {
  }

  lemma BehindBySizes(t: seq<Entry>, pre: nat, end: nat, k: nat)
    requires AreLbas(t) && UserDataLast(t) && k < |t| - 1
    ensures AreLbas(t[k + 1..])
    ensures StopsAt(t[k + 1..], pre, end) == |t| - k - 1 <==>
              !IsUserData(t[|t| - 1].name) || (pre + Between(t, k) + 1) % U64 <= end
  {
    hide IsUserData, Size, Moved, StopsAt, Sizes;
    var rest := t[k + 1..];
    LbasAfter(t, k + 1);
    assert UserDataLast(rest) by {
      assert forall i :: 0 <= i < |rest| - 1 ==> rest[i] == t[i + k + 1];
    }
    StopsBySizes(rest, pre, end);
    assert rest[..|rest| - 1] == t[k + 1..|t| - 1] && rest[|rest| - 1] == t[|t| - 1];
  }

  /** Nothing wraps around: the requested bounds and the entries behind them are in order and not
      empty, and all of them together end before the last 64-bit LBA. */
  predicate InOrder(t: seq<Entry>, req: Request)
    requires AreLbas(t) && Find(t, req.name) < |t|
  {
    var k := Find(t, req.name);
    && req.first <= req.last && req.last + Between(t, k) < U64 - 1
    && forall i :: k < i < |t| - 1 ==> t[i].first <= t[i].last < t[i].first + U64 - 1
  }

  /** Entry `i` of the edited table is not empty, and where it ends can be told from the sizes. */
  lemma {:induction false} EndsBySizes(t: seq<Entry>, req: Request, end: nat, i: nat)
    requires AreLbas(t) && UserDataLast(t) && Find(t, req.name) <= i < |t| - 1
    requires Succeeds(t, req, end) && InOrder(t, req)
    ensures var k, r := Find(t, req.name), Changed(t, req, end);
      && AreLbas(t[k + 1..i + 1])
      && r[i].last == req.last + Sizes(t[k + 1..i + 1]) <= req.last + Between(t, k)
      && r[i].first <= r[i].last
    decreases i
  {
    hide Find, Changed, StopsAt, Placed, Succeeds, Moved, IsUserData, Sizes, Size, SameSize, Next, UserDataLast;
    var k, r := Find(t, req.name), Changed(t, req, end);
    SizesBelow(t, k + 1, i + 1, |t| - 1);
    if i == k {
      ChangedBefore(t, req, end);
      assert t[k + 1..i + 1] == [];
      NoSizes();
    } else {
      EndsBySizes(t, req, end, i - 1);
      CascadeAt(t, req, end, i);
      NotUserData(t, i);
      SizesNext(t, k + 1, i);
      LastIsLba(t, req, end, i);
      PlacedEnd(r[i], t[i], r[i - 1].last);
    }
  }

  lemma NoSizes()
    ensures Sizes([]) == 0
  {
  }

  lemma LastIsLba(t: seq<Entry>, req: Request, end: nat, i: nat)
    requires AreLbas(t) && UserDataLast(t) && Succeeds(t, req, end) && Find(t, req.name) < i < |t| - 1
    ensures Changed(t, req, end)[i].last < U64
  {
    hide Placed, StopsAt, Find, Changed, IsUserData, Moved, Succeeds, UserDataLast;
    var k := Find(t, req.name);
    ChangedAt(t, req, end, i);
    NotUserData(t, i);
    LbasAfter(t, k + 1);
    PlacedIsLba(t[k + 1..], req.last, end, i - k - 1);
  }

  lemma {:induction false} PlacedIsLba(t: seq<Entry>, pre: nat, end: nat, i: nat)
    requires AreLbas(t) && i < |t| && !IsUserData(t[i].name)
    ensures Placed(t, pre, end)[i].last < U64
  {
    if 0 < i {
      PlacedIsLba(t[1..], Moved(t[0], pre, end).last, end, i - 1);
    }
  }

  /** An entry of the same size right behind `pre`. */
  lemma PlacedEnd(a: Entry, b: Entry, pre: nat)
    requires b.first <= b.last < b.first + U64 - 1 && b.last < U64 && a.last < U64
    requires a.first == Next(pre) && SameSize(a, b) && pre + Size(b) < U64 - 1
    ensures a.last == pre + Size(b) && a.first <= a.last
  {
  }

  lemma {:induction false} SizesNext(t: seq<Entry>, lo: nat, i: nat)
    requires AreLbas(t) && lo <= i < |t|
    ensures AreLbas(t[lo..i]) && AreLbas(t[lo..i + 1])
    ensures Sizes(t[lo..i + 1]) == Sizes(t[lo..i]) + Size(t[i])
    decreases i - lo
  {
    if lo < i {
      SizesNext(t, lo + 1, i);
      assert t[lo..i][1..] == t[lo + 1..i] && t[lo..i + 1][1..] == t[lo + 1..i + 1];
    } else {
      assert t[lo..i] == [] && t[lo..i + 1] == [t[i]] && t[lo..i + 1][1..] == [];
    }
  }

  lemma {:induction false} SizesBelow(t: seq<Entry>, lo: nat, i: nat, n: nat)
    requires AreLbas(t) && lo <= i <= n <= |t|
    ensures AreLbas(t[lo..i]) && AreLbas(t[lo..n]) && Sizes(t[lo..i]) <= Sizes(t[lo..n])
    decreases n
  {
    if i < n {
      SizesBelow(t, lo, i, n - 1);
      SizesNext(t, lo, n - 1);
    }
  }

  /** Entries that each follow their predecessor, none empty or wrapping around, are disjoint. */
  lemma {:induction false} FollowersApart(r: seq<Entry>, k: nat, i: nat, j: nat)
    requires k <= i < j < |r|
    requires forall x :: k < x < |r| ==> r[x].first == Next(r[x - 1].last)
    requires forall x :: k <= x < |r| - 1 ==> r[x].first <= r[x].last < U64 - 1
    ensures r[i].last < r[j].first
    decreases j
  {
    assert r[j].first == Next(r[j - 1].last);
    if i < j - 1 {
      FollowersApart(r, k, i, j - 1);
    }
  }

  /** After a successful edit of a table with USERDATA last, in which nothing wraps around, the
      entries from the modified one on are not empty, end at or before the end of the device, and
      no two of them share a sector: each one ends before the later ones start. */
  lemma EditedApart(t: seq<Entry>, req: Request, end: nat, i: nat, j: nat)
    requires AreLbas(t) && UserDataLast(t) && Succeeds(t, req, end)
    requires Find(t, req.name) <= i < j < |t| && IsUserData(t[|t| - 1].name) && InOrder(t, req)
    ensures var r := Changed(t, req, end);
      r[i].first <= r[i].last < r[j].first <= r[j].last <= end
  {
    hide Find, Changed, StopsAt, Placed, Succeeds, Moved, IsUserData, Sizes, UserDataLast, Next;
    var k, r := Find(t, req.name), Changed(t, req, end);
    SucceedsIff(t, req, end);
    forall x | k <= x < |r| - 1 ensures r[x].first <= r[x].last < U64 - 1 {
      EndsBySizes(t, req, end, x);
    }
    forall x | k < x < |r| ensures r[x].first == Next(r[x - 1].last) {
      CascadeAt(t, req, end, x);
    }
    FollowersApart(r, k, i, j);
    if j < |t| - 1 {
      EndsBySizes(t, req, end, j);
    } else {
      CascadeAt(t, req, end, j);
    }
  }

  predicate Follows(t: seq<Entry>, i: nat)
    requires 0 < i < |t|
  {
    t[i].first == Next(t[i - 1].last)
  }

  /** How far the last LBA of entry `i` has moved, modulo 2^64. */
  function Distance(t: seq<Entry>, r: seq<Entry>, i: nat): nat
    requires i < |t| == |r| && AreLbas(t)
  {
    (U64 + r[i].last - t[i].last) % U64
  }

  /** If the table was contiguous, everything between the modified entry and USERDATA moves by the
      same distance. */
  lemma {:induction false} MovesTogether(t: seq<Entry>, req: Request, end: nat, i: nat)
    requires AreLbas(t) && Succeeds(t, req, end) && Find(t, req.name) <= i < |t|
    requires forall x :: Find(t, req.name) < x <= i ==> Follows(t, x) && !IsUserData(t[x].name)
    ensures Distance(t, Changed(t, req, end), i) == (U64 + req.last - t[Find(t, req.name)].last) % U64
    decreases i
  {
    hide Placed, StopsAt, Moved, Find, IsUserData, Changed, Partly, Next, SameSize;
    var k, r := Find(t, req.name), Changed(t, req, end);
    if i == k {
      ChangedBefore(t, req, end);
    } else {
      MovesTogether(t, req, end, i - 1);
      CascadeAt(t, req, end, i);
      assert Follows(t, i);
      SameStep(t[i - 1], t[i], r[i - 1], r[i]);
    }
  }

  lemma SameStep(p: Entry, a: Entry, q: Entry, b: Entry)
    requires p.last < U64 && a.first < U64 && a.last < U64
    requires a.first == Next(p.last) && b.first == Next(q.last) && SameSize(b, a)
    ensures (U64 + b.last - a.last) % U64 == (U64 + q.last - p.last) % U64
  {
  }
}
