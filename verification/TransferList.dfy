/** What a transfer list means: its commands, and the image and store an uninterrupted run
    leaves after each of them (services/applypatch/command_process.cpp, block_set.cpp). */
module TransferLists {
  import opened Ranges
  import opened Device
  import opened BlockSets
  import opened MoveBlocks

  datatype Option<T> = None | Some(value: T)

  type Digest = nat

  /** `id:locations` in a command: a stash and where its bytes go in the source buffer. */
  datatype StashRef = StashRef(id: Digest, locs: seq<BlockPair>)

  /** The source of a diff or move: ranges of the device, optionally spread over locations and
      joined by stashes; or stashes alone (`-` in place of the ranges). */
  datatype Source =
    | FromDevice(src: seq<BlockPair>)
    | FromBoth(src: seq<BlockPair>, locs: seq<BlockPair>, stashes: seq<StashRef>)
    | FromStashes(stashes: seq<StashRef>)

  /** One line of the list. Two lines are the same text exactly when they are equal here. */
  datatype Command =
    | Abort
    | New(tgt: seq<BlockPair>)
    | Zero(tgt: seq<BlockPair>)
    | Diff(srcHash: Digest, tgtHash: Digest, tgt: seq<BlockPair>, size: nat, source: Source, patch: nat)
    | Move(srcHash: Digest, tgt: seq<BlockPair>, size: nat, source: Source)
    | Stash(id: Digest, src: seq<BlockPair>)
    | Free(id: Digest)
  {
    /** SkipInPlaceMove: the source and target arguments are the same text. */
    predicate SkippedMove() {
      Move? && !source.FromStashes? && source.src == tgt
    }

    /** Diffs and moves that are carried out. */
    predicate Patches() {
      Diff? || (Move? && !SkippedMove())
    }

    predicate Writes() {
      New? || Zero? || Patches()
    }

    function TargetHash(): Digest
      requires Patches()
    {
      if Diff? then tgtHash else srcHash
    }

    ghost predicate Overlaps()
      requires Patches()
    {
      !source.FromStashes? && Overlapping(source.src, tgt)
    }
  }

  /** The digest and the patch algorithm are parameters. */
  datatype Env = Env(hash: seq<byte> -> Digest, apply: (nat, seq<byte>) -> seq<byte>)

  ghost predicate Injective(hash: seq<byte> -> Digest) {
    forall x, y :: hash(x) == hash(y) ==> x == y
  }

  type Store = map<Digest, seq<byte>>

  // ---------------------------------------------------------------- the source buffer

  ghost function Place(buffer: seq<byte>, locs: seq<BlockPair>, content: seq<byte>): (r: seq<byte>)
    ensures |r| == |buffer|
  {
    if Fits(locs, |buffer|, |content|) then MovedFrom(buffer, locs, content) else buffer
  }

  ghost function PlaceAll(store: Store, refs: seq<StashRef>, buffer: seq<byte>): (r: seq<byte>)
    ensures |r| == |buffer|
  {
    if refs == [] then buffer
    else
      var n := |refs| - 1;
      var b := PlaceAll(store, refs[..n], buffer);
      if refs[n].id in store then Place(b, refs[n].locs, store[refs[n].id]) else b
  }

  ghost function ReadSource(dev: seq<byte>, src: seq<BlockPair>, size: nat): (r: seq<byte>)
    ensures |r| == size
  {
    ReadInto(dev, Addrs(src), Zeros(size))
  }

  ghost function SpreadSource(buffer: seq<byte>, locs: seq<BlockPair>): (r: seq<byte>)
    ensures |r| == |buffer|
  {
    if Fits(locs, |buffer|, |buffer|) then MovedInPlace(buffer, locs) else buffer
  }

  /** The buffer that LoadSourceBuffer assembles from a device and a store. */
  ghost function Assembled(dev: seq<byte>, store: Store, source: Source, size: nat): (r: seq<byte>)
    ensures |r| == size
  {
    match source
    case FromDevice(src) => ReadSource(dev, src, size)
    case FromBoth(src, locs, stashes) => PlaceAll(store, stashes, SpreadSource(ReadSource(dev, src, size), locs))
    case FromStashes(stashes) => PlaceAll(store, stashes, Zeros(size))
  }

  ghost function Refs(source: Source): seq<StashRef> {
    if source.FromDevice? then [] else source.stashes
  }

  ghost predicate AllStored(store: Store, refs: seq<StashRef>) {
    forall i :: 0 <= i < |refs| ==> refs[i].id in store
  }

  /** The stashes that are there go inside a buffer of `size` bytes. */
  ghost predicate StashesFit(store: Store, refs: seq<StashRef>, size: nat) {
    forall i :: 0 <= i < |refs| && refs[i].id in store ==> Fits(refs[i].locs, size, |store[refs[i].id]|)
  }

  /** No move leaves its buffers. */
  ghost predicate InBuffers(store: Store, source: Source, size: nat) {
    (source.FromBoth? ==> Fits(source.locs, size, size)) && StashesFit(store, Refs(source), size)
  }

  /** Everything the source names is there to be read. */
  ghost predicate Available(devSize: nat, store: Store, source: Source, size: nat) {
    && (!source.FromStashes? ==> InBounds(Addrs(source.src), devSize) && 0 < |Addrs(source.src)| && 0 < size)
    && AllStored(store, Refs(source))
  }

  ghost predicate SameStashes(s1: Store, s2: Store, refs: seq<StashRef>) {
    forall i :: 0 <= i < |refs| ==> refs[i].id in s1 && refs[i].id in s2 && s1[refs[i].id] == s2[refs[i].id]
  }

  /** Stores that agree on the stashes a source names assemble the same buffer. */
  lemma {:induction false} PlaceAllSame(s1: Store, s2: Store, refs: seq<StashRef>, buffer: seq<byte>)
    requires SameStashes(s1, s2, refs)
    ensures PlaceAll(s1, refs, buffer) == PlaceAll(s2, refs, buffer)
    decreases |refs|
  {
    if refs != [] {
      var n := |refs| - 1;
      PlaceAllSame(s1, s2, refs[..n], buffer);
    }
  }

  /** The source buffer depends only on the device bytes and the stashes it names. */
  lemma AssembledSame(d1: seq<byte>, d2: seq<byte>, s1: Store, s2: Store, source: Source, size: nat)
    requires |d1| == |d2|
    requires !source.FromStashes? ==> forall k :: 0 <= k < |Addrs(source.src)| ==>
               Addrs(source.src)[k] < |d1| && d1[Addrs(source.src)[k]] == d2[Addrs(source.src)[k]]
    requires SameStashes(s1, s2, Refs(source))
    ensures Assembled(d1, s1, source, size) == Assembled(d2, s2, source, size)
  {
    if !source.FromStashes? {
      assert ReadSource(d1, source.src, size) == ReadSource(d2, source.src, size);
    }
    if source.FromBoth? {
      PlaceAllSame(s1, s2, source.stashes, SpreadSource(ReadSource(d1, source.src, size), source.locs));
    } else if source.FromStashes? {
      PlaceAllSame(s1, s2, source.stashes, Zeros(size));
    }
  }

  /** The stashes of a source go to places of their own. */
  ghost predicate StashesApart(refs: seq<StashRef>) {
    && (forall i :: 0 <= i < |refs| ==> Unique(Addrs(refs[i].locs)))
    && forall i, j :: 0 <= i < j < |refs| ==> Apart(Addrs(refs[i].locs), Addrs(refs[j].locs))
  }

  /** `buffer` holds `content` along `locs`. */
  ghost predicate HoldsAt(buffer: seq<byte>, locs: seq<BlockPair>, content: seq<byte>) {
    && InBounds(Addrs(locs), |buffer|) && |Addrs(locs)| <= |content|
    && forall k :: 0 <= k < |Addrs(locs)| ==> buffer[Addrs(locs)[k]] == content[k]
  }

  /** No stash goes to byte `a`. */
  ghost predicate Outside(refs: seq<StashRef>, a: nat) {
    forall i :: 0 <= i < |refs| ==> a !in Addrs(refs[i].locs)
  }

  /** Placing stashes puts each in its place, whatever their order, and changes nothing else. */
  lemma {:induction false} PlacedEach(store: Store, refs: seq<StashRef>, buffer: seq<byte>)
    requires StashesApart(refs) && AllStored(store, refs) && StashesFit(store, refs, |buffer|)
    ensures forall i :: 0 <= i < |refs| ==> HoldsAt(PlaceAll(store, refs, buffer), refs[i].locs, store[refs[i].id])
    ensures forall a :: 0 <= a < |buffer| && Outside(refs, a) ==> PlaceAll(store, refs, buffer)[a] == buffer[a]
    decreases |refs|
  {
    hide HoldsAt, Outside, Place, MovedFrom, Fits, Unique, Apart, Addrs;
    if refs != [] {
      var n := |refs| - 1;
      PlacedEach(store, refs[..n], buffer);
      LastPlaced(store, refs, buffer);
      var b, r := PlaceAll(store, refs[..n], buffer), PlaceAll(store, refs, buffer);
      forall i | 0 <= i < n ensures HoldsAt(r, refs[i].locs, store[refs[i].id]) {
        assert HoldsAt(b, refs[..n][i].locs, store[refs[..n][i].id]);
        KeptApart(b, r, refs[i].locs, refs[n].locs, store[refs[i].id]);
      }
      forall a | 0 <= a < |buffer| && Outside(refs, a) ensures r[a] == buffer[a] {
        OutsideBefore(refs, a);
      }
    }
  }

  lemma OutsideBefore(refs: seq<StashRef>, a: nat)
    requires refs != [] && Outside(refs, a)
    ensures Outside(refs[..|refs| - 1], a) && a !in Addrs(refs[|refs| - 1].locs)
  {
  }

  lemma LastPlaced(store: Store, refs: seq<StashRef>, buffer: seq<byte>)
    requires refs != [] && StashesApart(refs) && AllStored(store, refs) && StashesFit(store, refs, |buffer|)
    ensures var n := |refs| - 1;
      && HoldsAt(PlaceAll(store, refs, buffer), refs[n].locs, store[refs[n].id])
      && SameOutside(PlaceAll(store, refs[..n], buffer), PlaceAll(store, refs, buffer), Addrs(refs[n].locs))
  {
    hide HoldsAt, MovedFrom;
    var n := |refs| - 1;
    PlacedOne(PlaceAll(store, refs[..n], buffer), refs[n].locs, store[refs[n].id]);
  }

  lemma PlacedOne(buffer: seq<byte>, locs: seq<BlockPair>, content: seq<byte>)
    requires Fits(locs, |buffer|, |content|) && Unique(Addrs(locs))
    ensures HoldsAt(MovedFrom(buffer, locs, content), locs, content)
    ensures SameOutside(buffer, MovedFrom(buffer, locs, content), Addrs(locs))
  {
    hide MovedFrom;
    MovedFromSpreads(buffer, locs, content);
  }

  lemma KeptApart(b: seq<byte>, r: seq<byte>, locs: seq<BlockPair>, moved: seq<BlockPair>, content: seq<byte>)
    requires HoldsAt(b, locs, content) && SameOutside(b, r, Addrs(moved)) && Apart(Addrs(locs), Addrs(moved))
    ensures HoldsAt(r, locs, content)
  {
    forall k | 0 <= k < |Addrs(locs)| ensures r[Addrs(locs)[k]] == content[k] {
      assert Addrs(locs)[k] !in Addrs(moved);
    }
  }

  /** The source buffer is exactly what the command specifies: where the device ranges and the
      stashes have places of their own, each byte of a place comes from its source. Every range
      that is spread must be one that MoveBlock moves safely. */
  lemma AssembledExactly(dev: seq<byte>, store: Store, source: Source, size: nat)
    requires source.FromBoth? && InBuffers(store, source, size) && AllStored(store, source.stashes)
    requires InBounds(Addrs(source.src), |dev|) && |Addrs(source.locs)| <= |Addrs(source.src)| <= size
    requires Ascending(source.locs) && forall i :: 0 <= i < |source.locs| ==> Safe(source.locs, i)
    requires StashesApart(source.stashes)
    requires forall i :: 0 <= i < |source.stashes| ==> Apart(Addrs(source.locs), Addrs(source.stashes[i].locs))
    ensures var buffer := Assembled(dev, store, source, size);
      && HoldsAt(buffer, source.locs, Gather(dev, Addrs(source.src)))
      && forall i :: 0 <= i < |source.stashes| ==> HoldsAt(buffer, source.stashes[i].locs, store[source.stashes[i].id])
  {
    var read, locs := ReadSource(dev, source.src, size), source.locs;
    var spread := SpreadSource(read, locs);
    MovedInPlaceSpreads(read, locs);
    PlacedEach(store, source.stashes, spread);
    var buffer := Assembled(dev, store, source, size);
    var addrs := Addrs(locs);
    forall k | 0 <= k < |addrs| ensures buffer[addrs[k]] == Gather(dev, Addrs(source.src))[k] {
      forall i | 0 <= i < |source.stashes| ensures addrs[k] !in Addrs(source.stashes[i].locs) {
        assert Apart(addrs, Addrs(source.stashes[i].locs));
      }
      assert buffer[addrs[k]] == spread[addrs[k]] == read[k];
    }
  }

  /** A target that `new` can fill. */
  ghost predicate Writable(tgt: seq<BlockPair>, size: nat) {
    InBounds(Addrs(tgt), size) && NoneEmpty(tgt) && tgt != []
  }

  // ---------------------------------------------------------------- the uninterrupted run

  datatype Ideal = Ideal(dev: seq<byte>, store: Store)

  /** A list, the unpacked stream its `new` commands draw from, and the image it starts from. */
  datatype Job = Job(env: Env, cmds: seq<Command>, stream: seq<byte>, image: seq<byte>) {

    /** How far into the stream the `new` commands before `k` reach. */
    function NewOffset(k: nat): nat
      requires k <= |cmds|
    {
      if k == 0 then 0
      else NewOffset(k - 1) + if cmds[k - 1].New? then |Addrs(cmds[k - 1].tgt)| else 0
    }

    function Target(k: nat): seq<nat>
      requires k < |cmds|
    {
      if cmds[k].Writes() then Addrs(cmds[k].tgt) else []
    }

    /** The source buffer of command `k` in the uninterrupted run. */
    ghost function Buffer(k: nat): seq<byte>
      requires k < |cmds| && cmds[k].Patches()
      decreases k, 1
    {
      Assembled(At(k).dev, At(k).store, cmds[k].source, cmds[k].size * BLOCK_SIZE)
    }

    /** What command `k` writes over its target. */
    ghost function Output(k: nat): seq<byte>
      requires k < |cmds|
      decreases k, 2
    {
      match cmds[k]
      case New(tgt) =>
        if NewOffset(k) + |Addrs(tgt)| <= |stream| then stream[NewOffset(k)..NewOffset(k) + |Addrs(tgt)|] else []
      case Zero(tgt) => Zeros(|Addrs(tgt)|)
      case _ => if cmds[k].Patches() then Made(env, cmds[k], Buffer(k)) else []
    }

    /** Device and store after the first `k` commands. */
    ghost function At(k: nat): (s: Ideal)
      requires k <= |cmds|
      decreases k, 0
    {
      if k == 0 then Ideal(image, map[])
      else
        var s := At(k - 1);
        match cmds[k - 1]
        case Stash(id, src) =>
          var content := ReadSource(s.dev, src, |Addrs(src)|);
          if id !in s.store && env.hash(content) == id then Ideal(s.dev, s.store[id := content]) else s
        case Free(id) => Ideal(s.dev, s.store - {id})
        case _ => if cmds[k - 1].Writes() then Ideal(Lay(s.dev, Target(k - 1), Output(k - 1)), s.store) else s
    }
  }

  /** The bytes a diff or move produces from its source buffer. */
  function Made(env: Env, c: Command, buffer: seq<byte>): seq<byte>
    requires c.Patches()
  {
    if c.Diff? then env.apply(c.patch, buffer)
    else if |Addrs(c.tgt)| <= |buffer| then buffer[..|Addrs(c.tgt)|] else buffer
  }

  ghost function Lay(dev: seq<byte>, addrs: seq<nat>, data: seq<byte>): (r: seq<byte>)
    ensures |r| == |dev|
  {
    if |data| <= |addrs| then Scatter(dev, addrs, data) else dev
  }
}
