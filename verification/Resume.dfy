/** Why a transfer list can be resumed: what a device, a store and a retry file may look like
    after any number of failed runs, and why each command restores or keeps it. */
module Resume {
  import opened Ranges
  import opened Device
  import opened BlockSets
  import opened MoveBlocks
  import opened TransferLists

  // ---------------------------------------------------------------- well-formed lists

  /** What the package builder promises of command `k`: ranges on the device, sources that are
      there and have their digest in the uninterrupted run, results that have theirs. */
  ghost predicate SoundCommand(j: Job, k: nat)
    requires k < |j.cmds|
  {
    var c := j.cmds[k];
    && (c.Writes() ==> InBounds(j.Target(k), |j.image|) && Unique(j.Target(k)) && |j.Output(k)| == |j.Target(k)|)
    && (c.New? ==> Writable(c.tgt, |j.image|))
    && (c.Stash? ==> InBounds(Addrs(c.src), |j.image|) && 0 < |Addrs(c.src)|)
    && (c.Patches() ==>
         && 0 < |j.Target(k)|
         && Available(|j.image|, j.At(k).store, c.source, c.size * BLOCK_SIZE)
         && InBuffers(j.At(k).store, c.source, c.size * BLOCK_SIZE)
         && j.env.hash(j.Buffer(k)) == c.srcHash
         && j.env.hash(j.Output(k)) == c.TargetHash())
  }

  /** `c` relies on the store entry `h` not having been freed before. */
  predicate Uses(c: Command, h: Digest) {
    (c.Stash? && c.id == h) || (c.Patches() && c.srcHash == h)
  }

  ghost predicate WellFormed(j: Job) {
    && Injective(j.env.hash) && j.cmds != []
    && (forall k :: 0 <= k < |j.cmds| ==> SoundCommand(j, k))
    // write targets are pairwise disjoint
    && (forall i, k :: 0 <= i < k < |j.cmds| ==> Apart(j.Target(i), j.Target(k)))
    // a digest is not used again once it has been freed
    && (forall i, k :: 0 <= i < k < |j.cmds| && j.cmds[i].Free? ==> !Uses(j.cmds[k], j.cmds[i].id))
  }

  // ---------------------------------------------------------------- the uninterrupted run

  lemma {:induction false} AtSize(j: Job, k: nat)
    requires k <= |j.cmds|
    ensures |j.At(k).dev| == |j.image|
  {
    if 0 < k {
      AtSize(j, k - 1);
    }
  }

  lemma AtFrame(j: Job, k: nat, a: nat)
    requires k < |j.cmds| && a < |j.image| && a !in j.Target(k)
    ensures |j.At(k).dev| == |j.At(k + 1).dev| == |j.image|
    ensures j.At(k + 1).dev[a] == j.At(k).dev[a]
  {
    AtSize(j, k);
    AtSize(j, k + 1);
    if |j.Output(k)| <= |j.Target(k)| {
      ScatterFrame(j.At(k).dev, j.Target(k), j.Output(k), a);
    }
  }

  /** What a command wrote stays. */
  lemma {:induction false} AtKeeps(j: Job, k: nat, p: nat, a: nat)
    requires WellFormed(j) && k < p <= |j.cmds| && a in j.Target(k) && a < |j.image|
    ensures |j.At(k + 1).dev| == |j.At(p).dev| == |j.image|
    ensures j.At(p).dev[a] == j.At(k + 1).dev[a]
    decreases p
  {
    hide WellFormed;
    AtSize(j, p);
    if k + 1 < p {
      NotInLater(j, k, p - 1, a);
      AtKeeps(j, k, p - 1, a);
      AtFrame(j, p - 1, a);
    }
  }

  lemma NotInLater(j: Job, k: nat, p: nat, a: nat)
    requires WellFormed(j) && k < p < |j.cmds| && a in j.Target(k)
    ensures a !in j.Target(p)
  {
    assert Apart(j.Target(k), j.Target(p));
  }

  /** The target of command `k` holds its output from then on. */
  lemma AtHolds(j: Job, k: nat, p: nat, x: nat)
    requires WellFormed(j) && k < p <= |j.cmds| && x < |j.Target(k)|
    ensures |j.At(p).dev| == |j.image| && j.Target(k)[x] < |j.image| && |j.Output(k)| == |j.Target(k)|
    ensures j.At(p).dev[j.Target(k)[x]] == j.Output(k)[x]
  {
    assert SoundCommand(j, k);
    AtSize(j, k);
    AtKeeps(j, k, p, j.Target(k)[x]);
    ScatterAt(j.At(k).dev, j.Target(k), j.Output(k), x);
  }

  lemma {:induction false} AtStoreSound(j: Job, k: nat, h: Digest)
    requires k <= |j.cmds| && h in j.At(k).store
    ensures j.env.hash(j.At(k).store[h]) == h
  {
    if 0 < k && h in j.At(k - 1).store {
      AtStoreSound(j, k - 1, h);
    }
  }

  /** A freed digest is gone for good. */
  lemma {:induction false} AtFreed(j: Job, i: nat, k: nat)
    requires WellFormed(j) && i < k <= |j.cmds| && j.cmds[i].Free?
    ensures j.cmds[i].id !in j.At(k).store
    decreases k
  {
    if i + 1 < k {
      AtFreed(j, i, k - 1);
      assert !Uses(j.cmds[k - 1], j.cmds[i].id);
    }
  }

  // ---------------------------------------------------------------- between failures

  /** Where a retry run starts executing: after the first occurrence of the line in the retry
      file, at the beginning if the file is empty, never if the line is not in the list. */
  function ResumeAt(cmds: seq<Command>, line: Option<Command>): nat {
    if line == None then 0 else FirstAfter(cmds, line.value, 0)
  }

  function FirstAfter(cmds: seq<Command>, line: Command, i: nat): (r: nat)
    requires i <= |cmds|
    ensures i < r <= |cmds| + 1
    ensures r <= |cmds| ==> cmds[r - 1] == line
    ensures forall k :: i <= k < r - 1 && k < |cmds| ==> cmds[k] != line
    decreases |cmds| - i
  {
    if i == |cmds| then i + 1 else if cmds[i] == line then i + 1 else FirstAfter(cmds, line, i + 1)
  }

  /** The line in the retry file once the commands from `lo` up to `i` have been carried out: that
      of the last that is not a `new`. */
  function LastLine(cmds: seq<Command>, had: Option<Command>, lo: nat, i: nat): Option<Command>
    requires i <= |cmds|
  {
    if i <= lo then had else if cmds[i - 1].New? then LastLine(cmds, had, lo, i - 1) else Some(cmds[i - 1])
  }

  /** A later run rewrites the target of command `k` before anything reads it. */
  predicate Redone(c: Command, k: nat, r: nat) {
    c.New? || (c.Zero? && r <= k)
  }

  /** Byte `a` may hold anything: it belongs to the command that failed, or to one that has been
      run but will be run again from position `i` on. */
  ghost predicate Dirty(j: Job, r: nat, i: nat, p: nat, a: nat) {
    exists k :: i <= k <= p && k < |j.cmds| && a in j.Target(k) && (k == p || Redone(j.cmds[k], k, r))
  }

  ghost predicate Clean(j: Job, dev: seq<byte>, r: nat, i: nat, p: nat)
    requires p <= |j.cmds|
  {
    && |dev| == |j.image| == |j.At(p).dev|
    && forall a :: 0 <= a < |dev| && !Dirty(j, r, i, p, a) ==> dev[a] == j.At(p).dev[a]
  }

  /** The store holds nothing but what its names say. */
  ghost predicate Named(j: Job, store: Store) {
    forall h :: h in store ==> j.env.hash(store[h]) == h
  }

  /** And, as long as a command is due, everything the ideal store has. */
  ghost predicate Stocked(j: Job, store: Store, p: nat)
    requires p <= |j.cmds|
  {
    Named(j, store) && (p < |j.cmds| ==> forall h :: h in j.At(p).store ==> h in store)
  }

  ghost predicate Untouched(j: Job, dev: seq<byte>, p: nat)
    requires p < |j.cmds|
  {
    |dev| == |j.At(p).dev| && forall x :: 0 <= x < |j.Target(p)| ==>
      j.Target(p)[x] < |dev| && dev[j.Target(p)[x]] == j.At(p).dev[j.Target(p)[x]]
  }

  /** The write-ahead property of the command in progress: its source is untouched, or logged,
      or its target is complete. */
  ghost predicate Logged(j: Job, dev: seq<byte>, store: Store, p: nat)
    requires p <= |j.cmds|
  {
    p < |j.cmds| && j.cmds[p].Patches() ==>
      var c := j.cmds[p];
      || c.srcHash in store
      || Untouched(j, dev, p)
      || !c.Overlaps()
      || j.env.hash(ReadSource(dev, c.tgt, |Addrs(c.tgt)|)) == c.TargetHash()
  }

  /** Nothing is lost if the first run that reaches command `k` passes over it. */
  ghost predicate Harmless(j: Job, k: nat)
    requires k < |j.cmds|
  {
    j.cmds[k].New? || (!j.cmds[k].Writes() && j.At(k + 1) == j.At(k))
  }

  /** A retry from `r` passes over nothing that is still to be done: either it resumes no later
      than `p`, or what lies between is harmless (a line that another update left behind). */
  ghost predicate Passable(j: Job, p: nat, r: nat) {
    forall k :: p <= k < r && k < |j.cmds| ==> Harmless(j, k)
  }

  /** What every moment of every run satisfies: commands before `p` have been carried out once,
      the current run has reached `i`, and the retry file resumes at `r`. */
  ghost predicate Ready(j: Job, dev: seq<byte>, store: Store, r: nat, i: nat, p: nat) {
    && i <= p <= |j.cmds| && Passable(j, p, r)
    && Clean(j, dev, r, i, p) && Stocked(j, store, p) && Logged(j, dev, store, p)
  }

  lemma ReadyAtStart(j: Job, store: Store, r: nat)
    requires WellFormed(j) && Named(j, store) && Passable(j, 0, r)
    ensures Ready(j, j.image, store, r, 0, 0)
  {
    if j.cmds != [] && j.cmds[0].Patches() {
      assert SoundCommand(j, 0);
    }
  }

  lemma SomethingToDo(j: Job)
    requires WellFormed(j)
    ensures j.cmds != []
  {
  }

  lemma ReadyWithin(j: Job, dev: seq<byte>, store: Store, r: nat, i: nat, p: nat)
    requires Ready(j, dev, store, r, i, p)
    ensures i <= p <= |j.cmds|
  {
  }

  /** Before the first run the store may lose anything, too. */
  lemma ReadyFirst(j: Job, store: Store, store': Store, r: nat)
    requires WellFormed(j) && Ready(j, j.image, store, r, 0, 0) && Named(j, store')
    ensures Ready(j, j.image, store', r, 0, 0)
  {
    ReadyAtStart(j, store', r);
  }

  /** Once nothing is due any more the store may lose anything. */
  lemma ReadyEmptied(j: Job, dev: seq<byte>, store: Store, store': Store, r: nat, i: nat)
    requires Ready(j, dev, store, r, i, |j.cmds|) && Named(j, store')
    ensures Ready(j, dev, store', r, i, |j.cmds|)
  {
  }

  lemma ReadyAtEnd(j: Job, dev: seq<byte>, store: Store, r: nat)
    requires Ready(j, dev, store, r, |j.cmds|, |j.cmds|)
    ensures dev == j.At(|j.cmds|).dev
  {
  }

  /** A reboot, or a rewritten retry file that resumes no later than the current position. */
  lemma ReadyAgain(j: Job, dev: seq<byte>, store: Store, r: nat, i: nat, p: nat, r': nat, i': nat)
    requires Ready(j, dev, store, r, i, p) && i' <= i && (r' <= i || r' == r)
    ensures Ready(j, dev, store, r', i', p)
  {
    forall a | Dirty(j, r, i, p, a) ensures Dirty(j, r', i', p, a) {
      var k :| i <= k <= p && k < |j.cmds| && a in j.Target(k) && (k == p || Redone(j.cmds[k], k, r));
      assert k == p || Redone(j.cmds[k], k, r');
    }
  }

  /** A command that ran before and will not be run again needs nothing. */
  lemma ReadyPast(j: Job, dev: seq<byte>, store: Store, r: nat, i: nat, p: nat)
    requires Ready(j, dev, store, r, i, p) && i < p && !Redone(j.cmds[i], i, r)
    ensures Ready(j, dev, store, r, i + 1, p)
  {
    forall a | Dirty(j, r, i, p, a) ensures Dirty(j, r, i + 1, p, a) {
      var k :| i <= k <= p && k < |j.cmds| && a in j.Target(k) && (k == p || Redone(j.cmds[k], k, r));
      assert k != i;
    }
  }

  lemma LoggedElsewhere(j: Job, dev: seq<byte>, dev': seq<byte>, store: Store, i: nat, p: nat)
    requires WellFormed(j) && i < p <= |j.cmds| && Logged(j, dev, store, p)
    requires SameOutside(dev, dev', j.Target(i)) && |dev| == |j.image|
    ensures Logged(j, dev', store, p)
  {
    if p < |j.cmds| && j.cmds[p].Patches() {
      assert Apart(j.Target(i), j.Target(p)) && SoundCommand(j, p);
      var t := j.Target(p);
      forall x | 0 <= x < |t| ensures dev'[t[x]] == dev[t[x]] {
        assert t[x] !in j.Target(i);
      }
      assert ReadSource(dev', j.cmds[p].tgt, |t|) == ReadSource(dev, j.cmds[p].tgt, |t|);
    }
  }

  /** Writing a target again, and failing half-way. */
  lemma ReadyTorn(j: Job, dev: seq<byte>, dev': seq<byte>, store: Store, r: nat, i: nat, p: nat)
    requires WellFormed(j) && Ready(j, dev, store, r, i, p) && i < |j.cmds|
    requires i == p || Redone(j.cmds[i], i, r)
    requires SameOutside(dev, dev', j.Target(i))
    requires i == p ==> Logged(j, dev', store, p)
    ensures Ready(j, dev', store, r, i, p)
  {
    if i < p {
      LoggedElsewhere(j, dev, dev', store, i, p);
    }
    forall a | 0 <= a < |dev| && !Dirty(j, r, i, p, a) ensures dev'[a] == j.At(p).dev[a] {
      assert a !in j.Target(i);
    }
  }

  /** Writing a target again, and completing it. */
  lemma ReadyRewritten(j: Job, dev: seq<byte>, store: Store, r: nat, i: nat, p: nat)
    requires WellFormed(j) && Ready(j, dev, store, r, i, p) && i < p
    requires Redone(j.cmds[i], i, r) && |j.Output(i)| == |j.Target(i)|
    ensures Ready(j, Scatter(dev, j.Target(i), j.Output(i)), store, r, i + 1, p)
  {
    assert SoundCommand(j, i);
    var t := j.Target(i);
    var dev' := Scatter(dev, t, j.Output(i));
    SameOutsideScatter(dev, t, j.Output(i));
    LoggedElsewhere(j, dev, dev', store, i, p);
    forall a | 0 <= a < |dev| && !Dirty(j, r, i + 1, p, a) ensures dev'[a] == j.At(p).dev[a] {
      if a in t {
        var x :| 0 <= x < |t| && t[x] == a;
        ScatterAt(dev, t, j.Output(i), x);
        AtHolds(j, i, p, x);
      } else {
        NotDirtyBefore(j, r, i, p, a);
      }
    }
  }

  lemma NotDirtyBefore(j: Job, r: nat, i: nat, p: nat, a: nat)
    requires i < p && i < |j.cmds| && a !in j.Target(i) && !Dirty(j, r, i + 1, p, a)
    ensures !Dirty(j, r, i, p, a)
  {
    if k :| i <= k <= p && k < |j.cmds| && a in j.Target(k) && (k == p || Redone(j.cmds[k], k, r)) {
      assert false;
    }
  }

  /** The first execution of command `p`: what it writes completes the ideal image. */
  lemma WholeAfter(j: Job, dev: seq<byte>, store: Store, r: nat, p: nat)
    requires WellFormed(j) && Ready(j, dev, store, r, p, p) && p < |j.cmds|
    requires j.cmds[p].Writes()
    ensures |j.Output(p)| == |j.Target(p)|
    ensures Scatter(dev, j.Target(p), j.Output(p)) == j.At(p + 1).dev
  {
    assert SoundCommand(j, p);
    var t, out := j.Target(p), j.Output(p);
    forall a | 0 <= a < |dev| ensures Scatter(dev, t, out)[a] == Scatter(j.At(p).dev, t, out)[a] {
      if a in t {
        var x :| 0 <= x < |t| && t[x] == a;
        ScatterAt(dev, t, out, x);
        ScatterAt(j.At(p).dev, t, out, x);
      } else {
        ScatterFrame(dev, t, out, a);
        ScatterFrame(j.At(p).dev, t, out, a);
        assert !Dirty(j, r, p, p, a);
      }
    }
  }

  lemma WholeBefore(j: Job, dev: seq<byte>, store: Store, r: nat, p: nat)
    requires Ready(j, dev, store, r, p, p) && (p < |j.cmds| ==> !j.cmds[p].Writes())
    ensures dev == j.At(p).dev
  {
  }

  /** A diff or move leaves the ideal store alone. */
  lemma StockedAfter(j: Job, store: Store, p: nat)
    requires p < |j.cmds| && j.cmds[p].Patches() && Stocked(j, store, p)
    ensures Stocked(j, store, p + 1)
  {
  }

  lemma PassableAfter(j: Job, p: nat, r: nat)
    requires p < |j.cmds| && Passable(j, p, r)
    ensures Passable(j, p + 1, r)
  {
  }

  lemma TargetSized(j: Job, k: nat)
    requires WellFormed(j) && k < |j.cmds| && j.cmds[k].Writes()
    ensures |j.Output(k)| == |j.Target(k)|
  {
    assert SoundCommand(j, k);
  }

  lemma ReadyNext(j: Job, store: Store, r: nat, p: nat)
    requires p <= |j.cmds| && Passable(j, p, r) && Stocked(j, store, p)
    requires WellFormed(j)
    ensures Ready(j, j.At(p).dev, store, r, p, p)
  {
    AtSize(j, p);
    if p < |j.cmds| {
      assert SoundCommand(j, p);
    }
  }

  // ---------------------------------------------------------------- diffs and moves

  lemma TargetClean(j: Job, r: nat, i: nat, p: nat, x: nat)
    requires WellFormed(j) && i < p && i < |j.cmds| && j.cmds[i].Patches() && x < |j.Target(i)|
    ensures !Dirty(j, r, i, p, j.Target(i)[x])
  {
    forall k | i < k < |j.cmds| ensures j.Target(i)[x] !in j.Target(k) {
      assert Apart(j.Target(i), j.Target(k));
    }
  }

  /** A target that has been completed once still has its digest. */
  lemma TargetMatches(j: Job, dev: seq<byte>, store: Store, r: nat, i: nat, p: nat)
    requires WellFormed(j) && Ready(j, dev, store, r, i, p) && i < p && j.cmds[i].Patches()
    ensures j.env.hash(ReadSource(dev, j.cmds[i].tgt, |Addrs(j.cmds[i].tgt)|)) == j.cmds[i].TargetHash()
  {
    var t := j.Target(i);
    assert SoundCommand(j, i);
    forall x | 0 <= x < |t| ensures dev[t[x]] == j.Output(i)[x] {
      AtHolds(j, i, p, x);
      TargetClean(j, r, i, p, x);
    }
    assert ReadSource(dev, j.cmds[i].tgt, |t|) == j.Output(i);
  }

  /** And a target with the right digest is complete. */
  lemma MatchIsWhole(j: Job, dev: seq<byte>, store: Store, r: nat, p: nat)
    requires WellFormed(j) && Ready(j, dev, store, r, p, p) && p < |j.cmds| && j.cmds[p].Patches()
    requires j.env.hash(ReadSource(dev, j.cmds[p].tgt, |Addrs(j.cmds[p].tgt)|)) == j.cmds[p].TargetHash()
    ensures dev == j.At(p + 1).dev
  {
    assert SoundCommand(j, p);
    WholeAfter(j, dev, store, r, p);
    var t, out := j.Target(p), j.Output(p);
    assert ReadSource(dev, j.cmds[p].tgt, |t|) == out;
    forall a | 0 <= a < |dev| ensures Scatter(dev, t, out)[a] == dev[a] {
      if a in t {
        var x :| 0 <= x < |t| && t[x] == a;
        ScatterAt(dev, t, out, x);
        assert ReadSource(dev, j.cmds[p].tgt, |t|)[x] == dev[t[x]];
      } else {
        ScatterFrame(dev, t, out, a);
      }
    }
  }

  /** Stashes that are in the store are the ideal ones. */
  lemma StashesSame(j: Job, store: Store, i: nat, p: nat)
    requires p <= |j.cmds| && i < |j.cmds| && i <= p && j.cmds[i].Patches()
    requires WellFormed(j) && Stocked(j, store, p)
    ensures InBuffers(store, j.cmds[i].source, j.cmds[i].size * BLOCK_SIZE)
    ensures i == p ==> SameStashes(store, j.At(i).store, Refs(j.cmds[i].source))
    ensures i == p ==> Available(|j.image|, store, j.cmds[i].source, j.cmds[i].size * BLOCK_SIZE)
  {
    assert SoundCommand(j, i);
    var refs := Refs(j.cmds[i].source);
    forall x | 0 <= x < |refs| && refs[x].id in store ensures store[refs[x].id] == j.At(i).store[refs[x].id] {
      AtStoreSound(j, i, refs[x].id);
    }
  }

  /** Re-executing the command in progress finds its source. */
  lemma SourceRecoverable(j: Job, dev: seq<byte>, store: Store, r: nat, p: nat)
    requires WellFormed(j) && Ready(j, dev, store, r, p, p) && p < |j.cmds| && j.cmds[p].Patches()
    ensures var c := j.cmds[p];
      || j.env.hash(ReadSource(dev, c.tgt, |Addrs(c.tgt)|)) == c.TargetHash()
      || c.srcHash in store
      || Assembled(dev, store, c.source, c.size * BLOCK_SIZE) == j.Buffer(p)
  {
    var c := j.cmds[p];
    StashesSame(j, store, p, p);
    if Untouched(j, dev, p) || !c.Overlaps() {
      if !c.source.FromStashes? {
        forall k | 0 <= k < |Addrs(c.source.src)|
          ensures dev[Addrs(c.source.src)[k]] == j.At(p).dev[Addrs(c.source.src)[k]]
        {
          SourceByteKept(j, dev, store, r, p, k);
        }
      }
      AssembledSame(dev, j.At(p).dev, store, j.At(p).store, c.source, c.size * BLOCK_SIZE);
    }
  }

  lemma SourceByteKept(j: Job, dev: seq<byte>, store: Store, r: nat, p: nat, k: nat)
    requires WellFormed(j) && Ready(j, dev, store, r, p, p) && p < |j.cmds| && j.cmds[p].Patches()
    requires !j.cmds[p].source.FromStashes? && k < |Addrs(j.cmds[p].source.src)|
    requires Untouched(j, dev, p) || !j.cmds[p].Overlaps()
    ensures Addrs(j.cmds[p].source.src)[k] < |dev|
    ensures dev[Addrs(j.cmds[p].source.src)[k]] == j.At(p).dev[Addrs(j.cmds[p].source.src)[k]]
  {
    assert SoundCommand(j, p);
    var c := j.cmds[p];
    var a := Addrs(c.source.src)[k];
    if a in j.Target(p) {
      var x :| 0 <= x < |j.Target(p)| && j.Target(p)[x] == a;
      if !c.Overlaps() {
        NoMeetApart(c.source.src, c.tgt);
        assert false;
      }
    } else {
      assert !Dirty(j, r, p, p, a);
    }
  }

  /** The store gains at most the source of a command, under its digest. */
  lemma StockedMore(j: Job, dev: seq<byte>, store: Store, p: nat, h: Digest, content: seq<byte>)
    requires p <= |j.cmds| && Stocked(j, store, p) && Logged(j, dev, store, p) && j.env.hash(content) == h
    ensures Stocked(j, store[h := content], p) && Logged(j, dev, store[h := content], p)
  {
  }

  /** Freeing again what was freed before. */
  lemma StockedLess(j: Job, dev: seq<byte>, store: Store, i: nat, p: nat)
    requires WellFormed(j) && i < p <= |j.cmds| && j.cmds[i].Free?
    requires Stocked(j, store, p) && Logged(j, dev, store, p)
    ensures Stocked(j, store - {j.cmds[i].id}, p) && Logged(j, dev, store - {j.cmds[i].id}, p)
  {
    AtFreed(j, i, p);
    if p < |j.cmds| {
      assert !Uses(j.cmds[p], j.cmds[i].id);
    }
  }

  // ---------------------------------------------------------------- what a retry run executes

  /** The positions the command loop executes, given the line it is still looking for. */
  function Executed(cmds: seq<Command>, retryCmd: Option<Command>, i: nat): set<nat>
    requires i <= |cmds|
    decreases |cmds| - i
  {
    if i == |cmds| then {}
    else if retryCmd == None then {i} + Executed(cmds, None, i + 1)
    else
      var left := if Some(cmds[i]) == retryCmd then None else retryCmd;
      if cmds[i].New? then {i} + Executed(cmds, left, i + 1) else Executed(cmds, left, i + 1)
  }

  lemma {:induction false} ExecutedIff(cmds: seq<Command>, line: Option<Command>, i: nat, k: nat)
    requires i <= |cmds|
    ensures k in Executed(cmds, line, i) <==>
            i <= k < |cmds| && (cmds[k].New? || line == None || FirstAfter(cmds, line.value, i) <= k)
    decreases |cmds| - i
  {
    if i < |cmds| {
      ExecutedIff(cmds, if Some(cmds[i]) == line then None else line, i + 1, k);
    }
  }

  /** One turn of the command loop. */
  lemma ExecutedNext(cmds: seq<Command>, retryCmd: Option<Command>, i: nat)
    requires i < |cmds|
    ensures var left := if Some(cmds[i]) == retryCmd then None else retryCmd;
      Executed(cmds, retryCmd, i) ==
        (if retryCmd == None || cmds[i].New? then {i} else {}) + Executed(cmds, left, i + 1)
  {
  }

  lemma NoneExecuted(cmds: seq<Command>, retryCmd: Option<Command>)
    ensures Executed(cmds, retryCmd, |cmds|) == {}
  {
  }

  /** The line is found at the command before the position where execution resumes. */
  lemma SoughtNext(cmds: seq<Command>, line: Option<Command>, i: nat)
    requires line.Some? && i < |cmds| && i < ResumeAt(cmds, line)
    ensures if cmds[i] == line.value then ResumeAt(cmds, line) == i + 1 else i + 1 < ResumeAt(cmds, line)
  {
  }

  lemma SoughtFrom(cmds: seq<Command>, line: Option<Command>)
    ensures if line == None then ResumeAt(cmds, line) == 0 else 0 < ResumeAt(cmds, line)
  {
  }

  /** All of `ran` are `new` commands. */
  ghost predicate OnlyNew(cmds: seq<Command>, ran: set<nat>) {
    forall k :: k in ran && k < |cmds| ==> cmds[k].New?
  }

  lemma OnlyNewAt(cmds: seq<Command>, ran: set<nat>, k: nat)
    requires k in ran && k < |cmds|
    ensures OnlyNew(cmds, ran) ==> cmds[k].New?
  {
  }

  lemma RunsExactlyNew(cmds: seq<Command>, stale: Command)
    requires stale !in cmds
    ensures forall k :: k in Executed(cmds, Some(stale), 0) <==> 0 <= k < |cmds| && cmds[k].New?
  {
    NeverResumed(cmds, stale, 0);
    forall k: nat ensures k in Executed(cmds, Some(stale), 0) <==> k < |cmds| && cmds[k].New? {
      ExecutedIff(cmds, Some(stale), 0, k);
    }
  }

  ghost predicate RunsRest(cmds: seq<Command>, line: Option<Command>, p: nat) {
    forall k :: p <= k < |cmds| ==> k in Executed(cmds, line, 0)
  }

  ghost predicate PassesOnlyNew(cmds: seq<Command>, line: Option<Command>, p: nat) {
    forall k :: p <= k < |cmds| && k < ResumeAt(cmds, line) ==> cmds[k].New?
  }

  /** The loop carries out everything from position `p` on exactly when all it passes over from
      there are `new` commands, which it runs anyway: the retry file is empty, or its line occurs
      before `p`, or only `new` commands lie between. A line that is not in the list (left by
      another update, or cut short) passes over every command but `new`, and the loop still
      reports success. */
  lemma RetryExecutesRest(cmds: seq<Command>, line: Option<Command>, p: nat)
    requires p <= |cmds|
    ensures RunsRest(cmds, line, p) <==> PassesOnlyNew(cmds, line, p)
    ensures line.Some? && line.value !in cmds ==>
              forall k :: k in Executed(cmds, line, 0) ==> k < |cmds| && cmds[k].New?
  {
    if RunsRest(cmds, line, p) {
      forall k | p <= k < |cmds| && k < ResumeAt(cmds, line) ensures cmds[k].New? {
        ExecutedIff(cmds, line, 0, k);
      }
    }
    if PassesOnlyNew(cmds, line, p) {
      forall k | p <= k < |cmds| ensures k in Executed(cmds, line, 0) {
        ExecutedIff(cmds, line, 0, k);
      }
    }
    if line.Some? && line.value !in cmds {
      NeverResumed(cmds, line.value, 0);
      forall k | k in Executed(cmds, line, 0) ensures k < |cmds| && cmds[k].New? {
        ExecutedIff(cmds, line, 0, k);
      }
    }
  }

  lemma {:induction false} NeverResumed(cmds: seq<Command>, line: Command, i: nat)
    requires line !in cmds && i <= |cmds|
    ensures |cmds| < FirstAfter(cmds, line, i)
    decreases |cmds| - i
  {
    if i < |cmds| {
      NeverResumed(cmds, line, i + 1);
    }
  }
}
