/** What the commands of a list do to the partition and the store, each told from its own arguments:
    the meaning that the uninterrupted run is to have, whatever it is built from. */
module ListMeanings {
  import opened Ranges
  import opened Device
  import opened BlockSets
  import opened MoveBlocks
  import opened TransferLists
  import opened Resume

  /** Ranges `tgt` of `after` hold what ranges `src` of `before` hold, byte by byte. */
  ghost predicate Copied(before: seq<byte>, src: seq<BlockPair>, after: seq<byte>, tgt: seq<BlockPair>) {
    && |Addrs(src)| == |Addrs(tgt)|
    && forall x :: 0 <= x < |Addrs(tgt)| ==>
         && Addrs(src)[x] < |before| && Addrs(tgt)[x] < |after|
         && after[Addrs(tgt)[x]] == before[Addrs(src)[x]]
  }

  /** Ranges `tgt` of `after` hold `data`. */
  ghost predicate Along(after: seq<byte>, tgt: seq<BlockPair>, data: seq<byte>) {
    && |data| == |Addrs(tgt)|
    && forall x :: 0 <= x < |data| ==> Addrs(tgt)[x] < |after| && after[Addrs(tgt)[x]] == data[x]
  }

  /** A write leaves the output along the target. */
  lemma WrittenAlong(j: Job, k: nat)
    requires WellFormed(j) && k < |j.cmds| && j.cmds[k].Writes()
    ensures Along(j.At(k + 1).dev, j.cmds[k].tgt, j.Output(k)) && |j.At(k).dev| == |j.At(k + 1).dev| == |j.image|
  {
    AtSize(j, k);
    AtSize(j, k + 1);
    assert SoundCommand(j, k);
    forall x | 0 <= x < |j.Target(k)|
      ensures j.Target(k)[x] < |j.image| && j.At(k + 1).dev[j.Target(k)[x]] == j.Output(k)[x]
    {
      AtHolds(j, k, k + 1, x);
    }
  }

  /** Move: the target gets the source as it was, whether or not they are the same ranges. */
  lemma MoveMoves(j: Job, k: nat)
    requires WellFormed(j) && k < |j.cmds| && j.cmds[k].Move? && j.cmds[k].source.FromDevice?
    requires |Addrs(j.cmds[k].source.src)| == |Addrs(j.cmds[k].tgt)| && InBounds(Addrs(j.cmds[k].tgt), |j.image|)
    ensures Copied(j.At(k).dev, j.cmds[k].source.src, j.At(k + 1).dev, j.cmds[k].tgt)
  {
    var c := j.cmds[k];
    AtSize(j, k);
    AtSize(j, k + 1);
    assert SoundCommand(j, k);
    if c.source.src != c.tgt {
      WrittenAlong(j, k);
      var s, t, buffer := Addrs(c.source.src), Addrs(c.tgt), j.Buffer(k);
      forall x | 0 <= x < |t| ensures s[x] < |j.image| && j.At(k + 1).dev[t[x]] == j.At(k).dev[s[x]] {
        assert j.Output(k)[x] == buffer[x] == j.At(k).dev[s[x]];
      }
    }
  }

  /** Diff: the target gets what the patch makes of the assembled source. */
  lemma DiffApplies(j: Job, k: nat)
    requires WellFormed(j) && k < |j.cmds| && j.cmds[k].Diff?
    ensures var c := j.cmds[k];
      Along(j.At(k + 1).dev, c.tgt,
            j.env.apply(c.patch, Assembled(j.At(k).dev, j.At(k).store, c.source, c.size * BLOCK_SIZE)))
  {
    WrittenAlong(j, k);
    PatchMakes(j, k);
  }

  /** Move, if the ranges are not the same text: the target gets the front of the assembled source. */
  lemma MoveTakes(j: Job, k: nat)
    requires WellFormed(j) && k < |j.cmds| && j.cmds[k].Move?
    requires j.cmds[k].source.FromStashes? || j.cmds[k].source.src != j.cmds[k].tgt
    ensures var c := j.cmds[k];
      var buffer := Assembled(j.At(k).dev, j.At(k).store, c.source, c.size * BLOCK_SIZE);
      |Addrs(c.tgt)| <= |buffer| && Along(j.At(k + 1).dev, c.tgt, buffer[..|Addrs(c.tgt)|])
  {
    WrittenAlong(j, k);
    PatchMakes(j, k);
  }

  lemma PatchMakes(j: Job, k: nat)
    requires WellFormed(j) && k < |j.cmds| && j.cmds[k].Patches()
    ensures var c := j.cmds[k];
      var buffer := Assembled(j.At(k).dev, j.At(k).store, c.source, c.size * BLOCK_SIZE);
      && j.Output(k) == Made(j.env, c, buffer) && |j.Output(k)| == |Addrs(c.tgt)|
  {
    hide Assembled, Made, Job.At;
    assert SoundCommand(j, k);
  }

  /** A diff, and a move between ranges that are not the same text, leave their target with the
      digest they name. */
  lemma TargetDigest(j: Job, k: nat)
    requires WellFormed(j) && k < |j.cmds|
    requires var c := j.cmds[k]; c.Diff? || (c.Move? && (c.source.FromStashes? || c.source.src != c.tgt))
    ensures var c, dev := j.cmds[k], j.At(k + 1).dev;
      && InBounds(Addrs(c.tgt), |dev|)
      && j.env.hash(Gather(dev, Addrs(c.tgt))) == if c.Diff? then c.tgtHash else c.srcHash
  {
    WrittenAlong(j, k);
    assert SoundCommand(j, k);
    assert Gather(j.At(k + 1).dev, Addrs(j.cmds[k].tgt)) == j.Output(k);
  }

  /** New: the next bytes of the stream. */
  lemma NewTakes(j: Job, k: nat)
    requires WellFormed(j) && k < |j.cmds| && j.cmds[k].New?
    ensures var from, n := j.NewOffset(k), |Addrs(j.cmds[k].tgt)|;
      from + n <= |j.stream| && Along(j.At(k + 1).dev, j.cmds[k].tgt, j.stream[from..from + n])
  {
    WrittenAlong(j, k);
    assert SoundCommand(j, k);
  }

  /** Zero: zeros. */
  lemma ZeroZeros(j: Job, k: nat)
    requires WellFormed(j) && k < |j.cmds| && j.cmds[k].Zero?
    ensures var dev, t := j.At(k + 1).dev, Addrs(j.cmds[k].tgt);
      forall x :: 0 <= x < |t| ==> t[x] < |dev| && dev[t[x]] == 0
  {
    WrittenAlong(j, k);
  }

  /** No command touches the device but along its target, and stash, free and abort not at all. */
  lemma OthersStay(j: Job, k: nat, a: nat)
    requires WellFormed(j) && k < |j.cmds| && a < |j.image|
    requires var c := j.cmds[k]; c.Stash? || c.Free? || c.Abort? || a !in Addrs(c.tgt)
    ensures |j.At(k).dev| == |j.At(k + 1).dev| == |j.image| && j.At(k + 1).dev[a] == j.At(k).dev[a]
  {
    AtFrame(j, k, a);
  }

  ghost predicate SameBut(was: Store, now: Store, id: Digest) {
    forall h :: h != id ==> (h in now <==> h in was) && (h in was ==> now[h] == was[h])
  }

  /** A stash puts its source under the digest it names, unless there is one already or the digest
      is not its; free takes it away; nothing else touches the store. */
  lemma StoreAfter(j: Job, k: nat)
    requires WellFormed(j) && k < |j.cmds|
    ensures var c, was, now := j.cmds[k], j.At(k).store, j.At(k + 1).store;
      && (c.Stash? ==>
            && InBounds(Addrs(c.src), |j.At(k).dev|)
            && var content := Gather(j.At(k).dev, Addrs(c.src));
               now == if c.id !in was && j.env.hash(content) == c.id then was[c.id := content] else was)
      && (c.Free? ==> c.id !in now && SameBut(was, now, c.id))
      && (!c.Stash? && !c.Free? ==> now == was)
  {
    AtSize(j, k);
    assert SoundCommand(j, k);
    if j.cmds[k].Stash? {
      var src := Addrs(j.cmds[k].src);
      assert Gather(j.At(k).dev, src) == ReadSource(j.At(k).dev, j.cmds[k].src, |src|);
    }
  }
}
