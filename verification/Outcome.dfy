/** What one boot leaves on the device, whatever it found there, in the store and in the retry
    file: the output of every command it carried out, and nothing else. */
module Outcomes {
  import opened Ranges
  import opened Device
  import opened BlockSets
  import opened MoveBlocks
  import opened TransferLists
  import opened Resume

  /** The output of command `k` lies along its target. */
  ghost predicate Laid(j: Job, k: nat, dev: seq<byte>)
    requires k < |j.cmds|
  {
    && |j.Output(k)| == |j.Target(k)|
    && forall x :: 0 <= x < |j.Target(k)| ==> j.Target(k)[x] < |dev| && dev[j.Target(k)[x]] == j.Output(k)[x]
  }

  /** One of the commands `ran` writes byte `a`. */
  ghost predicate Covers(j: Job, ran: set<nat>, a: nat) {
    exists k :: k in ran && k < |j.cmds| && a in j.Target(k)
  }

  /** Nothing but the targets of `ran` has changed. */
  ghost predicate Spared(j: Job, dev: seq<byte>, dev': seq<byte>, ran: set<nat>) {
    && |dev'| == |dev|
    && forall a :: 0 <= a < |dev| && !Covers(j, ran, a) ==> dev'[a] == dev[a]
  }

  ghost predicate Outcome(j: Job, dev: seq<byte>, dev': seq<byte>, ran: set<nat>) {
    && Spared(j, dev, dev', ran)
    && forall k :: k in ran ==> k < |j.cmds| && Laid(j, k, dev')
  }

  lemma SparedMore(j: Job, dev: seq<byte>, dev': seq<byte>, dev'': seq<byte>, ran: set<nat>, i: nat)
    requires Spared(j, dev, dev', ran) && i < |j.cmds| && SameOutside(dev', dev'', j.Target(i))
    ensures Spared(j, dev, dev'', ran + {i})
  {
    forall a | 0 <= a < |dev| && !Covers(j, ran + {i}, a) ensures dev''[a] == dev[a] {
      CoversMore(j, ran, i, a);
    }
  }

  lemma CoversMore(j: Job, ran: set<nat>, i: nat, a: nat)
    requires i < |j.cmds|
    ensures Covers(j, ran + {i}, a) <==> Covers(j, ran, a) || a in j.Target(i)
  {
    forall k | k in ran && k < |j.cmds| && a in j.Target(k) ensures Covers(j, ran + {i}, a) {
      assert k in ran + {i};
    }
    assert i in ran + {i};
  }

  lemma SparedNothing(j: Job, dev: seq<byte>, ran: set<nat>)
    ensures Spared(j, dev, dev, ran)
  {
  }

  lemma NothingRun(j: Job, dev: seq<byte>)
    ensures Outcome(j, dev, dev, {})
  {
  }

  lemma OutcomeSpares(j: Job, dev: seq<byte>, dev': seq<byte>, ran: set<nat>)
    requires Outcome(j, dev, dev', ran)
    ensures Spared(j, dev, dev', ran)
  {
  }

  /** One more of the commands `all`. */
  lemma SparedNext(j: Job, dev: seq<byte>, dev': seq<byte>, dev'': seq<byte>, ran: set<nat>, i: nat, all: set<nat>)
    requires Outcome(j, dev, dev', ran) && i < |j.cmds| && SameOutside(dev', dev'', j.Target(i)) && ran + {i} <= all
    ensures Spared(j, dev, dev'', all)
  {
    SparedMore(j, dev, dev', dev'', ran, i);
    forall a | 0 <= a < |dev| && Covers(j, ran + {i}, a) ensures Covers(j, all, a) {
      var k :| k in ran + {i} && k < |j.cmds| && a in j.Target(k);
      assert k in all;
    }
  }

  /** Targets are disjoint: what one command has laid the next one leaves. */
  lemma OutcomeNext(j: Job, dev: seq<byte>, dev': seq<byte>, dev'': seq<byte>, ran: set<nat>, i: nat)
    requires WellFormed(j) && Outcome(j, dev, dev', ran) && i < |j.cmds| && i !in ran
    requires SameOutside(dev', dev'', j.Target(i)) && Laid(j, i, dev'')
    ensures Outcome(j, dev, dev'', ran + {i})
  {
    SparedMore(j, dev, dev', dev'', ran, i);
    forall k | k in ran ensures Laid(j, k, dev'') {
      var t := j.Target(k);
      forall x | 0 <= x < |t| ensures dev''[t[x]] == j.Output(k)[x] {
        assert if i < k then Apart(j.Target(i), t) else Apart(t, j.Target(i));
        assert t[x] !in j.Target(i);
      }
    }
  }

  lemma {:induction false} AtUntouched(j: Job, p: nat, a: nat)
    requires p <= |j.cmds| && a < |j.image| && forall k :: 0 <= k < p ==> a !in j.Target(k)
    ensures |j.At(p).dev| == |j.image| && j.At(p).dev[a] == j.image[a]
  {
    AtSize(j, p);
    if 0 < p {
      AtUntouched(j, p - 1, a);
      AtFrame(j, p - 1, a);
    }
  }

  lemma LaidIsIdeal(j: Job, k: nat, dev: seq<byte>, a: nat)
    requires WellFormed(j) && k < |j.cmds| && Laid(j, k, dev) && a in j.Target(k)
    ensures a < |dev| && |j.At(|j.cmds|).dev| == |j.image| && a < |j.image| && dev[a] == j.At(|j.cmds|).dev[a]
  {
    var x :| 0 <= x < |j.Target(k)| && j.Target(k)[x] == a;
    AtHolds(j, k, |j.cmds|, x);
  }

  lemma IdealIsLaid(j: Job, k: nat)
    requires WellFormed(j) && k < |j.cmds|
    ensures Laid(j, k, j.At(|j.cmds|).dev)
  {
    assert SoundCommand(j, k);
    if !j.cmds[k].Writes() {
      assert j.Output(k) == [];
    }
    var ideal, t := j.At(|j.cmds|).dev, j.Target(k);
    forall x | 0 <= x < |t| ensures t[x] < |ideal| && ideal[t[x]] == j.Output(k)[x] {
      AtHolds(j, k, |j.cmds|, x);
    }
  }

  /** The device holds the original bytes wherever no command of the list writes. */
  ghost predicate Original(j: Job, dev: seq<byte>) {
    |dev| == |j.image| && forall a :: 0 <= a < |dev| && !Targeted(j, a) ==> dev[a] == j.image[a]
  }

  ghost predicate Targeted(j: Job, a: nat) {
    exists k :: 0 <= k < |j.cmds| && a in j.Target(k)
  }

  /** A boot that carries out the commands `ran` leaves the image of an uninterrupted run if and
      only if every command it passes over had its output on the device before. */
  lemma OutcomeIsIdeal(j: Job, dev: seq<byte>, dev': seq<byte>, ran: set<nat>)
    requires WellFormed(j) && Original(j, dev) && Outcome(j, dev, dev', ran)
    ensures dev' == j.At(|j.cmds|).dev <==> forall k :: 0 <= k < |j.cmds| && k !in ran ==> Laid(j, k, dev)
  {
    var ideal := j.At(|j.cmds|).dev;
    AtSize(j, |j.cmds|);
    if forall k :: 0 <= k < |j.cmds| && k !in ran ==> Laid(j, k, dev) {
      forall a | 0 <= a < |dev| ensures dev'[a] == ideal[a] {
        OutcomeAt(j, dev, dev', ran, a);
      }
    }
    if dev' == ideal {
      forall k | 0 <= k < |j.cmds| && k !in ran ensures Laid(j, k, dev) {
        IdealIsLaid(j, k);
        forall x | 0 <= x < |j.Target(k)| ensures dev[j.Target(k)[x]] == j.Output(k)[x] {
          NotCovered(j, ran, k, j.Target(k)[x]);
        }
      }
    }
  }

  lemma NotCovered(j: Job, ran: set<nat>, k: nat, a: nat)
    requires WellFormed(j) && k < |j.cmds| && k !in ran && a in j.Target(k)
    ensures !Covers(j, ran, a)
  {
    forall i | i in ran && i < |j.cmds| ensures a !in j.Target(i) {
      assert if i < k then Apart(j.Target(i), j.Target(k)) else Apart(j.Target(k), j.Target(i));
    }
  }

  lemma OutcomeAt(j: Job, dev: seq<byte>, dev': seq<byte>, ran: set<nat>, a: nat)
    requires WellFormed(j) && Original(j, dev) && Outcome(j, dev, dev', ran) && a < |dev|
    requires forall k :: 0 <= k < |j.cmds| && k !in ran ==> Laid(j, k, dev)
    ensures |j.At(|j.cmds|).dev| == |dev| && dev'[a] == j.At(|j.cmds|).dev[a]
  {
    AtSize(j, |j.cmds|);
    if k :| 0 <= k < |j.cmds| && a in j.Target(k) {
      if k in ran {
        LaidIsIdeal(j, k, dev', a);
      } else {
        NotCovered(j, ran, k, a);
        LaidIsIdeal(j, k, dev, a);
      }
    } else {
      assert !Targeted(j, a);
      AtUntouched(j, |j.cmds|, a);
    }
  }

  // ---------------------------------------------------------------- what a command lays

  lemma ScatterLays(j: Job, k: nat, dev: seq<byte>)
    requires WellFormed(j) && k < |j.cmds| && |dev| == |j.image|
    ensures |j.Output(k)| == |j.Target(k)| && Laid(j, k, Scatter(dev, j.Target(k), j.Output(k)))
  {
    assert SoundCommand(j, k);
    forall x | 0 <= x < |j.Target(k)|
      ensures j.Target(k)[x] < |dev| && Scatter(dev, j.Target(k), j.Output(k))[j.Target(k)[x]] == j.Output(k)[x]
    {
      ScatterAt(dev, j.Target(k), j.Output(k), x);
    }
  }

  lemma NothingToLay(j: Job, k: nat, dev: seq<byte>)
    requires k < |j.cmds| && !j.cmds[k].Writes()
    ensures Laid(j, k, dev)
  {
  }

  /** The digest of the target is injective: where it is right the output is there. */
  lemma MatchLays(j: Job, k: nat, dev: seq<byte>)
    requires WellFormed(j) && k < |j.cmds| && j.cmds[k].Patches() && |dev| == |j.image|
    requires j.env.hash(ReadSource(dev, j.cmds[k].tgt, |Addrs(j.cmds[k].tgt)|)) == j.cmds[k].TargetHash()
    ensures Laid(j, k, dev)
  {
    assert SoundCommand(j, k);
    var t := j.Target(k);
    var got := ReadSource(dev, j.cmds[k].tgt, |t|);
    assert got == j.Output(k);
    forall x | 0 <= x < |t| ensures t[x] < |dev| && dev[t[x]] == j.Output(k)[x] {
      assert got[x] == dev[t[x]];
    }
  }

  /** What a diff or move needs to know to be carried out, whatever the device holds. */
  lemma PatchSound(j: Job, k: nat, store: Store)
    requires WellFormed(j) && k < |j.cmds| && j.cmds[k].Patches() && Named(j, store)
    ensures var c := j.cmds[k];
      && InBuffers(store, c.source, c.size * BLOCK_SIZE)
      && (forall b :: j.env.hash(b) == c.srcHash ==> b == j.Buffer(k))
      && j.env.hash(j.Buffer(k)) == c.srcHash
      && (c.Move? ==> |Addrs(c.tgt)| <= |j.Buffer(k)|)
      && Made(j.env, c, j.Buffer(k)) == j.Output(k)
  {
    assert SoundCommand(j, k);
    var refs := Refs(j.cmds[k].source);
    forall x | 0 <= x < |refs| && refs[x].id in store ensures store[refs[x].id] == j.At(k).store[refs[x].id] {
      AtStoreSound(j, k, refs[x].id);
    }
  }
}
