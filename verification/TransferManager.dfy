/** services/applypatch/transfer_manager.cpp and the commands it runs, in the in-place updater
    mode: one device that is both source and target, a stash directory, and a retry file. Any
    operation on any of the three may fail; a run stops at the first failure it notices and a
    later boot retries, so a power cut is a failure after which nothing happens. */
module TransferManagers {
  import opened Ranges
  import opened Device
  import opened BlockSets
  import opened BlockWriters
  import opened MoveBlocks
  import opened TransferLists
  import opened Resume
  import opened Outcomes

  /** What becomes of an operation on the stash directory or the retry file. A failing rewrite
      of the retry file leaves the old line, or (it is truncated first) an empty file. */
  datatype FileFault = Works | Breaks(emptied: bool)

  class TransferManager {
    const env: Env
    const disk: BlockDevice
    const newData: seq<byte>
    const faults: nat -> FileFault
    var ops: nat
    // kept across boots
    var store: Store
    var retryFile: Option<Command>
    // lost on a reboot
    var freeStash: Option<Digest>
    var newPos: nat

    constructor (env: Env, disk: BlockDevice, newData: seq<byte>, faults: nat -> FileFault,
                 store: Store, retryFile: Option<Command>)
      ensures this.env == env && this.disk == disk && this.newData == newData && this.faults == faults
      ensures this.store == store && this.retryFile == retryFile && freeStash == None && newPos == 0
      ensures ops == 0
    {
      this.env, this.disk, this.newData, this.faults := env, disk, newData, faults;
      this.store, this.retryFile, freeStash, newPos, ops := store, retryFile, None, 0, 0;
    }

    /** Nothing fails. */
    ghost predicate Faultless() {
      (forall k :: disk.faults(k).Fine?) && (forall k :: faults(k).Works?)
    }

    /** Nothing fails that is done to the store or the retry file from operation `lo` up to `hi`. */
    ghost predicate FilesFine(lo: nat, hi: nat) {
      forall k :: lo <= k < hi ==> faults(k).Works?
    }

    // -------------------------------------------------------------- files

    /** Store::WriteDataToStore, taken as atomic. */
    method WriteDataToStore(id: Digest, content: seq<byte>) returns (ok: bool)
      modifies this`store, this`ops
      ensures store == if ok then old(store)[id := content] else old(store)
      ensures ok == old(faults(ops)).Works? && ops == old(ops) + 1
    {
      ok := faults(ops).Works?;
      ops := ops + 1;
      if ok {
        store := store[id := content];
      }
    }

    /** Store::FreeStore: deleting a file that is not there succeeds. */
    method FreeStore(id: Digest) returns (ok: bool)
      modifies this`store, this`ops
      ensures store == if ok then old(store) - {id} else old(store)
      ensures ok == old(faults(ops)).Works? && ops == old(ops) + 1
    {
      ok := faults(ops).Works?;
      ops := ops + 1;
      if ok {
        store := store - {id};
      }
    }

    method RegisterForRetry(c: Command) returns (ok: bool)
      modifies this`retryFile, this`ops
      ensures ok == old(faults(ops)).Works? && ops == old(ops) + 1
      ensures retryFile == if ok then Some(c) else if old(faults(ops)).emptied then None else old(retryFile)
    {
      var fault := faults(ops);
      ops := ops + 1;
      ok := fault.Works?;
      if ok {
        retryFile := Some(c);
      } else if fault.emptied {
        retryFile := None;
      }
    }

    // -------------------------------------------------------------- new, zero, stash, free

    /** NewCommandFn::Execute: the next bytes of the unpacked stream go over the target. The
        command fails when the stream ends first, or the writer never reports that it is done. */
    method ExecuteNew(tgt: seq<BlockPair>) returns (ok: bool)
      requires newPos <= |newData|
      modifies disk, this`newPos
      ensures SameOutside(old(disk.content), disk.content, Addrs(tgt))
      ensures newPos <= |newData|
      ensures ok ==> newPos == old(newPos) + |Addrs(tgt)|
      ensures ok ==> disk.content == Scatter(old(disk.content), Addrs(tgt), newData[old(newPos)..newPos])
      ensures Faultless() && Writable(tgt, |disk.content|) && old(newPos) + |Addrs(tgt)| <= |newData| ==> ok
    {
      hide Addrs, Scatter, TotalBlocks;
      var writer := new BlockWriter(disk, tgt);
      writer.DoneWhenFull();
      SomethingToWrite(tgt, |disk.content|);
      var n := Min(writer.GetBlocksSize(), |newData| - newPos);
      ok := writer.Write(newData[newPos..newPos + n]);
      newPos := newPos + n;
      if ok {
        assert writer.accepted == newData[old(newPos)..newPos];
        writer.DoneWhenFull();
        ok := writer.IsWriteDone();
      }
    }

    /** ZeroAndEraseCommandFn::Execute for `zero`. */
    method ExecuteZero(tgt: seq<BlockPair>) returns (ok: bool)
      modifies disk
      ensures SameOutside(old(disk.content), disk.content, Addrs(tgt))
      ensures ok ==> disk.content == Scatter(old(disk.content), Addrs(tgt), Zeros(|Addrs(tgt)|))
      ensures Faultless() && InBounds(Addrs(tgt), |disk.content|) ==> ok
    {
      ok := WriteZeroToBlock(disk, tgt);
    }

    /** StashCommandFn::Execute: a stash that is there is kept; a source that does not have the
        right digest is passed over, and the command still succeeds. */
    method ExecuteStash(id: Digest, src: seq<BlockPair>) returns (ok: bool)
      modifies disk`pos, this`store, this`ops
      ensures store == old(store) ||
              (id !in old(store) && id in store && env.hash(store[id]) == id && store == old(store)[id := store[id]])
      ensures InBounds(Addrs(src), |disk.content|) && ok && id !in store ==>
                env.hash(ReadSource(disk.content, src, |Addrs(src)|)) != id
      ensures InBounds(Addrs(src), |disk.content|) && 0 < |Addrs(src)| && FilesFine(old(ops), ops) ==> ok
      ensures old(ops) <= ops
    {
      var buffer := new byte[TotalBlocks(src) * BLOCK_SIZE](_ => 0);
      assert buffer[..] == Zeros(|Addrs(src)|);
      if id in store {
        return true;
      }
      var got := ReadDataFromBlock(disk, src, buffer);
      if got == 0 {
        return false;
      }
      if env.hash(buffer[..]) != id {
        return true;
      }
      ok := WriteDataToStore(id, buffer[..]);
    }

    /** FreeCommandFn::Execute. */
    method ExecuteFree(id: Digest) returns (ok: bool)
      modifies this`store, this`ops
      ensures store == if ok then old(store) - {id} else old(store)
      ensures ok == old(faults(ops)).Works? && ops == old(ops) + 1
    {
      ok := FreeStore(id);
    }
  
    // -------------------------------------------------------------- diff and move

    /** BlockSet::LoadStashBuffer. */
    method LoadStashBuffer(refs: seq<StashRef>, buffer: array<byte>) returns (ok: bool)
      requires StashesFit(store, refs, buffer.Length)
      modifies buffer
      ensures ok ==> buffer[..] == PlaceAll(store, refs, old(buffer[..]))
      ensures ok <==> AllStored(store, refs)
    {
      hide MovedFrom, MovedInPlace, Fits, PlaceAll;
      ghost var was := buffer[..];
      NonePlaced(store, was);
      assert refs[..0] == [];
      for i := 0 to |refs|
        invariant forall j :: 0 <= j < i ==> refs[j].id in store
        invariant buffer[..] == PlaceAll(store, refs[..i], was)
      {
        if refs[i].id !in store {
          return false;
        }
        var content := store[refs[i].id];
        var stash := new byte[|content|](k requires 0 <= k < |content| => content[k]);
        assert stash[..] == content;
        MoveBlock(buffer, refs[i].locs, stash);
        PlacedNext(store, refs, i, was);
      }
      assert refs[..|refs|] == refs;
      ok := true;
    }

    /** BlockSet::LoadSourceBuffer, into a buffer of zeros. */
    method LoadSourceBuffer(source: Source, buffer: array<byte>) returns (ok: bool)
      requires InBuffers(store, source, buffer.Length) && buffer[..] == Zeros(buffer.Length)
      modifies disk`pos, buffer
      ensures ok ==> buffer[..] == Assembled(disk.content, store, source, buffer.Length)
      ensures Available(|disk.content|, store, source, buffer.Length) ==> ok
    {
      if !source.FromStashes? {
        var got := ReadDataFromBlock(disk, source.src, buffer);
        if got == 0 {
          return false;
        }
        if source.FromDevice? {
          return true;
        }
        MoveBlock(buffer, source.locs, buffer);
      }
      ok := LoadStashBuffer(source.stashes, buffer);
    }
  
    /** BlockSet::LoadTargetBuffer. `want` is the one buffer with the digest in the command: it
        comes from the device, and is first put in the store if the target overlaps the source;
        or, if the device no longer has it, from the store. */
    method LoadTargetBuffer(c: Command, ghost want: seq<byte>) returns (ok: bool, data: seq<byte>)
      requires c.Patches() && freeStash == None
      requires InBuffers(store, c.source, c.size * BLOCK_SIZE)
      requires forall b :: env.hash(b) == c.srcHash ==> b == want
      requires c.srcHash in store ==> env.hash(store[c.srcHash]) == c.srcHash
      modifies disk`pos, this`store, this`ops, this`freeStash
      ensures store == old(store) ||
              (c.srcHash !in old(store) && env.hash(want) == c.srcHash && store == old(store)[c.srcHash := want])
      ensures freeStash == None || (freeStash == Some(c.srcHash) && c.srcHash !in old(store))
      ensures ok ==> data == want && (c.Overlaps() ==> c.srcHash in store)
      ensures ok ==> (freeStash == None <==> store == old(store))
      ensures old(ops) <= ops
      ensures (Faultless() && Available(|disk.content|, store, c.source, c.size * BLOCK_SIZE)
               && Recoverable(c, disk.content, old(store))) ==> ok
    {
      data := [];
      var buffer := new byte[c.size * BLOCK_SIZE](_ => 0);
      assert buffer[..] == Zeros(buffer.Length);
      ok := LoadSourceBuffer(c.source, buffer);
      if !ok {
        return;
      }
      data := buffer[..];
      if env.hash(data) == c.srcHash {
        var isOverlap := false;
        if !c.source.FromStashes? {
          isOverlap := IsTwoBlocksOverlap(c.source.src, c.tgt);
        }
        if isOverlap && c.srcHash !in store {
          freeStash := Some(c.srcHash);
          ok := WriteDataToStore(c.srcHash, data);
        }
      } else if c.srcHash in store {
        data := store[c.srcHash];
      } else {
        ok := false;
      }
    }

    /** The source buffer can be had from the device or from the store. */
    ghost predicate Recoverable(c: Command, dev: seq<byte>, stash: Store)
      requires c.Patches()
    {
      env.hash(Assembled(dev, stash, c.source, c.size * BLOCK_SIZE)) == c.srcHash || c.srcHash in stash
    }

    /** The target already has the digest the command is to give it. */
    ghost predicate Matches(c: Command, dev: seq<byte>)
      requires c.Patches()
    {
      env.hash(ReadSource(dev, c.tgt, |Addrs(c.tgt)|)) == c.TargetHash()
    }

    /** Write what the patch produces, or, for a move, the source buffer. */
    method WriteTarget(c: Command, data: seq<byte>) returns (ok: bool)
      requires c.Patches() && (c.Move? ==> |Addrs(c.tgt)| <= |data|)
      modifies disk
      ensures SameOutside(old(disk.content), disk.content, Addrs(c.tgt))
      ensures ok ==> disk.content == Lay(old(disk.content), Addrs(c.tgt), Made(env, c, data))
      ensures (Faultless() && InBounds(Addrs(c.tgt), |disk.content|) && 0 < |Addrs(c.tgt)|
               && |Made(env, c, data)| <= |Addrs(c.tgt)|) ==> ok
    {
      if c.Diff? {
        var out := env.apply(c.patch, data);
        if out == [] {
          return true;
        }
        assert Flatten([out]) == out;
        ok := WriteChunks(disk, c.tgt, [out]);
      } else {
        var buffer := new byte[|data|](k requires 0 <= k < |data| => data[k]);
        assert buffer[..] == data;
        var written := WriteDataToBlock(disk, c.tgt, buffer);
        ok := written != 0;
      }
    }

    /** Nothing but a fault can make the command fail. */
    ghost predicate Executable(c: Command, want: seq<byte>, dev: seq<byte>, stash: Store)
      requires c.Patches() && InBuffers(stash, c.source, c.size * BLOCK_SIZE)
    {
      && InBounds(Addrs(c.tgt), |dev|) && 0 < |Addrs(c.tgt)|
      && (|| Matches(c, dev)
          || (&& |Made(env, c, want)| <= |Addrs(c.tgt)|
              && Available(|dev|, stash, c.source, c.size * BLOCK_SIZE) && Recoverable(c, dev, stash)))
    }

    /** DiffAndMoveCommandFn::Execute. Until the target is complete, a source it overlaps stays
        in the store. */
    method ExecutePatch(c: Command, ghost want: seq<byte>) returns (ok: bool)
      requires c.Patches() && freeStash == None
      requires InBuffers(store, c.source, c.size * BLOCK_SIZE)
      requires forall b :: env.hash(b) == c.srcHash ==> b == want
      requires c.srcHash in store ==> env.hash(store[c.srcHash]) == c.srcHash
      requires c.Move? ==> |Addrs(c.tgt)| <= |want|
      modifies disk, this`store, this`ops, this`freeStash
      ensures SameOutside(old(disk.content), disk.content, Addrs(c.tgt))
      ensures store == old(store) ||
              (c.srcHash !in old(store) && env.hash(want) == c.srcHash && store == old(store)[c.srcHash := want])
      ensures ok ==> freeStash == None && (FilesFine(old(ops), ops) ==> store == old(store))
      ensures old(ops) <= ops
      ensures old(Matches(c, disk.content)) ==> disk.content == old(disk.content) && store == old(store)
      ensures ok ==> ((disk.content == old(disk.content) && Matches(c, disk.content))
                      || disk.content == Lay(old(disk.content), Addrs(c.tgt), Made(env, c, want)))
      ensures !ok ==> disk.content == old(disk.content) || !c.Overlaps() || c.srcHash in store
      ensures Faultless() && old(Executable(c, want, disk.content, store)) ==> ok
    {
      hide Assembled, Lay, Made, InBounds, Addrs;
      var target := new byte[TotalBlocks(c.tgt) * BLOCK_SIZE](_ => 0);
      assert target[..] == Zeros(|Addrs(c.tgt)|);
      var got := ReadDataFromBlock(disk, c.tgt, target);
      if got == 0 {
        return false;
      }
      if env.hash(target[..]) == c.TargetHash() {
        return true;
      }
      var data;
      ok, data := LoadTargetBuffer(c, want);
      if !ok {
        return;
      }
      ok := WriteTarget(c, data);
      if ok && freeStash.Some? {
        var freed := FreeStore(freeStash.value);
        freeStash := None;
      }
    }
  
    // -------------------------------------------------------------- the command loop

    /** What every boot may count on, whatever it finds in the retry file and on the device. */
    ghost predicate Basic(j: Job)
      reads this, disk
    {
      WellFormed(j) && env == j.env && newData == j.stream && |disk.content| == |j.image| && Named(j, store)
    }

    /** The next command is `i`. */
    ghost predicate AtTurn(j: Job, i: nat)
      reads this, disk
    {
      Basic(j) && i < |j.cmds| && freeStash == None && newPos == j.NewOffset(i)
    }

    /** The state of this object and its device is one that a run of `j` may be in: see Resume. */
    ghost predicate Holding(j: Job, i: nat, p: nat)
      reads this, disk
    {
      Ready(j, disk.content, store, ResumeAt(j.cmds, retryFile), i, p)
    }

    /** Execution is due at `i`: it has not been reached before, or is past the line in the retry
        file, or repeats a `new`. */
    ghost predicate Due(j: Job, i: nat, p: nat)
      reads this, disk
    {
      AtTurn(j, i) && Holding(j, i, p) && (i == p || j.cmds[i].New? || ResumeAt(j.cmds, retryFile) <= i)
    }

    /** What every command leaves. If it succeeds, its output; if it does not, something on its
        target, and nothing elsewhere. */
    twostate predicate Effected(j: Job, i: nat, ok: bool)
      requires i < |j.cmds|
      reads this, disk
    {
      && Basic(j) && SameOutside(old(disk.content), disk.content, j.Target(i))
      && (ok ==> Laid(j, i, disk.content) && freeStash == None && newPos == j.NewOffset(i + 1))
    }

    /** And if it was due: the next position on success, a resumable state on failure. */
    twostate predicate Advanced(j: Job, i: nat, p: nat, ok: bool)
      reads this, disk
    {
      && (ok ==> Holding(j, i + 1, Next(i, p)))
      && (!ok ==> Holding(j, 0, p))
      && (Faultless() ==> ok)
    }

    static function Next(i: nat, p: nat): nat {
      if i == p then p + 1 else p
    }

    method RunNew(tgt: seq<BlockPair>, ghost j: Job, ghost i: nat, ghost p: nat) returns (ok: bool)
      requires AtTurn(j, i) && j.cmds[i] == New(tgt)
      modifies disk, this`newPos
      ensures Effected(j, i, ok) && (Faultless() ==> ok)
      ensures old(Due(j, i, p)) ==> Advanced(j, i, p, ok)
    {
      hide WellFormed, Stocked, Scatter, Addrs, InBounds, Laid, Ready;
      ghost var dev, r, due := disk.content, ResumeAt(j.cmds, retryFile), Due(j, i, p);
      NewOutput(j, i);
      ok := ExecuteNew(tgt);
      if ok {
        assert disk.content == Scatter(dev, j.Target(i), j.Output(i));
        ScatterLays(j, i, dev);
        if due {
          Completed(j, dev, store, r, i, p);
        }
      } else if due {
        ReadyTorn(j, dev, disk.content, store, r, i, p);
        ReadyAgain(j, disk.content, store, r, i, p, r, 0);
      }
    }

    method RunZero(tgt: seq<BlockPair>, ghost j: Job, ghost i: nat, ghost p: nat) returns (ok: bool)
      requires AtTurn(j, i) && j.cmds[i] == Zero(tgt)
      modifies disk
      ensures Effected(j, i, ok)
      ensures old(Due(j, i, p)) ==> Advanced(j, i, p, ok)
    {
      hide WellFormed, Stocked, Laid, Ready, Scatter, InBounds, Addrs, Job.Output, Zeros;
      ghost var dev, r, due := disk.content, ResumeAt(j.cmds, retryFile), Due(j, i, p);
      ZeroOutput(j, i);
      ok := ExecuteZero(tgt);
      if ok {
        assert disk.content == Scatter(dev, j.Target(i), j.Output(i));
        ScatterLays(j, i, dev);
        if due {
          Completed(j, dev, store, r, i, p);
        }
      } else if due {
        ReadyTorn(j, dev, disk.content, store, r, i, p);
        ReadyAgain(j, disk.content, store, r, i, p, r, 0);
      }
    }

    lemma PatchIsDue(j: Job, i: nat, p: nat)
      requires Due(j, i, p) && j.cmds[i].Patches()
      ensures var c := j.cmds[i];
        && InBuffers(store, c.source, c.size * BLOCK_SIZE)
        && Executable(c, j.Buffer(i), disk.content, store)
        && (i < p ==> Matches(c, disk.content))
    {
      var r := ResumeAt(j.cmds, retryFile);
      assert SoundCommand(j, i);
      StashesSame(j, store, i, p);
      if i < p {
        TargetMatches(j, disk.content, store, r, i, p);
      } else {
        SourceRecoverable(j, disk.content, store, r, p);
      }
    }

    method RunPatch(c: Command, ghost j: Job, ghost i: nat, ghost p: nat) returns (ok: bool)
      requires AtTurn(j, i) && j.cmds[i] == c && c.Patches()
      modifies disk, this`store, this`ops, this`freeStash
      ensures Effected(j, i, ok)
      ensures old(ops) <= ops
      ensures old(Due(j, i, p)) ==> Advanced(j, i, p, ok)
    {
      hide WellFormed, Clean, Executable, Laid, Ready, Stocked;
      ghost var dev, was, r, due := disk.content, store, ResumeAt(j.cmds, retryFile), Due(j, i, p);
      PatchSound(j, i, store);
      if due {
        PatchIsDue(j, i, p);
      }
      ok := ExecutePatch(c, j.Buffer(i));
      if ok {
        PatchLaid(j, i, dev, disk.content);
      }
      if due {
        PatchAdvances(j, dev, was, disk.content, store, r, i, p, ok);
      }
    }

    method RunStash(id: Digest, src: seq<BlockPair>, ghost j: Job, ghost i: nat, ghost p: nat) returns (ok: bool)
      requires AtTurn(j, i) && j.cmds[i] == Stash(id, src)
      modifies disk`pos, this`store, this`ops
      ensures Effected(j, i, ok)
      ensures old(ops) <= ops
      ensures old(Due(j, i, p)) ==> Advanced(j, i, p, ok)
    {
      hide Ready;
      ghost var was, r, due := store, ResumeAt(j.cmds, retryFile), Due(j, i, p);
      assert SoundCommand(j, i);
      ok := ExecuteStash(id, src);
      if due {
        StashLeaves(j, disk.content, was, store, r, i, p, ok);
      }
    }

    method RunFree(id: Digest, ghost j: Job, ghost i: nat, ghost p: nat) returns (ok: bool)
      requires AtTurn(j, i) && j.cmds[i] == Free(id)
      modifies this`store, this`ops
      ensures Effected(j, i, ok)
      ensures old(ops) <= ops
      ensures old(Due(j, i, p)) ==> Advanced(j, i, p, ok)
    {
      ghost var was, r, due := store, ResumeAt(j.cmds, retryFile), Due(j, i, p);
      ok := ExecuteFree(id);
      if due {
        FreeLeaves(j, disk.content, was, store, r, i, p, ok);
      }
    }

    /** A command that does nothing, or is passed over. */
    lemma RunNothing(j: Job, i: nat, p: nat)
      requires WellFormed(j) && Holding(j, i, p) && i < |j.cmds|
      requires (!j.cmds[i].New? && i < ResumeAt(j.cmds, retryFile)) || j.cmds[i].Abort? || j.cmds[i].SkippedMove()
      ensures Holding(j, i + 1, Next(i, p))
    {
      var r := ResumeAt(j.cmds, retryFile);
      if i < p {
        ReadyPast(j, disk.content, store, r, i, p);
      } else {
        assert i < r ==> Harmless(j, i);
        WholeBefore(j, disk.content, store, r, p);
        ReadyNext(j, store, r, p + 1);
      }
    }

    /** TransferManager::CommandsExecute: run the command; if it succeeded and is not a `new`,
        record it in the retry file. That this may fail is not noticed. */
    method CommandsExecute(c: Command, ghost j: Job, ghost i: nat, ghost p: nat) returns (ok: bool)
      requires AtTurn(j, i) && j.cmds[i] == c
      modifies this, disk
      ensures Effected(j, i, ok)
      ensures old(Due(j, i, p)) ==> Advanced(j, i, p, ok)
      ensures retryFile == old(retryFile) || (!c.New? && ok && ResumeAt(j.cmds, retryFile) <= i + 1)
      ensures old(ops) <= ops && (FilesFine(old(ops), ops) ==>
                retryFile == if ok && !c.New? then Some(c) else old(retryFile))
      ensures c.New? && Faultless() ==> ok
    {
      hide Ready, WellFormed, Laid;
      ghost var due := Due(j, i, p);
      if c.New? {
        ok := RunNew(c.tgt, j, i, p);
        return;
      } else if c.Zero? {
        ok := RunZero(c.tgt, j, i, p);
      } else if c.Stash? {
        ok := RunStash(c.id, c.src, j, i, p);
      } else if c.Free? {
        ok := RunFree(c.id, j, i, p);
      } else if c.Patches() {
        ok := RunPatch(c, j, i, p);
      } else {
        ok := true;
        NothingToLay(j, i, disk.content);
        if due {
          RunNothing(j, i, p);
        }
      }
      if ok {
        ghost var r := ResumeAt(j.cmds, retryFile);
        var registered := RegisterForRetry(c);
        if due {
          ReadyAgain(j, disk.content, store, r, i + 1, Next(i, p), ResumeAt(j.cmds, retryFile), i + 1);
        }
      }
    }

    /** The line that a boot looks for: a first boot does not read the retry file. */
    function LineSought(isRetry: bool): Option<Command>
      reads this
    {
      if isRetry then retryFile else None
    }

    /** One turn of the command loop that executes: `ran` grows towards `all`. */
    method Turn(c: Command, ghost j: Job, ghost i: nat, ghost p: nat, ghost dev: seq<byte>, ghost ran: set<nat>,
                ghost all: set<nat>)
      returns (ok: bool)
      requires AtTurn(j, i) && j.cmds[i] == c
      requires Outcome(j, dev, disk.content, ran) && i !in ran && ran + {i} <= all
      modifies this, disk
      ensures Basic(j) && Spared(j, dev, disk.content, all)
      ensures ok ==> Outcome(j, dev, disk.content, ran + {i}) && freeStash == None && newPos == j.NewOffset(i + 1)
      ensures old(Due(j, i, p)) ==> Advanced(j, i, p, ok)
      ensures retryFile == old(retryFile) || (!c.New? && ok && ResumeAt(j.cmds, retryFile) <= i + 1)
      ensures old(ops) <= ops && (FilesFine(old(ops), ops) ==>
                retryFile == if ok && !c.New? then Some(c) else old(retryFile))
      ensures OnlyNew(j.cmds, all) && Faultless() ==> ok
    {
      hide Ready, WellFormed, Outcome, Spared, Laid, OnlyNew, SameOutside;
      OnlyNewAt(j.cmds, all, i);
      ghost var before := disk.content;
      ok := CommandsExecute(c, j, i, p);
      SparedNext(j, dev, before, disk.content, ran, i, all);
      if ok {
        OutcomeNext(j, dev, before, disk.content, ran, i);
      }
    }

    /** Unless something failed since operation `begun`, the retry file has the last line of the
        commands from `lo` up to `i`, and is as it was if these are all `new`. */
    ghost predicate Recorded(cmds: seq<Command>, had: Option<Command>, begun: nat, lo: nat, i: nat)
      requires i <= |cmds|
      reads this
    {
      begun <= ops && (FilesFine(begun, ops) ==> retryFile == LastLine(cmds, had, lo, i))
    }

    lemma NothingRecorded(cmds: seq<Command>, lo: nat)
      ensures Recorded(cmds, retryFile, ops, lo, 0)
    {
    }

    /** A command passed over on the way to the line, and one that has been executed. */
    lemma StillRecorded(cmds: seq<Command>, had: Option<Command>, begun: nat, lo: nat, i: nat)
      requires i < |cmds| && i < lo && Recorded(cmds, had, begun, lo, i)
      ensures Recorded(cmds, had, begun, lo, i + 1)
    {
    }

    lemma RecordedNext(cmds: seq<Command>, had: Option<Command>, begun: nat, mid: nat, was: Option<Command>, lo: nat,
                       i: nat, ok: bool)
      requires i < |cmds| && (lo <= i || cmds[i].New?) && begun <= mid <= ops
      requires FilesFine(begun, mid) ==> was == LastLine(cmds, had, lo, i)
      requires FilesFine(mid, ops) ==> retryFile == if ok && !cmds[i].New? then Some(cmds[i]) else was
      ensures Recorded(cmds, had, begun, lo, if ok then i + 1 else i)
    {
    }

    /** TransferManager::CommandsParser. On a retry every command up to the line in the retry
        file is passed over, except that every `new` is run again. Whatever the line is, a boot
        that completes has laid the output of every command it ran and changed nothing else. If
        moreover the state is one that a run of the list may leave, the boot ends in such a state
        again, and with the image of an uninterrupted run if it completes. It gets through `n`
        commands, and unless writing it fails the retry file then has the last line of these. */
    method CommandsParser(cmds: seq<Command>, isRetry: bool, ghost j: Job, ghost p: nat)
      returns (done: bool, ghost q: nat, ghost n: nat)
      requires Basic(j) && j.cmds == cmds && freeStash == None && newPos == 0
      modifies this, disk
      ensures Basic(j) && Spared(j, old(disk.content), disk.content, old(Executed(cmds, LineSought(isRetry), 0)))
      ensures done ==> Outcome(j, old(disk.content), disk.content, old(Executed(cmds, LineSought(isRetry), 0)))
      ensures Faultless() && OnlyNew(cmds, old(Executed(cmds, LineSought(isRetry), 0))) ==> done
      ensures old(Holding(j, 0, p)) && (isRetry || p == 0) ==> Resumable(j, p, q, done)
      ensures n <= |cmds| && (done <==> n == |cmds|)
      ensures Recorded(cmds, old(retryFile), old(ops), old(ResumeAt(cmds, LineSought(isRetry))), n)
    {
      hide WellFormed, Ready, Outcome, Spared, Executed, OnlyNew, ResumeAt, FilesFine, LastLine;
      SomethingToDo(j);
      done, q, n := false, p, 0;
      if |cmds| < 1 {
        return;
      }
      var retryCmd := if isRetry then retryFile else None;
      ghost var line, dev, had, begun := retryCmd, disk.content, retryFile, ops;
      ghost var start, all := ResumeAt(cmds, line), Executed(cmds, line, 0);
      ghost var ran: set<nat>, holding := {}, Holding(j, 0, p) && (isRetry || p == 0);
      NothingRun(j, dev);
      NothingRecorded(cmds, start);
      SoughtFrom(cmds, line);
      if holding {
        ReadyWithin(j, disk.content, store, ResumeAt(cmds, retryFile), 0, p);
      }
      for i := 0 to |cmds|
        invariant Basic(j) && freeStash == None && newPos == j.NewOffset(i)
        invariant Outcome(j, dev, disk.content, ran) && (forall k :: k in ran ==> k < i)
        invariant ran + Executed(cmds, retryCmd, i) == all
        invariant if retryCmd != None then i < start && retryCmd == line == retryFile && isRetry else start <= i
        invariant holding ==> p <= q <= |cmds| && Holding(j, i, q)
        invariant holding && retryCmd == None ==> if isRetry then ResumeAt(cmds, retryFile) <= i else q == i
        invariant Recorded(cmds, had, begun, start, i)
      {
        var cmd := cmds[i];
        n := i;
        ExecutedNext(cmds, retryCmd, i);
        if retryCmd != None {
          SoughtNext(cmds, line, i);
          if Some(cmd) == retryCmd {
            retryCmd := None;
          }
          if !cmd.New? {
            StillRecorded(cmds, had, begun, start, i);
            if holding {
              RunNothing(j, i, q);
              q := Next(i, q);
            }
            continue;
          }
        }
        ghost var mid, was := ops, retryFile;
        done := Turn(cmd, j, i, q, dev, ran, all);
        RecordedNext(cmds, had, begun, mid, was, start, i, done);
        if !done {
          return;
        }
        ran := ran + {i};
        if holding {
          q := Next(i, q);
        }
      }
      NoneExecuted(cmds, retryCmd);
      assert ran == all;
      OutcomeSpares(j, dev, disk.content, all);
      n := |cmds|;
      if holding {
        EndsResumable(j, p, q);
      }
      done := true;
    }

    /** What a run leaves for the next one. */
    ghost predicate Resumable(j: Job, p: nat, q: nat, done: bool)
      reads this, disk
    {
      && p <= q <= |j.cmds| && Holding(j, 0, q)
      && (done ==> q == |j.cmds| && disk.content == j.At(|j.cmds|).dev)
      && (Faultless() ==> done)
    }

    lemma EndsResumable(j: Job, p: nat, q: nat)
      requires p <= q <= |j.cmds| && Holding(j, |j.cmds|, q)
      ensures Resumable(j, p, q, true)
    {
      var r := ResumeAt(j.cmds, retryFile);
      ReadyAtEnd(j, disk.content, store, r);
      ReadyAgain(j, disk.content, store, r, |j.cmds|, q, r, 0);
    }

    // -------------------------------------------------------------- one boot

    /** Delete every file of the store; one that cannot be deleted is left. */
    method DeleteFiles()
      modifies this`store, this`ops
      ensures forall h :: h in store ==> h in old(store) && store[h] == old(store)[h]
      ensures old(ops) <= ops && (FilesFine(old(ops), ops) ==> store == map[])
    {
      var names := store.Keys;
      while names != {}
        invariant forall h :: h in store ==> h in old(store) && store[h] == old(store)[h]
        invariant old(ops) <= ops && (FilesFine(old(ops), ops) ==> store.Keys <= names)
      {
        var name :| name in names;
        var deleted := FreeStore(name);
        names := names - {name};
      }
    }

    /** Store::CreateNewSpace: the directory may not be usable; a first boot empties it. */
    method CreateNewSpace(needClear: bool) returns (ok: bool)
      modifies this`store, this`ops
      ensures ok == old(faults(ops)).Works? && old(ops) < ops
      ensures needClear && FilesFine(old(ops), ops) ==> store == map[]
      ensures forall h :: h in store ==> h in old(store) && store[h] == old(store)[h]
      ensures !ok || !needClear ==> store == old(store)
    {
      ok := faults(ops).Works?;
      ops := ops + 1;
      if ok && needClear {
        DeleteFiles();
      }
    }

    /** UScriptInstructionBlockUpdate::ExecuteTransferCommand, the unpacking thread apart: when all
        commands have been run the store is emptied, before anyone records that the partition is
        done. A power cut in between is followed by another retry. */
    method ExecuteTransferCommand(cmds: seq<Command>, isRetry: bool, ghost j: Job, ghost p: nat)
      returns (done: bool, ghost q: nat)
      requires Basic(j) && j.cmds == cmds && freeStash == None && newPos == 0
      modifies this, disk
      ensures Basic(j)
      ensures !old(faults(ops)).Works? ==> !done && disk.content == old(disk.content) && retryFile == old(retryFile)
      ensures done ==> Outcome(j, old(disk.content), disk.content, old(Executed(cmds, LineSought(isRetry), 0)))
      ensures Spared(j, old(disk.content), disk.content, old(Executed(cmds, LineSought(isRetry), 0)))
      ensures Faultless() && OnlyNew(cmds, old(Executed(cmds, LineSought(isRetry), 0))) ==> done
      ensures old(Holding(j, 0, p) && (isRetry || (p == 0 && disk.content == j.image))) ==> Resumable(j, p, q, done)
    {
      hide WellFormed, Ready, Outcome, Spared, Executed, OnlyNew, ResumeAt;
      ghost var was, holding := store, Holding(j, 0, p) && (isRetry || (p == 0 && disk.content == j.image));
      q := p;
      SparedNothing(j, disk.content, Executed(cmds, LineSought(isRetry), 0));
      done := CreateNewSpace(!isRetry);
      if holding {
        ReadyWithin(j, disk.content, was, ResumeAt(cmds, retryFile), 0, p);
      }
      if !done {
        return;
      }
      if holding && !isRetry {
        ReadyFirst(j, was, store, ResumeAt(cmds, retryFile));
      }
      ghost var n;
      done, q, n := CommandsParser(cmds, isRetry, j, p);
      if done {
        ghost var stored := store;
        DeleteFiles();
        if holding {
          ReadyEmptied(j, disk.content, stored, store, ResumeAt(cmds, retryFile), 0);
        }
      }
    }
  }

  lemma NonePlaced(store: Store, buffer: seq<byte>)
    ensures PlaceAll(store, [], buffer) == buffer
  {
  }

  lemma PlacedNext(store: Store, refs: seq<StashRef>, i: nat, buffer: seq<byte>)
    requires i < |refs| && refs[i].id in store && Fits(refs[i].locs, |buffer|, |store[refs[i].id]|)
    ensures PlaceAll(store, refs[..i + 1], buffer)
         == MovedFrom(PlaceAll(store, refs[..i], buffer), refs[i].locs, store[refs[i].id])
  {
    hide MovedFrom, Fits;
    assert refs[..i + 1][..i] == refs[..i];
  }

  /** The faults that one boot meets. */
  datatype Boot = Boot(disk: nat -> Fault, files: nat -> FileFault)

  ghost predicate Quiet(b: Boot) {
    (forall k :: b.disk(k).Fine?) && (forall k :: b.files(k).Works?)
  }

  /** An update and its retries, each in a fresh process. `left` and `stale` are what an earlier
      update may have left in the store and in the retry file, which nobody clears. Whatever fails,
      and however often, every run that completes leaves the image of an uninterrupted run, also if
      it comes after one that has completed before; and a boot that meets no fault completes. All
      this if the stale line, should the first boot leave it, passes over nothing that is needed. */
  method Update(j: Job, left: Store, stale: Option<Command>, boots: seq<Boot>)
    returns (dones: seq<bool>, images: seq<seq<byte>>)
    requires WellFormed(j) && Named(j, left)
    ensures |dones| == |images| == |boots|
    ensures Passable(j, 0, ResumeAt(j.cmds, stale)) ==> forall b :: 0 <= b < |boots| ==>
              (dones[b] ==> images[b] == j.At(|j.cmds|).dev) && (Quiet(boots[b]) ==> dones[b])
  {
    hide Ready, WellFormed, Named, Spared, Outcome, Executed, OnlyNew, ResumeAt, Passable;
    dones, images := [], [];
    var image, store, retryFile := j.image, left, stale;
    ghost var p, good := 0, Passable(j, 0, ResumeAt(j.cmds, stale));
    if good {
      ReadyAtStart(j, left, ResumeAt(j.cmds, stale));
    }
    for b := 0 to |boots|
      invariant |dones| == |images| == b && |image| == |j.image| && Named(j, store)
      invariant b == 0 ==> p == 0 && image == j.image
      invariant good ==> Ready(j, image, store, ResumeAt(j.cmds, retryFile), 0, p)
      invariant good ==> forall i :: 0 <= i < b ==>
                  (dones[i] ==> images[i] == j.At(|j.cmds|).dev) && (Quiet(boots[i]) ==> dones[i])
    {
      var disk := new BlockDevice(image, boots[b].disk);
      var manager := new TransferManager(j.env, disk, j.stream, boots[b].files, store, retryFile);
      var done;
      done, p := manager.ExecuteTransferCommand(j.cmds, b != 0, j, p);
      image, store, retryFile := disk.content, manager.store, manager.retryFile;
      dones, images := dones + [done], images + [image];
    }
  }

  /** What a stale line does that is not in the list, once the first boot fails before it writes
      anything. The next boot passes over every command but `new` and reports success; the image
      is right if and only if every command it passed over had its output there already. */
  method UpdateAfterStale(j: Job, left: Store, stale: Command, first: Boot, second: Boot)
    returns (failed: bool, done: bool, image: seq<byte>)
    requires WellFormed(j) && Named(j, left) && stale !in j.cmds
    requires first.files(0).Breaks? && Quiet(second)
    ensures failed && done
    ensures image == j.At(|j.cmds|).dev <==>
              forall k :: 0 <= k < |j.cmds| && !j.cmds[k].New? ==> Laid(j, k, j.image)
  {
    hide Ready, WellFormed, Named, Laid, Spared, Outcome, Executed, ResumeAt;
    var disk := new BlockDevice(j.image, first.disk);
    var manager := new TransferManager(j.env, disk, j.stream, first.files, left, Some(stale));
    ghost var q;
    done, q := manager.ExecuteTransferCommand(j.cmds, false, j, 0);
    failed := !done;
    disk := new BlockDevice(disk.content, second.disk);
    manager := new TransferManager(j.env, disk, j.stream, second.files, manager.store, manager.retryFile);
    ghost var ran := Executed(j.cmds, Some(stale), 0);
    RunsExactlyNew(j.cmds, stale);
    assert OnlyNew(j.cmds, ran);
    assert manager.LineSought(true) == Some(stale);
    done, q := manager.ExecuteTransferCommand(j.cmds, true, j, 0);
    image := disk.content;
    OutcomeIsIdeal(j, j.image, image, ran);
  }

  /** A list of one `zero` command, for a block of ones. */
  function OneZero(env: Env): Job {
    Job(env, [Zero([RawPair(0, 1)])], [], seq(BLOCK_SIZE, _ => 1))
  }

  lemma OneZeroTarget(env: Env)
    ensures OneZero(env).Target(0) == Span(0, BLOCK_SIZE) && OneZero(env).Output(0) == Zeros(BLOCK_SIZE)
    ensures OneZero(env).NewOffset(1) == 0
  {
    var tgt: seq<BlockPair> := [RawPair(0, 1)];
    assert tgt[..0] == [];
    assert Addrs(tgt) == Addrs(tgt[..0]) + RangeAddrs(tgt[0]);
    assert OneZero(env).NewOffset(1) == OneZero(env).NewOffset(0);
  }

  lemma OneZeroSound(env: Env)
    requires Injective(env.hash)
    ensures WellFormed(OneZero(env)) && !Laid(OneZero(env), 0, OneZero(env).image)
  {
    hide Addrs, Job.Target, Job.Output, Job.At;
    var j := OneZero(env);
    OneZeroTarget(env);
    assert SoundCommand(j, 0);
    assert j.Target(0)[0] == 0 && j.Output(0)[0] == 0 && j.image[0] == 1;
  }

  /** There it goes wrong: with the line of another update in the retry file, a first boot that
      fails is followed by one that meets no fault, reports success, and has done nothing. */
  method StaleLineMisleads(env: Env, first: Boot, second: Boot) returns (failed: bool, done: bool, image: seq<byte>)
    requires Injective(env.hash) && first.files(0).Breaks? && Quiet(second)
    ensures failed && done && image != OneZero(env).At(1).dev
  {
    OneZeroSound(env);
    hide WellFormed, Laid;
    failed, done, image := UpdateAfterStale(OneZero(env), map[], Abort, first, second);
  }

  /** The command in progress: complete, or torn with its source logged. */
  lemma PatchLeaves(j: Job, dev: seq<byte>, store: Store, dev': seq<byte>, store': Store, r: nat, p: nat, ok: bool)
    requires WellFormed(j) && Ready(j, dev, store, r, p, p) && p < |j.cmds| && j.cmds[p].Patches()
    requires Stocked(j, store', p) && Logged(j, dev, store', p)
    requires SameOutside(dev, dev', j.Target(p))
    requires var c := j.cmds[p];
      if ok then
        || (dev' == dev && j.env.hash(ReadSource(dev, c.tgt, |Addrs(c.tgt)|)) == c.TargetHash())
        || dev' == Lay(dev, j.Target(p), j.Output(p))
      else dev' == dev || !c.Overlaps() || c.srcHash in store'
    ensures Ready(j, dev', store', r, if ok then p + 1 else 0, if ok then p + 1 else p)
  {
    hide WellFormed, Clean, Logged, Stocked, Scatter, Untouched, InBounds;
    TargetSized(j, p);
    StockedAfter(j, store', p);
    PassableAfter(j, p, r);
    if ok {
      WholeAfter(j, dev, store, r, p);
      if dev' == dev && j.env.hash(ReadSource(dev, j.cmds[p].tgt, |Addrs(j.cmds[p].tgt)|)) == j.cmds[p].TargetHash() {
        MatchIsWhole(j, dev, store, r, p);
      }
      ReadyNext(j, store', r, p + 1);
    } else {
      ReadyTorn(j, dev, dev', store', r, p, p);
      ReadyAgain(j, dev', store', r, p, p, r, 0);
    }
  }

  /** A diff or move that has been complete before is left alone. */
  lemma PatchAdvances(j: Job, dev: seq<byte>, store: Store, dev': seq<byte>, store': Store, r: nat, i: nat, p: nat,
                      ok: bool)
    requires WellFormed(j) && Ready(j, dev, store, r, i, p) && i < |j.cmds| && j.cmds[i].Patches()
    requires store' == store ||
             (j.env.hash(j.Buffer(i)) == j.cmds[i].srcHash && store' == store[j.cmds[i].srcHash := j.Buffer(i)])
    requires SameOutside(dev, dev', j.Target(i))
    requires i < p ==> dev' == dev
    requires var c := j.cmds[i];
      if ok then
        || (dev' == dev && j.env.hash(ReadSource(dev, c.tgt, |Addrs(c.tgt)|)) == c.TargetHash())
        || dev' == Lay(dev, j.Target(i), j.Output(i))
      else dev' == dev || !c.Overlaps() || c.srcHash in store'
    ensures Ready(j, dev', store', r, if ok then i + 1 else 0, if ok then TransferManager.Next(i, p) else p)
  {
    hide WellFormed, Clean, Lay, Stocked, Logged, Passable, SameOutside, Addrs;
    if store' != store {
      StockedMore(j, dev, store, p, j.cmds[i].srcHash, j.Buffer(i));
    }
    if i == p {
      PatchLeaves(j, dev, store, dev', store', r, p, ok);
    } else if ok {
      ReadyPast(j, dev, store', r, i, p);
    } else {
      ReadyAgain(j, dev, store', r, i, p, r, 0);
    }
  }

  lemma PatchLaid(j: Job, i: nat, dev: seq<byte>, dev': seq<byte>)
    requires WellFormed(j) && i < |j.cmds| && j.cmds[i].Patches() && |dev| == |j.image|
    requires var c := j.cmds[i];
      || (dev' == dev && j.env.hash(ReadSource(dev, c.tgt, |Addrs(c.tgt)|)) == c.TargetHash())
      || dev' == Lay(dev, j.Target(i), j.Output(i))
    ensures Laid(j, i, dev')
  {
    hide WellFormed, Laid;
    ScatterLays(j, i, dev);
    if dev' == dev && j.env.hash(ReadSource(dev, j.cmds[i].tgt, |Addrs(j.cmds[i].tgt)|)) == j.cmds[i].TargetHash() {
      MatchLays(j, i, dev);
    }
  }

  lemma FreeLeaves(j: Job, dev: seq<byte>, was: Store, store: Store, r: nat, i: nat, p: nat, ok: bool)
    requires WellFormed(j) && Ready(j, dev, was, r, i, p) && i < |j.cmds| && j.cmds[i].Free?
    requires store == if ok then was - {j.cmds[i].id} else was
    ensures Ready(j, dev, store, r, if ok then i + 1 else 0, if ok then TransferManager.Next(i, p) else p)
  {
    if !ok {
      ReadyAgain(j, dev, store, r, i, p, r, 0);
    } else if i < p {
      StockedLess(j, dev, was, i, p);
      ReadyPast(j, dev, store, r, i, p);
    } else {
      WholeBefore(j, dev, was, r, p);
      ReadyNext(j, store, r, p + 1);
    }
  }

  /** A stash adds at most its source under its digest, and has it when it first succeeds. */
  lemma StashLeaves(j: Job, dev: seq<byte>, was: Store, store: Store, r: nat, i: nat, p: nat, ok: bool)
    requires WellFormed(j) && Ready(j, dev, was, r, i, p) && i < |j.cmds| && j.cmds[i].Stash?
    requires var id := j.cmds[i].id;
      store == was || (id in store && j.env.hash(store[id]) == id && store == was[id := store[id]])
    requires var src := j.cmds[i].src;
      ok && j.cmds[i].id !in store ==> j.env.hash(ReadSource(dev, src, |Addrs(src)|)) != j.cmds[i].id
    ensures Ready(j, dev, store, r, if ok then i + 1 else 0, if ok then TransferManager.Next(i, p) else p)
  {
    if store != was {
      StockedMore(j, dev, was, p, j.cmds[i].id, store[j.cmds[i].id]);
    }
    if !ok {
      ReadyAgain(j, dev, store, r, i, p, r, 0);
    } else if i < p {
      ReadyPast(j, dev, store, r, i, p);
    } else {
      WholeBefore(j, dev, was, r, p);
      ReadyNext(j, store, r, p + 1);
    }
  }

  /** `new` and `zero`, carried out for the first time or again. */
  lemma Completed(j: Job, dev: seq<byte>, store: Store, r: nat, i: nat, p: nat)
    requires WellFormed(j) && Ready(j, dev, store, r, i, p) && i < |j.cmds|
    requires j.cmds[i].New? || (j.cmds[i].Zero? && (i == p || r <= i))
    ensures |j.Output(i)| == |j.Target(i)|
    ensures Ready(j, Scatter(dev, j.Target(i), j.Output(i)), store, r, i + 1, TransferManager.Next(i, p))
  {
    assert SoundCommand(j, i);
    if i == p {
      WholeAfter(j, dev, store, r, p);
      ReadyNext(j, store, r, p + 1);
    } else {
      ReadyRewritten(j, dev, store, r, i, p);
    }
  }

  lemma ZeroOutput(j: Job, i: nat)
    requires WellFormed(j) && i < |j.cmds| && j.cmds[i].Zero?
    ensures j.Target(i) == Addrs(j.cmds[i].tgt) && j.Output(i) == Zeros(|Addrs(j.cmds[i].tgt)|)
    ensures InBounds(Addrs(j.cmds[i].tgt), |j.image|)
  {
    assert SoundCommand(j, i);
  }

  lemma SomethingToWrite(tgt: seq<BlockPair>, size: nat)
    ensures Writable(tgt, size) ==> 0 < |Addrs(tgt)|
  {
  }

  /** The stream is cut in order: a `new` is due the bytes after those of the `new`s before it. */
  lemma NewOutput(j: Job, i: nat)
    requires WellFormed(j) && i < |j.cmds| && j.cmds[i].New?
    ensures Writable(j.cmds[i].tgt, |j.image|)
    ensures j.NewOffset(i + 1) == j.NewOffset(i) + |Addrs(j.cmds[i].tgt)| <= |j.stream|
    ensures j.Output(i) == j.stream[j.NewOffset(i)..j.NewOffset(i + 1)]
  {
    assert SoundCommand(j, i);
    OffsetGrows(j, i + 1, |j.cmds|);
  }

  lemma {:induction false} OffsetGrows(j: Job, i: nat, k: nat)
    requires i <= k <= |j.cmds|
    ensures j.NewOffset(i) <= j.NewOffset(k)
  {
    if i < k {
      OffsetGrows(j, i, k - 1);
    }
  }
}
