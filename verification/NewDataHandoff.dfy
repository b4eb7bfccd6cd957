/** The hand-off of `new` data between the command thread (NewCommandFn::Execute, then JoinThread)
    and the unpacking thread (UnpackNewData, ExtractNewData, CondBroadcast): one mutex, one
    condition, the pointer `writer` and the flag `readyToWrite`, interleaved step by step
    (services/applypatch/command_process.cpp, services/updater_binary/update_image_block.cpp). */
module NewDataHandoff {
  import opened Device

  datatype CommandPc =
    | CIdle         // between commands
    | CLock         // Execute: about to take the mutex
    | CCreate       // holding: about to create the writer and broadcast
    | CTest         // holding: the loop test
    | CAsleep       // in pthread_cond_wait
    | CWoken        // about to take the mutex again
    | CUnlockDone   // holding: no writer left, the data is written
    | CReset        // the second reset of the writer, without the mutex
    | CUnlockFail   // holding: the worker is no longer ready
    | CDrop         // reset the writer without the mutex, then fail
    | CFailed       // `new` has failed
    | CLeft         // another command has failed: CommandsParser returns, and nobody joins the worker
    | CJoinLock     // JoinThread: about to take the mutex
    | CJoinSet      // holding: about to clear readyToWrite and broadcast
    | CJoinUnlock   // holding
    | CJoining      // in pthread_join
    | CDone

  datatype WorkerPc =
    | WIdle         // between two pieces of unpacked data
    | WLoop         // the loop test of ExtractNewData
    | WLock         // about to take the mutex
    | WTest         // holding: is there a writer
    | WAsleep       // in pthread_cond_wait
    | WWoken        // about to take the mutex again
    | WMeasure      // about to compute how much to write, without the mutex
    | WWrite        // about to write, without the mutex
    | WCheck        // about to ask whether the writer is done
    | WResetLock    // it is: about to take the mutex
    | WReset        // holding: about to reset the writer and broadcast
    | WResetUnlock  // holding
    | WEnd          // CondBroadcast: about to take the mutex
    | WEndSet       // holding: about to clear readyToWrite
    | WEndUnlock    // holding
    | WExited

  datatype Holder = Nobody | Command | Worker

  /** TotalBlockSize * H_BLOCK_SIZE of each `new`, in order, and the unpacked data. */
  datatype Job = Job(sizes: seq<nat>, stream: seq<byte>) {
    /** Where the k-th share of the stream starts. */
    function Offset(k: nat): nat
      requires k <= |sizes|
    {
      if k == 0 then 0 else Offset(k - 1) + sizes[k - 1]
    }

    function Size(created: nat): nat {
      if 0 < created <= |sizes| then sizes[created - 1] else 0
    }
  }

  datatype Progress = Progress(
    created: nat,               // writers created so far
    succeeded: nat,             // `new` commands that returned SUCCESS
    finished: seq<seq<byte>>,   // what each completed writer has written
    laid: seq<byte>,            // what the current writer has written
    taken: nat,                 // stream bytes handed to ExtractNewData
    left: nat,                  // those of the current piece that are not yet written
    toWrite: nat)

  datatype State = State(
    cmd: CommandPc, wrk: WorkerPc, holder: Holder,
    writer: bool,               // writer != nullptr
    ready: bool,                // readyToWrite
    p: Progress)
  {
    /** pthread_cond_broadcast. */
    function Broadcast(): State {
      this.(cmd := if cmd == CAsleep then CWoken else cmd, wrk := if wrk == WAsleep then WWoken else wrk)
    }
  }

  /** Every `new` has something to write. */
  ghost predicate Positive(j: Job) {
    forall i :: 0 <= i < |j.sizes| ==> 0 < j.sizes[i]
  }

  predicate Init(s: State) {
    && s.cmd == CIdle && s.wrk == WIdle && s.holder == Nobody && !s.writer && s.ready
    && s.p.created == s.p.succeeded == s.p.taken == s.p.left == 0 && s.p.finished == []
  }

  /** `spurious` steps are wake-ups that no broadcast caused. */
  ghost predicate CommandStep(j: Job, s: State, t: State, spurious: bool) {
    match s.cmd
    case CIdle =>
      !spurious && (t == s.(cmd := if s.p.created < |j.sizes| then CLock else CJoinLock) || t == s.(cmd := CLeft))
    case CLock => !spurious && s.holder == Nobody && t == s.(holder := Command, cmd := CCreate)
    case CCreate =>
      !spurious && t == s.Broadcast().(writer := true, cmd := CTest, p := s.p.(laid := [], created := s.p.created + 1))
    case CTest =>
      !spurious && t == if !s.writer then s.(cmd := CUnlockDone)
                        else if !s.ready then s.(cmd := CUnlockFail)
                        else s.(cmd := CAsleep, holder := Nobody)
    case CAsleep => spurious && t == s.(cmd := CWoken)
    case CWoken => !spurious && s.holder == Nobody && t == s.(holder := Command, cmd := CTest)
    case CUnlockDone => !spurious && t == s.(holder := Nobody, cmd := CReset)
    case CReset => !spurious && t == s.(writer := false, cmd := CIdle, p := s.p.(succeeded := s.p.succeeded + 1))
    case CUnlockFail => !spurious && t == s.(holder := Nobody, cmd := CDrop)
    case CDrop => !spurious && t == s.(writer := false, cmd := CFailed)
    case CJoinLock => !spurious && s.holder == Nobody && t == s.(holder := Command, cmd := CJoinSet)
    case CJoinSet => !spurious && t == s.Broadcast().(ready := false, cmd := CJoinUnlock)
    case CJoinUnlock => !spurious && t == s.(holder := Nobody, cmd := CJoining)
    case CJoining => !spurious && s.wrk == WExited && t == s.(cmd := CDone)
    case CFailed => false
    case CLeft => false
    case CDone => false
  }

  /** The next `toWrite` bytes of the stream reach the writer. */
  function Laid(j: Job, p: Progress): Progress
    requires p.toWrite <= p.left <= p.taken <= |j.stream|
  {
    var at := p.taken - p.left;
    p.(laid := p.laid + j.stream[at..at + p.toWrite], left := p.left - p.toWrite)
  }

  ghost predicate WorkerStep(j: Job, s: State, t: State, spurious: bool) {
    match s.wrk
    // the next piece, of any length; or the end of the data, or an error
    case WIdle =>
      !spurious && (t == s.(wrk := WEnd) ||
                    (0 < t.p.left <= |j.stream| - s.p.taken
                        && t == s.(wrk := WLoop, p := s.p.(taken := s.p.taken + t.p.left, left := t.p.left))))
    case WLoop => !spurious && t == s.(wrk := if 0 < s.p.left then WLock else WIdle)
    case WLock => !spurious && s.holder == Nobody && t == s.(holder := Worker, wrk := WTest)
    case WTest =>
      !spurious && t == s.(holder := Nobody, wrk := if s.writer then WMeasure else if !s.ready then WEnd else WAsleep)
    case WAsleep => spurious && t == s.(wrk := WWoken)
    case WWoken => !spurious && s.holder == Nobody && t == s.(holder := Worker, wrk := WTest)
    case WMeasure =>
      var room := j.Size(s.p.created) - |s.p.laid|;
      var n := if s.p.left < room then s.p.left else room;
      // nothing more fits: the rest of the piece is dropped
      !spurious && s.writer && t == if n <= 0 then s.(wrk := WIdle, p := s.p.(left := 0))
          else s.(wrk := WWrite, p := s.p.(toWrite := n))
    case WWrite =>
      !spurious && s.writer && (t == s.(wrk := WEnd) ||
        (s.p.toWrite <= s.p.left <= s.p.taken <= |j.stream|
         && t == s.(wrk := WCheck, p := Laid(j, s.p))))
    case WCheck => !spurious && s.writer
        && t == s.(wrk := if |s.p.laid| == j.Size(s.p.created) then WResetLock else WLoop)
    case WResetLock => !spurious && s.holder == Nobody && t == s.(holder := Worker, wrk := WReset)
    case WReset =>
      !spurious && t == s.Broadcast().(writer := false, wrk := WResetUnlock,
          p := s.p.(finished := s.p.finished + [s.p.laid]))
    case WResetUnlock => !spurious && t == s.(holder := Nobody, wrk := WLoop)
    case WEnd => !spurious && s.holder == Nobody && t == s.(holder := Worker, wrk := WEndSet)
    case WEndSet =>
      !spurious && t == (if s.writer then s.Broadcast() else s).(ready := false, wrk := WEndUnlock)
    case WEndUnlock => !spurious && t == s.(holder := Nobody, wrk := WExited)
    case WExited => false
  }

  ghost predicate Step(j: Job, s: State, t: State, spurious: bool) {
    CommandStep(j, s, t, spurious) || WorkerStep(j, s, t, spurious)
  }

  // ---------------------------------------------------------------- the invariant

  /** In the wait loop of `new`. */
  predicate Waiting(pc: CommandPc) {
    pc == CTest || pc == CAsleep || pc == CWoken
  }

  predicate Failing(pc: CommandPc) {
    pc == CUnlockFail || pc == CDrop || pc == CFailed
  }

  predicate Joined(pc: CommandPc) {
    pc == CJoinUnlock || pc == CJoining || pc == CDone
  }

  /** The worker is using the writer, mostly without the mutex. */
  predicate Using(pc: WorkerPc) {
    pc == WMeasure || pc == WWrite || pc == WCheck || pc == WResetLock || pc == WReset
  }

  predicate Ended(pc: WorkerPc) {
    pc == WEndUnlock || pc == WExited
  }

  predicate CommandHolds(pc: CommandPc) {
    pc == CCreate || pc == CTest || pc == CUnlockDone || pc == CUnlockFail || pc == CJoinSet || pc == CJoinUnlock
  }

  predicate WorkerHolds(pc: WorkerPc) {
    pc == WTest || pc == WReset || pc == WResetUnlock || pc == WEndSet || pc == WEndUnlock
  }

  ghost predicate Locks(s: State) {
    && (s.holder == Command <==> CommandHolds(s.cmd))
    && (s.holder == Worker <==> WorkerHolds(s.wrk))
  }

  ghost predicate Control(s: State) {
    && Locks(s)
    // the writer lives only while its command waits for it
    && (s.writer ==> Waiting(s.cmd) || s.cmd == CUnlockFail || s.cmd == CDrop)
    && (s.cmd == CUnlockFail || s.cmd == CDrop ==> s.writer)
    && (Using(s.wrk) ==> s.writer && Waiting(s.cmd) && s.ready)
    // nobody sleeps with nothing to wait for
    && (s.cmd == CAsleep ==> s.writer && s.ready)
    && (s.wrk == WAsleep ==> !s.writer && s.ready)
    // who clears readyToWrite
    && (s.ready <==> !Ended(s.wrk) && !Joined(s.cmd))
    && (Failing(s.cmd) ==> Ended(s.wrk))
    && (s.cmd == CDone ==> s.wrk == WExited)
  }

  ghost predicate Counting(j: Job, s: State) {
    && s.p.created <= |j.sizes| && |s.p.finished| <= |j.sizes|
    && (s.cmd == CLock || s.cmd == CCreate ==> s.p.created < |j.sizes|)
    && (s.writer || s.cmd == CFailed ==> 0 < s.p.created && |s.p.finished| == s.p.created - 1)
    && (!s.writer && s.cmd != CFailed ==> |s.p.finished| == s.p.created)
  }

  /** Every `new` but the one in progress has succeeded. */
  predicate Succeeding(s: State) {
    var inNew := Waiting(s.cmd) || Failing(s.cmd) || s.cmd == CUnlockDone || s.cmd == CReset;
    s.p.created == s.p.succeeded + if inNew then 1 else 0
  }

  /** How far the current writer is, and what of the current piece is left. */
  ghost predicate Filling(j: Job, s: State) {
    && s.p.left <= s.p.taken <= |j.stream| && (s.wrk == WIdle ==> s.p.left == 0)
    && (s.writer ==> |s.p.laid| <= j.Size(s.p.created))
    && (s.writer && s.wrk != WCheck && s.wrk != WResetLock && s.wrk != WReset ==> |s.p.laid| < j.Size(s.p.created))
    && (s.wrk == WResetLock || s.wrk == WReset ==> |s.p.laid| == j.Size(s.p.created))
    && (s.wrk == WWrite ==> 0 < s.p.toWrite <= s.p.left && |s.p.laid| + s.p.toWrite <= j.Size(s.p.created))
    && (s.wrk == WMeasure || s.wrk == WLock || s.wrk == WTest || s.wrk == WAsleep || s.wrk == WWoken ==> 0 < s.p.left)
  }

  /** Share `i` of the stream. */
  ghost predicate IsShare(j: Job, i: nat, data: seq<byte>) {
    i < |j.sizes| && j.Offset(i + 1) <= |j.stream| && data == j.stream[j.Offset(i)..j.Offset(i) + j.sizes[i]]
  }

  /** What has been written is the stream, cut in order. */
  ghost predicate Delivered(j: Job, p: Progress, writing: bool, failed: bool) {
    && |p.finished| <= |j.sizes|
    && (forall i :: 0 <= i < |p.finished| ==> IsShare(j, i, p.finished[i]))
    && (!failed ==> p.taken - p.left == j.Offset(|p.finished|) + if writing then |p.laid| else 0)
    && (writing ==> IsPart(j, |p.finished|, p.laid))
  }

  ghost predicate IsPart(j: Job, k: nat, data: seq<byte>) {
    && k <= |j.sizes| && j.Offset(k) + |data| <= |j.stream|
    && data == j.stream[j.Offset(k)..j.Offset(k) + |data|]
  }

  ghost predicate Inv(j: Job, s: State) {
    Control(s) && Counting(j, s) && Succeeding(s) && Filling(j, s) && Delivered(j, s.p, s.writer, s.cmd == CFailed)
  }

  lemma CommandLocks(j: Job, s: State, t: State, spurious: bool)
    requires Locks(s) && CommandStep(j, s, t, spurious)
    ensures Locks(t)
  {
  }

  lemma WorkerLocks(j: Job, s: State, t: State, spurious: bool)
    requires Locks(s) && WorkerStep(j, s, t, spurious)
    ensures Locks(t)
  {
  }

  lemma CommandControl(j: Job, s: State, t: State, spurious: bool)
    requires Control(s) && CommandStep(j, s, t, spurious)
    ensures Control(t)
  {
    CommandLocks(j, s, t, spurious);
  }

  lemma WorkerControl(j: Job, s: State, t: State, spurious: bool)
    requires Control(s) && WorkerStep(j, s, t, spurious)
    ensures Control(t)
  {
    hide Laid, Job.Size;
    WorkerLocks(j, s, t, spurious);
  }

  lemma CommandCounts(j: Job, s: State, t: State, spurious: bool)
    requires Control(s) && Counting(j, s) && CommandStep(j, s, t, spurious)
    ensures Counting(j, t)
  {
  }

  lemma CommandSucceeds(j: Job, s: State, t: State, spurious: bool)
    requires Control(s) && Succeeding(s) && CommandStep(j, s, t, spurious)
    ensures Succeeding(t)
  {
  }

  lemma WorkerSucceeds(j: Job, s: State, t: State, spurious: bool)
    requires Succeeding(s) && WorkerStep(j, s, t, spurious)
    ensures Succeeding(t)
  {
  }

  lemma WorkerCounts(j: Job, s: State, t: State, spurious: bool)
    requires Control(s) && Counting(j, s) && WorkerStep(j, s, t, spurious)
    ensures Counting(j, t)
  {
  }

  lemma CommandFills(j: Job, s: State, t: State, spurious: bool)
    requires Positive(j) && Control(s) && Counting(j, s) && Filling(j, s) && CommandStep(j, s, t, spurious)
    ensures Filling(j, t)
  {
  }

  lemma WorkerFills(j: Job, s: State, t: State, spurious: bool)
    requires Control(s) && Counting(j, s) && Filling(j, s) && WorkerStep(j, s, t, spurious)
    ensures Filling(j, t)
  {
  }

  lemma CommandDelivers(j: Job, s: State, t: State, spurious: bool)
    requires Inv(j, s) && CommandStep(j, s, t, spurious)
    ensures Delivered(j, t.p, t.writer, t.cmd == CFailed)
  {
    hide IsShare, Counting, Succeeding, Locks;
    if s.cmd == CCreate {
      assert t.p.laid == [] && !s.writer;
      assert j.Offset(|s.p.finished|) == s.p.taken - s.p.left;
    }
  }

  lemma MoreLaid(j: Job, p: Progress)
    requires Delivered(j, p, true, false) && p.toWrite <= p.left <= p.taken <= |j.stream|
    ensures Delivered(j, Laid(j, p), true, false)
  {
    var at, here := j.Offset(|p.finished|), p.taken - p.left;
    assert j.stream[at..here] + j.stream[here..here + p.toWrite] == j.stream[at..here + p.toWrite];
    assert IsPart(j, |p.finished|, p.laid + j.stream[here..here + p.toWrite]);
  }

  lemma MoreFinished(j: Job, p: Progress)
    requires Delivered(j, p, true, false) && |p.finished| < |j.sizes| && |p.laid| == j.sizes[|p.finished|]
    ensures Delivered(j, p.(finished := p.finished + [p.laid]), false, false)
  {
    var k := |p.finished|;
    assert j.Offset(k + 1) == j.Offset(k) + j.sizes[k];
    assert IsPart(j, k, p.laid);
    assert IsShare(j, k, p.laid);
  }

  lemma WorkerDelivers(j: Job, s: State, t: State, spurious: bool)
    requires Inv(j, s) && WorkerStep(j, s, t, spurious)
    ensures Delivered(j, t.p, t.writer, t.cmd == CFailed)
  {
    match s.wrk
    case WWrite =>
      if t.wrk == WCheck {
        MoreLaid(j, s.p);
      }
    case WReset => MoreFinished(j, s.p);
    case _ =>
  }

  lemma StepInv(j: Job, s: State, t: State, spurious: bool)
    requires Positive(j) && Inv(j, s) && Step(j, s, t, spurious)
    ensures Inv(j, t)
  {
    if CommandStep(j, s, t, spurious) {
      CommandControl(j, s, t, spurious);
      CommandCounts(j, s, t, spurious);
      CommandSucceeds(j, s, t, spurious);
      CommandFills(j, s, t, spurious);
      CommandDelivers(j, s, t, spurious);
    } else {
      WorkerControl(j, s, t, spurious);
      WorkerCounts(j, s, t, spurious);
      WorkerSucceeds(j, s, t, spurious);
      WorkerFills(j, s, t, spurious);
      WorkerDelivers(j, s, t, spurious);
    }
  }

  /** A run: states, and for each step whether it was a spurious wake-up. */
  ghost predicate IsRun(j: Job, run: seq<State>, spurious: seq<bool>) {
    && Positive(j) && 0 < |run| == |spurious| + 1 && Init(run[0])
    && forall i :: 0 <= i < |spurious| ==> Step(j, run[i], run[i + 1], spurious[i])
  }

  lemma {:induction false} RunInv(j: Job, run: seq<State>, spurious: seq<bool>, i: nat)
    requires IsRun(j, run, spurious) && i < |run|
    ensures Inv(j, run[i])
  {
    if 0 < i {
      RunInv(j, run, spurious, i - 1);
      StepInv(j, run[i - 1], run[i], spurious[i - 1]);
    }
  }

  // ---------------------------------------------------------------- what it gives

  /** Safety: completed writers have laid the stream cut in order, the k-th exactly the next
      TotalBlockSize * H_BLOCK_SIZE bytes; a `new` that returned SUCCESS is one of them; and the
      worker writes only through a live writer whose command is waiting for it. */
  lemma HandoffSafe(j: Job, run: seq<State>, spurious: seq<bool>, i: nat)
    requires IsRun(j, run, spurious) && i < |run|
    ensures forall k :: 0 <= k < |run[i].p.finished| ==> IsShare(j, k, run[i].p.finished[k])
    ensures run[i].p.succeeded <= |run[i].p.finished| <= run[i].p.created <= |j.sizes|
    ensures Using(run[i].wrk) ==> run[i].writer && Waiting(run[i].cmd)
    ensures run[i].wrk == WWrite ==>
              |run[i].p.laid| + run[i].p.toWrite <= j.Size(run[i].p.created)
  {
    RunInv(j, run, spurious, i);
  }

  /** Some step other than a spurious wake-up is open to the command thread (to the worker). */
  predicate CommandCanStep(s: State) {
    match s.cmd
    case CLock => s.holder == Nobody
    case CWoken => s.holder == Nobody
    case CJoinLock => s.holder == Nobody
    case CAsleep => false
    case CJoining => s.wrk == WExited
    case CFailed => false
    case CLeft => false
    case CDone => false
    case _ => true
  }

  predicate WorkerCanStep(s: State) {
    match s.wrk
    case WLock => s.holder == Nobody
    case WWoken => s.holder == Nobody
    case WResetLock => s.holder == Nobody
    case WEnd => s.holder == Nobody
    case WAsleep => false
    case WExited => false
    case _ => true
  }

  /** No state is stuck: until the command thread has failed or joined the worker, one of the two
      can move without a spurious wake-up, and they are never both asleep. If it is a `new` that
      failed the worker has ended; after any other failure it may be asleep for good. */
  lemma HandoffNeverStuck(j: Job, run: seq<State>, spurious: seq<bool>, i: nat)
    requires IsRun(j, run, spurious) && i < |run|
    ensures run[i].cmd != CAsleep || run[i].wrk != WAsleep
    ensures run[i].cmd != CFailed && run[i].cmd != CLeft && run[i].cmd != CDone ==>
              CommandCanStep(run[i]) || WorkerCanStep(run[i])
    ensures run[i].cmd == CLeft ==> WorkerCanStep(run[i]) || run[i].wrk == WExited || run[i].wrk == WAsleep
    ensures run[i].cmd == CFailed ==> Ended(run[i].wrk)
    ensures run[i].cmd == CDone ==> run[i].wrk == WExited
  {
    RunInv(j, run, spurious, i);
  }

  /** The worker has data and looks for a writer. */
  predicate Stranded(pc: WorkerPc) {
    pc == WLock || pc == WTest || pc == WAsleep || pc == WWoken
  }

  /** When a command other than `new` has failed, a worker that has data left never gets past its
      wait, let alone to its end, however often it is woken. */
  lemma {:induction false} LeftBehind(j: Job, run: seq<State>, spurious: seq<bool>, i: nat, k: nat)
    requires IsRun(j, run, spurious) && i <= k < |run|
    requires run[i].cmd == CLeft && (Stranded(run[i].wrk) || (run[i].wrk == WLoop && 0 < run[i].p.left))
    ensures run[k].cmd == CLeft && !Ended(run[k].wrk)
    ensures Stranded(run[k].wrk) || (run[k].wrk == WLoop && 0 < run[k].p.left)
    decreases k
  {
    hide Step, Control, Counting, Filling, Succeeding, Delivered;
    if i < k {
      LeftBehind(j, run, spurious, i, k - 1);
      RunInv(j, run, spurious, k - 1);
      assert Step(j, run[k - 1], run[k - 1 + 1], spurious[k - 1]);
      StaysBehind(j, run[k - 1], run[k - 1 + 1], spurious[k - 1]);
    }
  }

  lemma StaysBehind(j: Job, s: State, t: State, spurious: bool)
    requires Control(s) && Step(j, s, t, spurious) && s.cmd == CLeft
    requires Stranded(s.wrk) || (s.wrk == WLoop && 0 < s.p.left)
    ensures t.cmd == CLeft && (Stranded(t.wrk) || (t.wrk == WLoop && 0 < t.p.left))
  {
  }

  // ---------------------------------------------------------------- termination

  function CommandRank(pc: CommandPc): nat {
    match pc
    case CIdle => 20 case CLock => 19 case CCreate => 18
    case CJoinLock => 17 case CJoinSet => 16
    case CWoken => 13 case CTest => 12
    case CUnlockDone => 11 case CReset => 10
    case CUnlockFail => 9 case CDrop => 8
    case CAsleep => 5
    case CJoinUnlock => 3 case CJoining => 2 case CDone => 1 case CFailed => 0 case CLeft => 0
  }

  function WorkerRank(pc: WorkerPc): nat {
    match pc
    case WCheck => 40 case WResetLock => 39 case WReset => 38 case WResetUnlock => 37
    case WLoop => 36 case WLock => 35
    case WIdle => 34
    case WWoken => 33 case WTest => 32 case WMeasure => 31 case WWrite => 30
    case WAsleep => 24
    case WEnd => 13 case WEndSet => 12 case WEndUnlock => 1 case WExited => 0
  }

  /** What is left to do, weighed so that no broadcast can undo progress. */
  function Potential(j: Job, s: State): int {
    100 * (|j.stream| - s.p.taken) + 50 * s.p.left
    + 40 * (|j.sizes| - s.p.created) + 40 * (|j.sizes| - s.p.succeeded) + 40 * (|j.sizes| - |s.p.finished|)
    + CommandRank(s.cmd) + WorkerRank(s.wrk)
  }

  lemma CommandDown(j: Job, s: State, t: State, spurious: bool)
    requires CommandStep(j, s, t, spurious)
    ensures Potential(j, t) < Potential(j, s) + if spurious then 9 else 0
  {
  }

  lemma WorkerDown(j: Job, s: State, t: State, spurious: bool)
    requires Control(s) && Filling(j, s) && WorkerStep(j, s, t, spurious)
    ensures Potential(j, t) < Potential(j, s) + if spurious then 10 else 0
  {
  }

  lemma StepDown(j: Job, s: State, t: State, spurious: bool)
    requires Inv(j, s) && Step(j, s, t, spurious)
    ensures Potential(j, t) < Potential(j, s) + if spurious then 10 else 0
  {
    if CommandStep(j, s, t, spurious) {
      CommandDown(j, s, t, spurious);
    } else {
      WorkerDown(j, s, t, spurious);
    }
  }

  function Count(flags: seq<bool>): nat {
    if flags == [] then 0 else Count(flags[..|flags| - 1]) + if flags[|flags| - 1] then 1 else 0
  }

  lemma {:induction false} RunDown(j: Job, run: seq<State>, spurious: seq<bool>, i: nat)
    requires IsRun(j, run, spurious) && i < |run|
    ensures Potential(j, run[i]) + i <= Potential(j, run[0]) + 10 * Count(spurious[..i])
  {
    hide Potential, Inv, CommandStep, WorkerStep, Init;
    if 0 < i {
      RunDown(j, run, spurious, i - 1);
      RunInv(j, run, spurious, i - 1);
      StepDown(j, run[i - 1], run[i], spurious[i - 1]);
      assert spurious[..i][..i - 1] == spurious[..i - 1];
    }
  }

  /** The hand-off ends: a run with w spurious wake-ups has at most 100 steps a byte of unpacked
      data, 120 a `new`, 54, and 10 w. */
  lemma HandoffEnds(j: Job, run: seq<State>, spurious: seq<bool>)
    requires IsRun(j, run, spurious)
    ensures |spurious| <= 100 * |j.stream| + 120 * |j.sizes| + 54 + 10 * Count(spurious)
  {
    var last := |spurious|;
    RunDown(j, run, spurious, last);
    RunInv(j, run, spurious, last);
    assert spurious[..last] == spurious;
  }
}
