/** When the hand-off of `new` data succeeds (services/applypatch/command_process.cpp,
    services/updater_binary/update_image_block.cpp): there is a run in which every `new` returns
    SUCCESS, and every run that meets no failure and cannot go on is such a run. */
module HandoffCompletes {
  import opened Device
  import opened NewDataHandoff

  /** Every `new` has succeeded, each with its share of the stream, and the worker is joined. */
  ghost predicate AllDone(j: Job, s: State) {
    && s.cmd == CDone && s.wrk == WExited && s.p.succeeded == |j.sizes| == |s.p.finished|
    && forall k :: 0 <= k < |j.sizes| ==> IsShare(j, k, s.p.finished[k])
  }

  // ---------------------------------------------------------------- there is such a run

  ghost predicate Path(j: Job, path: seq<State>) {
    path != [] && forall i :: 0 <= i < |path| - 1 ==> Step(j, path[i], path[i + 1], false)
  }

  lemma PathOn(j: Job, a: seq<State>, b: seq<State>)
    requires Path(j, a) && Path(j, b) && a[|a| - 1] == b[0]
    ensures Path(j, a + b[1..]) && (a + b[1..])[0] == a[0] && (a + b[1..])[|a| + |b| - 2] == b[|b| - 1]
  {
    hide Step;
    var c := a + b[1..];
    forall i | 0 <= i < |c| - 1 ensures Step(j, c[i], c[i + 1], false) {
      if |a| - 1 <= i {
        assert c[i] == b[i - (|a| - 1)] && c[i + 1] == b[i - (|a| - 1) + 1];
      }
    }
  }

  /** `k` commands have been served, and nothing is under way. */
  predicate Resting(j: Job, s: State, k: nat) {
    && k <= |j.sizes| && s.cmd == CIdle && s.wrk == WIdle && s.holder == Nobody && !s.writer && s.ready
    && s.p.created == s.p.succeeded == |s.p.finished| == k && s.p.taken == j.Offset(k) && s.p.left == 0
  }

  /** The command creates its writer and falls asleep; the worker gets a piece of just the size. */
  lemma Offered(j: Job, s: State, k: nat) returns (path: seq<State>)
    requires Positive(j) && Resting(j, s, k) && k < |j.sizes| && j.Offset(k + 1) <= |j.stream|
    ensures Path(j, path) && path[0] == s
    ensures var n := j.sizes[k];
      path[|path| - 1] == s.(cmd := CAsleep, wrk := WMeasure, writer := true,
        p := s.p.(created := k + 1, laid := [], taken := s.p.taken + n, left := n))
  {
    var n := j.sizes[k];
    var s1 := s.(cmd := CLock);
    var s2 := s1.(holder := Command, cmd := CCreate);
    var s3 := s2.(writer := true, cmd := CTest, p := s.p.(laid := [], created := k + 1));
    var s4 := s3.(cmd := CAsleep, holder := Nobody);
    var s5 := s4.(wrk := WLoop, p := s4.p.(taken := s.p.taken + n, left := n));
    var s6 := s5.(wrk := WLock);
    var s7 := s6.(holder := Worker, wrk := WTest);
    var s8 := s7.(holder := Nobody, wrk := WMeasure);
    assert CommandStep(j, s, s1, false) && CommandStep(j, s1, s2, false) && CommandStep(j, s2, s3, false);
    assert CommandStep(j, s3, s4, false) && WorkerStep(j, s4, s5, false) && WorkerStep(j, s5, s6, false);
    assert WorkerStep(j, s6, s7, false) && WorkerStep(j, s7, s8, false);
    path := [s, s1, s2, s3, s4, s5, s6, s7, s8];
  }

  /** The worker writes the piece, resets the writer and wakes the command, which returns. */
  lemma Taken(j: Job, s: State, k: nat) returns (path: seq<State>)
    requires k < |j.sizes| && s.cmd == CAsleep && s.wrk == WMeasure && s.holder == Nobody && s.writer && s.ready
    requires s.p.created == k + 1 && s.p.succeeded == |s.p.finished| == k && s.p.laid == []
    requires s.p.left == j.sizes[k] && 0 < s.p.left && s.p.taken == j.Offset(k) + s.p.left <= |j.stream|
    ensures Path(j, path) && path[0] == s && Resting(j, path[|path| - 1], k + 1)
  {
    var a := PieceWritten(j, s, k);
    var b := CommandReturns(j, a[|a| - 1], k);
    PathOn(j, a, b);
    path := a + b[1..];
  }

  lemma PieceWritten(j: Job, s: State, k: nat) returns (path: seq<State>)
    requires k < |j.sizes| && s.cmd == CAsleep && s.wrk == WMeasure && s.holder == Nobody && s.writer && s.ready
    requires s.p.created == k + 1 && s.p.succeeded == |s.p.finished| == k && s.p.laid == []
    requires s.p.left == j.sizes[k] && 0 < s.p.left && s.p.taken == j.Offset(k) + s.p.left <= |j.stream|
    ensures Path(j, path) && path[0] == s
    ensures var t := path[|path| - 1];
      && t == s.(cmd := CWoken, wrk := WIdle, writer := false, p := t.p)
      && t.p.created == |t.p.finished| == k + 1 && t.p.succeeded == k && t.p.left == 0 && t.p.taken == j.Offset(k + 1)
  {
    var n := j.sizes[k];
    var s1 := s.(wrk := WWrite, p := s.p.(toWrite := n));
    var s2 := s1.(wrk := WCheck, p := Laid(j, s1.p));
    var s3 := s2.(wrk := WResetLock);
    var s4 := s3.(holder := Worker, wrk := WReset);
    var s5 := s4.(cmd := CWoken, writer := false, wrk := WResetUnlock,
        p := s4.p.(finished := s4.p.finished + [s4.p.laid]));
    var s6 := s5.(holder := Nobody, wrk := WLoop);
    var s7 := s6.(wrk := WIdle);
    assert WorkerStep(j, s, s1, false) && WorkerStep(j, s1, s2, false) && WorkerStep(j, s2, s3, false);
    assert WorkerStep(j, s3, s4, false) && WorkerStep(j, s4, s5, false) && WorkerStep(j, s5, s6, false);
    assert WorkerStep(j, s6, s7, false);
    path := [s, s1, s2, s3, s4, s5, s6, s7];
  }

  lemma CommandReturns(j: Job, s: State, k: nat) returns (path: seq<State>)
    requires k < |j.sizes| && s.cmd == CWoken && s.wrk == WIdle && s.holder == Nobody && !s.writer && s.ready
    requires s.p.created == |s.p.finished| == k + 1 && s.p.succeeded == k && s.p.left == 0
    requires s.p.taken == j.Offset(k + 1)
    ensures Path(j, path) && path[0] == s && Resting(j, path[|path| - 1], k + 1)
  {
    var s1 := s.(holder := Command, cmd := CTest);
    var s2 := s1.(cmd := CUnlockDone);
    var s3 := s2.(holder := Nobody, cmd := CReset);
    var s4 := s3.(cmd := CIdle, p := s3.p.(succeeded := k + 1));
    assert CommandStep(j, s, s1, false) && CommandStep(j, s1, s2, false) && CommandStep(j, s2, s3, false);
    assert CommandStep(j, s3, s4, false);
    path := [s, s1, s2, s3, s4];
  }

  /** After the last command the worker is told to end, and joined. */
  lemma Joins(j: Job, s: State) returns (path: seq<State>)
    requires Resting(j, s, |j.sizes|)
    ensures Path(j, path) && path[0] == s
    ensures path[|path| - 1] == s.(cmd := CDone, wrk := WExited, ready := false)
  {
    var asked := s.(cmd := CJoining, ready := false);
    var a := JoinAsked(j, s);
    var b := WorkerEnds(j, asked);
    PathOn(j, a, b);
    path := a + b[1..];
  }

  lemma JoinAsked(j: Job, s: State) returns (path: seq<State>)
    requires Resting(j, s, |j.sizes|)
    ensures Path(j, path) && path[0] == s && path[|path| - 1] == s.(cmd := CJoining, ready := false)
  {
    var s1 := s.(cmd := CJoinLock);
    var s2 := s1.(holder := Command, cmd := CJoinSet);
    var s3 := s2.(ready := false, cmd := CJoinUnlock);
    var s4 := s3.(holder := Nobody, cmd := CJoining);
    assert CommandStep(j, s, s1, false) && CommandStep(j, s1, s2, false) && CommandStep(j, s2, s3, false);
    assert CommandStep(j, s3, s4, false);
    path := [s, s1, s2, s3, s4];
  }

  lemma WorkerEnds(j: Job, s: State) returns (path: seq<State>)
    requires s.cmd == CJoining && s.wrk == WIdle && s.holder == Nobody && !s.writer && !s.ready
    ensures Path(j, path) && path[0] == s && path[|path| - 1] == s.(cmd := CDone, wrk := WExited)
  {
    var s1 := s.(wrk := WEnd);
    var s2 := s1.(holder := Worker, wrk := WEndSet);
    var s3 := s2.(wrk := WEndUnlock);
    var s4 := s3.(holder := Nobody, wrk := WExited);
    var s5 := s4.(cmd := CDone);
    assert WorkerStep(j, s, s1, false) && WorkerStep(j, s1, s2, false) && WorkerStep(j, s2, s3, false);
    assert WorkerStep(j, s3, s4, false) && CommandStep(j, s4, s5, false);
    path := [s, s1, s2, s3, s4, s5];
  }

  lemma {:induction false} Serves(j: Job, s: State, k: nat) returns (path: seq<State>)
    requires Positive(j) && j.Offset(|j.sizes|) <= |j.stream| && Resting(j, s, k)
    ensures Path(j, path) && path[0] == s
    ensures var t := path[|path| - 1];
      t.cmd == CDone && t.wrk == WExited && t.p.succeeded == |t.p.finished| == |j.sizes|
    decreases |j.sizes| - k
  {
    hide Step;
    if k == |j.sizes| {
      path := Joins(j, s);
    } else {
      OffsetGrows(j, k + 1, |j.sizes|);
      var offered := Offered(j, s, k);
      var taken := Taken(j, offered[|offered| - 1], k);
      PathOn(j, offered, taken);
      var served := offered + taken[1..];
      var rest := Serves(j, taken[|taken| - 1], k + 1);
      PathOn(j, served, rest);
      path := served + rest[1..];
    }
  }

  lemma {:induction false} OffsetGrows(j: Job, i: nat, k: nat)
    requires i <= k <= |j.sizes|
    ensures j.Offset(i) <= j.Offset(k)
    decreases k
  {
    if i < k {
      OffsetGrows(j, i, k - 1);
    }
  }

  /** Whatever the sizes, if the stream holds as much there is a run in which every `new` succeeds
      and gets its share. */
  lemma HandoffCanComplete(j: Job) returns (run: seq<State>, spurious: seq<bool>)
    requires Positive(j) && j.Offset(|j.sizes|) <= |j.stream|
    ensures IsRun(j, run, spurious) && (forall b :: b in spurious ==> !b)
    ensures AllDone(j, run[|run| - 1])
  {
    hide Step;
    var s := State(CIdle, WIdle, Nobody, false, true, Progress(0, 0, [], [], 0, 0, 0));
    run := Serves(j, s, 0);
    spurious := seq(|run| - 1, _ => false);
    HandoffSafe(j, run, spurious, |run| - 1);
  }

  // ---------------------------------------------------------------- runs without a failure

  /** The unpacking has ended, or failed, or the worker could not write. */
  predicate Ending(pc: WorkerPc) {
    pc == WEnd || Ended(pc) || pc == WEndSet
  }

  predicate Joining(pc: CommandPc) {
    pc == CJoinLock || pc == CJoinSet || Joined(pc)
  }

  /** No write of the worker fails, and no command but `new`. */
  ghost predicate NoFailure(j: Job, run: seq<State>) {
    && (forall i :: 0 <= i < |run| - 1 ==> !(run[i].wrk == WWrite && run[i + 1].wrk == WEnd))
    && (forall i :: 0 <= i < |run| ==> run[i].cmd != CLeft)
  }

  ghost predicate OnCourse(j: Job, s: State) {
    && (Ending(s.wrk) ==> |s.p.finished| == |j.sizes|)
    && (Joining(s.cmd) ==> s.p.created == |j.sizes|)
    && !Failing(s.cmd) && s.cmd != CLeft
  }

  /** As long as a share is missing the stream has not been taken up to the end of the last. */
  lemma AllTaken(j: Job, s: State)
    requires Positive(j) && Inv(j, s) && s.wrk == WIdle && s.cmd != CFailed && j.Offset(|j.sizes|) <= s.p.taken
    ensures |s.p.finished| == |j.sizes|
  {
    var k := |s.p.finished|;
    if k < |j.sizes| {
      assert j.Offset(k + 1) == j.Offset(k) + j.sizes[k];
      OffsetGrows(j, k + 1, |j.sizes|);
    }
  }

  lemma CommandOnCourse(j: Job, s: State, t: State, spurious: bool)
    requires Inv(j, s) && OnCourse(j, s) && CommandStep(j, s, t, spurious) && t.cmd != CLeft
    ensures OnCourse(j, t)
  {
    hide Filling, Delivered, Succeeding;
  }

  lemma WorkerOnCourse(j: Job, s: State, t: State, spurious: bool)
    requires Positive(j) && Inv(j, s) && OnCourse(j, s) && WorkerStep(j, s, t, spurious)
    requires !(s.wrk == WWrite && t.wrk == WEnd)
    requires s.wrk == WIdle && t.wrk == WEnd ==> j.Offset(|j.sizes|) <= s.p.taken
    ensures OnCourse(j, t)
  {
    hide Filling, Delivered, Succeeding;
    if s.wrk == WIdle && t.wrk == WEnd {
      AllTaken(j, s);
    }
  }

  /** A worker that is ending takes no more. */
  lemma {:induction false} TakenNoMore(j: Job, run: seq<State>, spurious: seq<bool>, i: nat, k: nat)
    requires IsRun(j, run, spurious) && i <= k < |run| && Ending(run[i].wrk)
    ensures Ending(run[k].wrk) && run[k].p.taken == run[i].p.taken
    decreases k
  {
    if i < k {
      TakenNoMore(j, run, spurious, i, k - 1);
      assert Step(j, run[k - 1], run[k - 1 + 1], spurious[k - 1]);
      EndingStays(j, run[k - 1], run[k - 1 + 1], spurious[k - 1]);
    }
  }

  lemma EndingStays(j: Job, s: State, t: State, spurious: bool)
    requires Step(j, s, t, spurious) && Ending(s.wrk)
    ensures Ending(t.wrk) && t.p.taken == s.p.taken
  {
  }

  lemma {:induction false} StaysOnCourse(j: Job, run: seq<State>, spurious: seq<bool>, i: nat)
    requires IsRun(j, run, spurious) && NoFailure(j, run) && i < |run|
    requires j.Offset(|j.sizes|) <= run[|run| - 1].p.taken
    ensures OnCourse(j, run[i])
  {
    hide Step, Inv, CommandStep, WorkerStep, OnCourse, Init;
    if i == 0 {
      StartsOnCourse(j, run[0]);
    } else {
      var s, t := run[i - 1], run[i];
      StaysOnCourse(j, run, spurious, i - 1);
      RunInv(j, run, spurious, i - 1);
      assert Step(j, run[i - 1], run[i - 1 + 1], spurious[i - 1]);
      if s.wrk == WIdle && t.wrk == WEnd {
        TakenNoMore(j, run, spurious, i, |run| - 1);
        EndsWithoutTaking(j, s, t, spurious[i - 1]);
      }
      StepOnCourse(j, s, t, spurious[i - 1]);
    }
  }

  lemma StartsOnCourse(j: Job, s: State)
    requires Init(s)
    ensures OnCourse(j, s)
  {
  }

  lemma EndsWithoutTaking(j: Job, s: State, t: State, spurious: bool)
    requires Step(j, s, t, spurious) && s.wrk == WIdle && t.wrk == WEnd
    ensures t.p.taken == s.p.taken
  {
  }

  lemma StepOnCourse(j: Job, s: State, t: State, spurious: bool)
    requires Positive(j) && Inv(j, s) && OnCourse(j, s) && Step(j, s, t, spurious) && t.cmd != CLeft
    requires !(s.wrk == WWrite && t.wrk == WEnd)
    requires s.wrk == WIdle && t.wrk == WEnd ==> j.Offset(|j.sizes|) <= s.p.taken
    ensures OnCourse(j, t)
  {
    hide Inv, CommandStep, WorkerStep, OnCourse;
    if CommandStep(j, s, t, spurious) {
      CommandOnCourse(j, s, t, spurious);
    } else {
      WorkerOnCourse(j, s, t, spurious);
    }
  }

  /** No step but a spurious wake-up is left. */
  ghost predicate AtEnd(j: Job, s: State) {
    forall t :: !Step(j, s, t, false)
  }

  /** Where a thread can step there is a step, and nowhere else; and a sleeper may wake up for no
      reason. */
  lemma CommandSteps(j: Job, s: State)
    ensures (exists t :: CommandStep(j, s, t, false)) <==> CommandCanStep(s)
    ensures (exists t :: CommandStep(j, s, t, true)) <==> s.cmd == CAsleep
  {
    match s.cmd {
      case CIdle => assert CommandStep(j, s, s.(cmd := CLeft), false);
      case CLock => assert s.holder == Nobody ==> CommandStep(j, s, s.(holder := Command, cmd := CCreate), false);
      case CCreate => assert CommandStep(j, s,
        s.Broadcast().(writer := true, cmd := CTest, p := s.p.(laid := [], created := s.p.created + 1)), false);
      case CTest =>
        assert CommandStep(j, s, if !s.writer then s.(cmd := CUnlockDone) else if !s.ready then s.(cmd := CUnlockFail)
                                 else s.(cmd := CAsleep, holder := Nobody), false);
      case CWoken => assert s.holder == Nobody ==> CommandStep(j, s, s.(holder := Command, cmd := CTest), false);
      case CUnlockDone => assert CommandStep(j, s, s.(holder := Nobody, cmd := CReset), false);
      case CReset =>
        assert CommandStep(j, s, s.(writer := false, cmd := CIdle, p := s.p.(succeeded := s.p.succeeded + 1)), false);
      case CUnlockFail => assert CommandStep(j, s, s.(holder := Nobody, cmd := CDrop), false);
      case CDrop => assert CommandStep(j, s, s.(writer := false, cmd := CFailed), false);
      case CJoinLock => assert s.holder == Nobody ==> CommandStep(j, s, s.(holder := Command, cmd := CJoinSet), false);
      case CJoinSet => assert CommandStep(j, s, s.Broadcast().(ready := false, cmd := CJoinUnlock), false);
      case CJoinUnlock => assert CommandStep(j, s, s.(holder := Nobody, cmd := CJoining), false);
      case CJoining => assert s.wrk == WExited ==> CommandStep(j, s, s.(cmd := CDone), false);
      case CAsleep => assert CommandStep(j, s, s.(cmd := CWoken), true);
      case CFailed =>
      case CLeft =>
      case CDone =>
    }
  }

  lemma WorkerSteps(j: Job, s: State)
    requires Inv(j, s)
    ensures (exists t :: WorkerStep(j, s, t, false)) <==> WorkerCanStep(s)
    ensures (exists t :: WorkerStep(j, s, t, true)) <==> s.wrk == WAsleep
  {
    match s.wrk {
      case WIdle => assert WorkerStep(j, s, s.(wrk := WEnd), false);
      case WLoop => assert WorkerStep(j, s, s.(wrk := if 0 < s.p.left then WLock else WIdle), false);
      case WLock => assert s.holder == Nobody ==> WorkerStep(j, s, s.(holder := Worker, wrk := WTest), false);
      case WTest => assert WorkerStep(j, s,
        s.(holder := Nobody, wrk := if s.writer then WMeasure else if !s.ready then WEnd else WAsleep), false);
      case WWoken => assert s.holder == Nobody ==> WorkerStep(j, s, s.(holder := Worker, wrk := WTest), false);
      case WMeasure =>
        var room := j.Size(s.p.created) - |s.p.laid|;
        var n: nat := if s.p.left < room then s.p.left else room;
        assert WorkerStep(j, s, if n <= 0 then s.(wrk := WIdle, p := s.p.(left := 0))
                                else s.(wrk := WWrite, p := s.p.(toWrite := n)), false);
      case WWrite => assert WorkerStep(j, s, s.(wrk := WEnd), false);
      case WCheck =>
        assert WorkerStep(j, s, s.(wrk := if |s.p.laid| == j.Size(s.p.created) then WResetLock else WLoop), false);
      case WResetLock => assert s.holder == Nobody ==> WorkerStep(j, s, s.(holder := Worker, wrk := WReset), false);
      case WReset => assert WorkerStep(j, s,
        s.Broadcast().(writer := false, wrk := WResetUnlock, p := s.p.(finished := s.p.finished + [s.p.laid])), false);
      case WResetUnlock => assert WorkerStep(j, s, s.(holder := Nobody, wrk := WLoop), false);
      case WEnd => assert s.holder == Nobody ==> WorkerStep(j, s, s.(holder := Worker, wrk := WEndSet), false);
      case WEndSet =>
        assert WorkerStep(j, s, (if s.writer then s.Broadcast() else s).(ready := false, wrk := WEndUnlock), false);
      case WEndUnlock => assert WorkerStep(j, s, s.(holder := Nobody, wrk := WExited), false);
      case WAsleep => assert WorkerStep(j, s, s.(wrk := WWoken), true);
      case WExited =>
    }
  }

  /** A run in which nothing fails, whose worker has taken as much of the stream as the commands
      need, and which cannot go on, has served every command and joined the worker, however its
      steps were interleaved and the stream was cut. */
  lemma HandoffCompletesUnlessFailed(j: Job, run: seq<State>, spurious: seq<bool>)
    requires IsRun(j, run, spurious) && NoFailure(j, run) && AtEnd(j, run[|run| - 1])
    requires j.Offset(|j.sizes|) <= run[|run| - 1].p.taken
    ensures AllDone(j, run[|run| - 1])
  {
    hide Inv, OnCourse, AtEnd, CommandCanStep, WorkerCanStep, IsShare;
    var i := |run| - 1;
    StaysOnCourse(j, run, spurious, i);
    RunInv(j, run, spurious, i);
    HandoffNeverStuck(j, run, spurious, i);
    HandoffSafe(j, run, spurious, i);
    CannotStep(j, run[i]);
    CourseEnds(j, run[i]);
  }

  lemma CannotStep(j: Job, s: State)
    requires Inv(j, s) && AtEnd(j, s)
    ensures !CommandCanStep(s) && !WorkerCanStep(s)
  {
    hide CommandStep, WorkerStep, Inv, CommandCanStep, WorkerCanStep, AtEnd;
    if CommandCanStep(s) {
      CommandSteps(j, s);
      NotAtEnd(j, s);
    }
    if WorkerCanStep(s) {
      WorkerSteps(j, s);
      NotAtEnd(j, s);
    }
  }

  lemma NotAtEnd(j: Job, s: State)
    requires (exists t :: CommandStep(j, s, t, false)) || (exists t :: WorkerStep(j, s, t, false))
    ensures !AtEnd(j, s)
  {
    hide CommandStep, WorkerStep;
    var t :| CommandStep(j, s, t, false) || WorkerStep(j, s, t, false);
    assert Step(j, s, t, false);
  }

  lemma CourseEnds(j: Job, s: State)
    requires Inv(j, s) && OnCourse(j, s) && (s.cmd == CFailed || s.cmd == CLeft || s.cmd == CDone)
    ensures s.cmd == CDone && s.p.succeeded == |s.p.finished| == |j.sizes|
  {
    hide Filling, Delivered;
  }
}
