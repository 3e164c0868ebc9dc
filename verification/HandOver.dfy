/** The hand-over makes progress: the transaction thread can always go on, and left alone it
    executes every block that has been signalled. */
module HandOver {
  import opened Bytes
  import Q = ThreadQueue
  import R = QueueRuns
  import opened TransactionThread

  /** Actions of the transaction thread itself, beside starting another push. */
  ghost predicate Own(a: Action) {
    match a
    case QueueStep(i, _) => i == 0
    case Signal(i) => i == 0
    case StartPush(_, _) => false
    case _ => true
  }

  /** What the transaction thread does next. */
  ghost function Choice(s: State): Action
    requires |s.q.threads| > 0
  {
    var pc := s.q.threads[0];
    match s.phase
    case Waiting => Consume
    case Draining(_) => if pc.Idle? then StartPop else if pc.PopReturn? then FinishPop else QueueStep(0, false)
    case Executing(_) =>
      if pc.Idle? then FinishBlock
      else if pc.PushReturn? && pc.pushed.Some? then Signal(0) else QueueStep(0, false)
  }

  /** Unless it waits and no signal is pending, the transaction thread has a step to take,
      and it is not that of starting a push. */
  lemma CanGoOn(s: State)
    requires Inv(s) && (s.signals > 0 || !s.phase.Waiting?)
    ensures |s.q.threads| > 0 && Own(Choice(s)) && Enabled(s, Choice(s))
  {
    hide Q.HistoryInv, Q.SlotsInv, Q.OwnersInv, Q.PcInv;
  }

  /** So has every other thread that is pushing or has pushed, and an idle one can push. */
  lemma ProducersGoOn(s: State, i: nat, v: seq<Byte>)
    requires Inv(s) && 0 < i < |s.q.threads|
    ensures var pc := s.q.threads[i];
      if pc.Idle? then Enabled(s, StartPush(i, v))
      else if pc.PushReturn? && pc.pushed.Some? then Enabled(s, Signal(i)) else Enabled(s, QueueStep(i, false))
  {
    hide Q.HistoryInv, Q.SlotsInv, Q.OwnersInv, Q.PcInv;
  }

  /** A producer's signal is for the block it has pushed, and no other. */
  lemma SignalsItsBlock(s: State, i: nat, t: nat)
    requires Inv(s) && i < |s.q.threads| && s.q.threads[i] == Q.PushReturn(Some(t))
    ensures Enabled(s, Signal(i)) && t !in s.signalled && t < |s.q.pushers| && s.q.pushers[t] == i
    ensures var s' := Step(s, Signal(i));
      && s'.signalled == s.signalled + {t} && s'.signals == s.signals + 1
      && s'.q == Q.Go(s.q, i, Q.Idle) && s'.executed == s.executed
  {
    hide Q.SlotsInv, Q.OwnersInv, Q.PcInv, Q.ValidCapacity;
  }

  // ------------------------------------------------------------- left alone

  /** No other thread is in the middle of copying a block in. */
  ghost predicate Quiet(s: State) {
    forall j :: 0 < j < |s.q.threads| ==> !s.q.threads[j].PushCopy?
  }

  ghost predicate Behind(s: State) {
    |s.executed| < |s.signalled|
  }

  /** How far the thread is from finishing its next pop. */
  ghost function Rank(s: State): nat
    requires |s.q.threads| > 0
  {
    var pc, w := s.q.threads[0], s.q.width;
    match s.phase
    case Draining(_) =>
      if pc.Idle? then w + 7 else if pc.PopReturn? then (if pc.popped.None? then w + 8 else 1) else R.Left(s.q, pc) + 1
    case Waiting => w + 9
    case Executing(_) =>
      if pc.Idle? then w + 10 else if pc.PushReturn? then w + 11 else R.Left(s.q, pc) + w + 11
  }

  /** The next ticket to take is published whenever the thread is behind and has not won a
      ticket: whoever pushed it has finished. */
  lemma NextIsPublished(s: State)
    requires Inv(s) && Quiet(s) && Behind(s) && s.phase.Draining?
    ensures Q.HistoryInv(s.q)
    ensures var pc := s.q.threads[0]; !pc.PopCopy? && Fetched(s) == 0 ==> s.q.at in s.q.published
  {
    hide Q.SlotsInv, Q.PcInv;
    var pc := s.q.threads[0];
    if !pc.PopCopy? && Fetched(s) == 0 { NeverSpinsOnEmpty(s); }
  }

  /** One of the thread's own steps: either it looks at the result of a successful pop, or it
      comes nearer to that. */
  ghost predicate Nearer(s: State, s': State) {
    && |s'.q.threads| == |s.q.threads| > 0 && Quiet(s') && s.signalled <= s'.signalled && s'.q.width == s.q.width
    && (|s'.executed| == |s.executed| + 1 || (|s'.executed| == |s.executed| && Rank(s') < Rank(s)))
  }

  lemma PopStepNearer(s: State)
    requires Inv(s) && Quiet(s) && Behind(s) && s.phase.Draining? && R.InPop(s.q.threads[0])
    ensures Enabled(s, QueueStep(0, false)) && Nearer(s, Step(s, QueueStep(0, false)))
  {
    hide Q.Index, Q.Step, Q.SlotsInv, Q.OwnersInv, Q.PcInv, Q.ValidCapacity, R.Left;
    NextIsPublished(s);
    R.PopStepAlone(s.q, 0);
    R.LeftPositive(s.q, 0);
    Q.CopierOwns(s.q, 0);
  }

  lemma PushStepNearer(s: State)
    requires Inv(s) && Quiet(s) && s.phase.Executing? && R.InPush(s.q.threads[0])
    ensures Enabled(s, QueueStep(0, false)) && Nearer(s, Step(s, QueueStep(0, false)))
  {
    hide Q.Index, Q.Step, Q.SlotsInv, Q.OwnersInv, Q.PcInv, Q.ValidCapacity, R.Left;
    R.PushStepAlone(s.q, 0);
    R.LeftPositive(s.q, 0);
  }

  lemma CallNearer(s: State, a: Action)
    requires Inv(s) && Quiet(s) && Behind(s) && a == Choice(s) && !R.InPop(s.q.threads[0]) && !R.InPush(s.q.threads[0])
    ensures Enabled(s, a) && Own(a) && Nearer(s, Step(s, a))
  {
    hide Q.Index, Q.SlotsInv, Q.OwnersInv, Q.PcInv, Q.ValidCapacity;
    if s.phase.Draining? { NextIsPublished(s); }
  }

  lemma ChoiceNearer(s: State)
    requires Inv(s) && Quiet(s) && Behind(s)
    ensures |s.q.threads| > 0 && Own(Choice(s)) && Enabled(s, Choice(s))
    ensures var s' := Step(s, Choice(s)); Inv(s') && Nearer(s, s')
  {
    hide Q.Inv, Step, Nearer, Quiet;
    var pc := s.q.threads[0];
    if R.InPop(pc) {
      PopStepNearer(s);
    } else if R.InPush(pc) {
      PushStepNearer(s);
    } else {
      CallNearer(s, Choice(s));
    }
    StepInv(s, Choice(s));
  }

  // ------------------------------------------------------------------- runs

  ghost predicate OwnNext(s: State, s': State) {
    exists a :: Own(a) && Enabled(s, a) && s' == Step(s, a)
  }

  /** A run in which only the transaction thread moves. */
  ghost predicate OwnRun(run: seq<State>) {
    |run| > 0 && forall k :: 0 <= k < |run| - 1 ==> OwnNext(run[k], run[k + 1])
  }

  lemma Prepend(s: State, run: seq<State>) returns (longer: seq<State>)
    requires OwnRun(run) && OwnNext(s, run[0])
    ensures OwnRun(longer) && longer[0] == s && longer[|longer| - 1] == run[|run| - 1]
  {
    hide OwnNext;
    longer := [s] + run;
    forall k | 0 <= k < |longer| - 1 ensures OwnNext(longer[k], longer[k + 1]) {
      if k > 0 { assert longer[k] == run[k - 1] && longer[k + 1] == run[k - 1 + 1]; }
    }
  }

  /** Left alone with a block that is signalled but not executed, the thread executes the
      next one. */
  lemma {:induction false} ExecutesNext(s: State) returns (run: seq<State>)
    requires Inv(s) && Quiet(s) && Behind(s)
    ensures OwnRun(run) && run[0] == s
    ensures var s' := run[|run| - 1];
      && Inv(s') && Quiet(s') && s.signalled <= s'.signalled
      && |s'.executed| == |s.executed| + 1 && s'.executed <= s'.q.pushed
    decreases if |s.q.threads| > 0 then Rank(s) else 0
  {
    hide Inv, Quiet, Step, Enabled, Own, Choice, Rank;
    ChoiceNearer(s);
    var s' := Step(s, Choice(s));
    assert OwnNext(s, s');
    if |s'.executed| == |s.executed| + 1 {
      run := [s'];
    } else {
      SubsetSize(s.signalled, s'.signalled);
      run := ExecutesNext(s');
    }
    run := Prepend(s, run);
    ExecutedIsPrefix(run[|run| - 1]);
  }

  lemma ExecutedIsPrefix(s: State)
    requires Inv(s)
    ensures s.executed <= s.q.pushed
  {
    hide Q.SlotsInv, Q.OwnersInv, Q.PcInv;
  }

  lemma Append(a: seq<State>, b: seq<State>) returns (run: seq<State>)
    requires OwnRun(a) && OwnRun(b) && a[|a| - 1] == b[0]
    ensures OwnRun(run) && run[0] == a[0] && run[|run| - 1] == b[|b| - 1]
  {
    hide OwnNext;
    run := a + b[1..];
    forall k | 0 <= k < |run| - 1 ensures OwnNext(run[k], run[k + 1]) {
      if k < |a| - 1 {
        assert run[k] == a[k] && run[k + 1] == a[k + 1];
      } else {
        var j := k - (|a| - 1);
        assert run[k] == b[j] && run[k + 1] == b[j + 1];
      }
    }
  }

  /** From every reachable state in which no other thread is in the middle of copying a block
      in, the transaction thread, left alone, executes every block signalled so far. */
  lemma {:induction false} ExecutesAll(s: State, signalled: nat) returns (run: seq<State>)
    requires Inv(s) && Quiet(s) && signalled <= |s.signalled|
    ensures OwnRun(run) && run[0] == s
    ensures var s' := run[|run| - 1]; Inv(s') && |s'.executed| >= signalled && s'.executed <= s'.q.pushed
    decreases signalled - |s.executed|
  {
    hide Inv, Quiet, OwnNext;
    ExecutedIsPrefix(s);
    if |s.executed| >= signalled {
      run := [s];
    } else {
      var first := ExecutesNext(s);
      var s' := first[|first| - 1];
      SubsetSize(s.signalled, s'.signalled);
      var rest := ExecutesAll(s', signalled);
      run := Append(first, rest);
    }
  }

  // ------------------------------------------------------- one block, end to end

  /** A run in which anyone moves. */
  ghost predicate Chain(run: seq<State>) {
    |run| > 0 && forall k :: 0 <= k < |run| - 1 ==> Next(run[k], run[k + 1])
  }

  lemma Extend(run: seq<State>, a: Action) returns (longer: seq<State>)
    requires Chain(run) && Enabled(run[|run| - 1], a)
    ensures Chain(longer) && longer[0] == run[0] && longer[|longer| - 1] == Step(run[|run| - 1], a)
  {
    hide Step, Enabled;
    longer := run + [Step(run[|run| - 1], a)];
    forall k | 0 <= k < |longer| - 1 ensures Next(longer[k], longer[k + 1]) {
      if k < |run| - 1 { assert Next(run[k], run[k + 1]); }
    }
  }

  lemma Join(a: seq<State>, b: seq<State>) returns (run: seq<State>)
    requires Chain(a) && OwnRun(b) && a[|a| - 1] == b[0]
    ensures Chain(run) && run[0] == a[0] && run[|run| - 1] == b[|b| - 1]
  {
    hide OwnNext, Next;
    run := a + b[1..];
    forall k | 0 <= k < |run| - 1 ensures Next(run[k], run[k + 1]) {
      if k < |a| - 1 {
        assert run[k] == a[k] && run[k + 1] == a[k + 1];
      } else {
        var j := k - (|a| - 1);
        assert run[k] == b[j] && run[k + 1] == b[j + 1];
        OwnIsNext(b[j], b[j + 1]);
      }
    }
  }

  lemma OwnIsNext(s: State, s': State)
    requires OwnNext(s, s')
    ensures Next(s, s')
  {
  }

  /** Every thread but i, and the transaction thread's loop, is at rest. */
  ghost predicate OthersIdle(s: State, i: nat) {
    s.phase.Waiting? && forall j :: 0 <= j < |s.q.threads| && j != i ==> s.q.threads[j].Idle?
  }

  lemma PushStep(s: State, i: nat)
    requires Inv(s) && 0 < i < |s.q.threads| && OthersIdle(s, i) && R.InPush(s.q.threads[i])
    ensures Enabled(s, QueueStep(i, false))
    ensures var s', pc := Step(s, QueueStep(i, false)), s.q.threads[i];
      && Inv(s') && |s'.q.threads| == |s.q.threads| && OthersIdle(s', i)
      && s'.signalled == s.signalled && s'.executed == s.executed
      && (R.PushGoesOn(s.q, s'.q, pc, s'.q.threads[i])
          || (s'.q.threads[i] == Q.PushReturn(R.PushOutcome(s.q, pc))
              && (R.PushOutcome(s.q, pc).Some? ==> R.Pushes(s'.q, R.PushOutcome(s.q, pc).value, pc.value))))
  {
    hide Q.Inv, Q.Step, R.PushOutcome, R.Pushes, R.PushGoesOn;
    R.HistoryOf(s.q);
    StepInv(s, QueueStep(i, false));
    R.PushStepAlone(s.q, i);
  }

  lemma {:induction false} PushRun(s: State, i: nat) returns (run: seq<State>)
    requires Inv(s) && 0 < i < |s.q.threads| && OthersIdle(s, i) && R.InPush(s.q.threads[i])
    requires R.PushOutcome(s.q, s.q.threads[i]).Some?
    ensures Chain(run) && run[0] == s
    ensures var s', t := run[|run| - 1], R.PushOutcome(s.q, s.q.threads[i]).value;
      && Inv(s') && |s'.q.threads| == |s.q.threads| && OthersIdle(s', i)
      && s'.signalled == s.signalled && s'.executed == s.executed
      && s'.q.threads[i] == Q.PushReturn(Some(t)) && R.Pushes(s'.q, t, s.q.threads[i].value)
    decreases R.Left(s.q, s.q.threads[i])
  {
    hide Inv, Step, Enabled, R.PushOutcome, R.Pushes, R.Left;
    PushStep(s, i);
    var s' := Step(s, QueueStep(i, false));
    assert Chain([s]);
    run := Extend([s], QueueStep(i, false));
    if R.PushGoesOn(s.q, s'.q, s.q.threads[i], s'.q.threads[i]) {
      var rest := PushRun(s', i);
      run := Concat(run, rest);
    }
  }

  lemma Concat(a: seq<State>, b: seq<State>) returns (run: seq<State>)
    requires Chain(a) && Chain(b) && a[|a| - 1] == b[0]
    ensures Chain(run) && run[0] == a[0] && run[|run| - 1] == b[|b| - 1]
  {
    hide Next;
    run := a + b[1..];
    forall k | 0 <= k < |run| - 1 ensures Next(run[k], run[k + 1]) {
      if k < |a| - 1 {
        assert run[k] == a[k] && run[k + 1] == a[k + 1];
      } else {
        var j := k - (|a| - 1);
        assert run[k] == b[j] && run[k + 1] == b[j + 1];
      }
    }
  }

  /** When all threads are at rest, every ticket is signalled. */
  lemma AllSignalled(s: State)
    requires Inv(s) && forall j :: 0 <= j < |s.q.threads| ==> s.q.threads[j].Idle?
    ensures |s.signalled| == s.q.end
  {
    hide Q.SlotsInv, Q.PcInv;
    QueueHistory(s);
    assert s.signalled == Below(s.q.end);
  }

  lemma StartStep(s: State, i: nat, v: seq<Byte>)
    requires Inv(s) && 0 < i < |s.q.threads| && OthersIdle(s, i) && s.q.threads[i].Idle? && |v| == s.q.width
    requires s.q.end < s.q.capacity || s.q.end - s.q.capacity in s.q.popped
    ensures Enabled(s, StartPush(i, v))
    ensures var s' := Step(s, StartPush(i, v));
      && |s'.q.threads| == |s.q.threads| && OthersIdle(s', i) && s'.q.threads[i] == Q.PushLoadEnd(v)
      && R.PushOutcome(s'.q, s'.q.threads[i]) == Some(s.q.end) && s'.signalled == s.signalled
  {
    hide Q.HistoryInv, Q.SlotsInv, Q.OwnersInv, Q.PcInv;
  }

  /** A block pushed while all other threads are at rest, and the queue has room, can be
      pushed, signalled and executed: there is such a run, of the pushing thread's steps and
      then the transaction thread's. */
  lemma BlockIsExecuted(s: State, i: nat, v: seq<Byte>) returns (run: seq<State>)
    requires Inv(s) && 0 < i < |s.q.threads| && OthersIdle(s, i) && s.q.threads[i].Idle? && |v| == s.q.width
    requires s.q.end < s.q.capacity || s.q.end - s.q.capacity in s.q.popped
    ensures Chain(run) && run[0] == s
    ensures var s' := run[|run| - 1]; s.q.end < |s'.executed| && s'.executed[s.q.end] == v
  {
    hide Inv, Step, Enabled, Next;
    AllSignalled(s);
    StartStep(s, i, v);
    StepInv(s, StartPush(i, v));
    assert Chain([s]);
    var first := Extend([s], StartPush(i, v));
    var second := PushRun(first[|first| - 1], i);
    var pushed := second[|second| - 1];
    first := Concat(first, second);
    SignalsItsBlock(pushed, i, s.q.end);
    StepInv(pushed, Signal(i));
    first := Extend(first, Signal(i));
    var signalled := first[|first| - 1];
    assert |signalled.signalled| == s.q.end + 1;
    var third := ExecutesAll(signalled, s.q.end + 1);
    OwnRunExtends(third);
    run := Join(first, third);
  }

  lemma {:induction false} OwnRunExtends(run: seq<State>)
    requires OwnRun(run) && Inv(run[0])
    ensures run[0].q.pushed <= run[|run| - 1].q.pushed
    decreases |run|
  {
    hide Inv, Step, Enabled, Own;
    if |run| > 1 {
      assert OwnNext(run[0], run[0 + 1]);
      var a :| Own(a) && Enabled(run[0], a) && run[1] == Step(run[0], a);
      StepInv(run[0], a);
      StepPushes(run[0], a);
      forall k | 0 <= k < |run[1..]| - 1 ensures OwnNext(run[1..][k], run[1..][k + 1]) {
        assert run[1..][k] == run[k + 1] && run[1..][k + 1] == run[k + 1 + 1];
      }
      OwnRunExtends(run[1..]);
    }
  }

  lemma StepPushes(s: State, a: Action)
    requires Inv(s) && Enabled(s, a)
    ensures s.q.pushed <= Step(s, a).q.pushed
  {
    hide Q.Step, Q.HistoryInv, Q.SlotsInv, Q.OwnersInv, Q.PcInv, Q.Moves;
    match a
    case StartPush(i, v) => Pushed(s, i, Q.CallPush(v));
    case QueueStep(i, spurious) => Pushed(s, i, Q.Advance(spurious));
    case Signal(i) => Pushed(s, i, Q.Advance(false));
    case StartPop => Pushed(s, 0, Q.CallPop);
    case FinishPop => Pushed(s, 0, Q.Advance(false));
    case _ =>
  }

  lemma Pushed(s: State, i: nat, a: Q.Action)
    requires Inv(s) && i < |s.q.threads|
    ensures s.q.pushed <= Q.Step(s.q, i, a).pushed
  {
    hide Q.Step;
    Q.StepMoves(s.q, i, a);
  }
}
