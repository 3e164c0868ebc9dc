/** The hand-over of transaction blocks: producers push into the thread queue and
    then signal, and the transaction thread consumes the signals and spin-pops one
    block for each. Built on the step system of the queue, before shutdown. */
module TransactionThread {
  import opened Bytes
  import Q = ThreadQueue

  /** Where the transaction thread's loop is; `count` is its local variable. */
  datatype Phase = Waiting | Draining(count: nat) | Executing(count: nat)

  /** Thread 0 of the queue is the transaction thread; it pushes too, when it runs an
      EXEC. `signalled` records the tickets signalled and `executed` the values popped. */
  datatype State = State(
    q: Q.State, signals: nat, phase: Phase, signalled: set<nat>, executed: seq<seq<Byte>>)

  datatype Action =
    | StartPush(thread: nat, value: seq<Byte>)
    | QueueStep(thread: nat, spurious: bool)
    | Signal(thread: nat)
    | Consume
    | StartPop
    | FinishPop
    | FinishBlock

  ghost predicate Init(s: State) {
    && Q.Init(s.q) && |s.q.threads| > 0
    && s.signals == 0 && s.phase == Waiting && s.signalled == {} && s.executed == []
  }

  ghost predicate Enabled(s: State, a: Action) {
    && Q.ShapeOk(s.q) && |s.q.threads| > 0
    && match a
       case StartPush(i, v) => i < |s.q.threads| && s.q.threads[i].Idle? && (i == 0 ==> s.phase.Executing?)
       case QueueStep(i, _) =>
         i < |s.q.threads| && !s.q.threads[i].PopReturn? && s.q.threads[i] != Q.Idle
         && !(s.q.threads[i].PushReturn? && s.q.threads[i].pushed.Some?)
       case Signal(i) => i < |s.q.threads| && s.q.threads[i].PushReturn? && s.q.threads[i].pushed.Some?
       case Consume => s.q.threads[0].Idle? && s.phase.Waiting? && s.signals > 0
       case StartPop => s.q.threads[0].Idle? && s.phase.Draining?
       case FinishPop => s.q.threads[0].PopReturn? && s.phase.Draining?
       case FinishBlock => s.q.threads[0].Idle? && s.phase.Executing?
  }

  ghost function Step(s: State, a: Action): State
    requires Enabled(s, a)
  {
    match a
    case StartPush(i, v) => s.(q := Q.Step(s.q, i, Q.CallPush(v)))
    case QueueStep(i, spurious) => s.(q := Q.Step(s.q, i, Q.Advance(spurious)))
    case Signal(i) =>
      s.(q := Q.Step(s.q, i, Q.Advance(false)), signals := s.signals + 1,
         signalled := s.signalled + {s.q.threads[i].pushed.value})
    case Consume => s.(phase := Draining(s.signals), signals := 0)
    case StartPop => s.(q := Q.Step(s.q, 0, Q.CallPop))
    case FinishPop =>
      var q' := Q.Step(s.q, 0, Q.Advance(false));
      (match s.q.threads[0].popped
       case None => s.(q := q')
       case Some((_, v)) =>
         s.(q := q', executed := s.executed + [v], phase := Executing(s.phase.count)))
    case FinishBlock =>
      s.(phase := if s.phase.count <= 1 then Waiting else Draining(s.phase.count - 1))
  }

  ghost predicate Next(s: State, s': State) {
    exists a :: Enabled(s, a) && s' == Step(s, a)
  }

  ghost predicate IsRun(run: seq<State>) {
    |run| > 0 && Init(run[0]) && forall k :: 0 <= k < |run| - 1 ==> Next(run[k], run[k + 1])
  }

  // --------------------------------------------------------------- invariant

  ghost predicate PushPc(pc: Q.Pc) {
    pc.Idle? || pc.PushLoadEnd? || pc.PushLoadTurn? || pc.PushCas? || pc.PushCopy? || pc.PushReturn?
  }

  ghost predicate PopPc(pc: Q.Pc) {
    pc.Idle? || pc.PopLoadAt? || pc.PopLoadTurn? || pc.PopCas? || pc.PopCopy? || pc.PopReturn?
  }

  ghost predicate PcsInv(s: State) {
    && |s.q.threads| > 0
    && (forall i :: 0 < i < |s.q.threads| ==> PushPc(s.q.threads[i]))
    && match s.phase
       case Waiting => s.q.threads[0].Idle?
       case Draining(n) => n > 0 && PopPc(s.q.threads[0])
       case Executing(n) => n > 0 && PushPc(s.q.threads[0])
  }

  /** The tickets published but not yet signalled are each held by the thread that
      pushed it, between the return of its push and its signal. */
  ghost predicate SignalsInv(s: State)
    requires Q.HistoryInv(s.q)
  {
    && s.signalled <= s.q.published
    && (forall t: nat :: t in s.q.published && t !in s.signalled ==>
          s.q.pushers[t] < |s.q.threads| && s.q.threads[s.q.pushers[t]] == Q.PushReturn(Some(t)))
    && (forall i :: 0 <= i < |s.q.threads| && s.q.threads[i].PushReturn? && s.q.threads[i].pushed.Some? ==>
          var t := s.q.threads[i].pushed.value;
          t in s.q.published && t !in s.signalled && s.q.pushers[t] == i)
  }

  /** Tickets whose pop has finished. */
  ghost function Taken(s: State): int {
    s.q.at - (if |s.q.threads| > 0 && s.q.threads[0].PopCopy? then 1 else 0)
  }

  /** A pop that has succeeded but whose result the loop has not looked at yet. */
  ghost function Fetched(s: State): int {
    if |s.q.threads| > 0 && s.q.threads[0].PopReturn? && s.q.threads[0].popped.Some? then 1 else 0
  }

  /** Signals the thread has received, or can receive, but not yet used for a pop. */
  ghost function Unconsumed(s: State): int {
    s.signals + (match s.phase
                 case Waiting => 0
                 case Draining(n) => n - Fetched(s)
                 case Executing(n) => n - 1)
  }

  ghost predicate CountsInv(s: State) {
    && (forall t: nat :: t in s.q.popped <==> t < Taken(s))
    && Taken(s) + Unconsumed(s) == |s.signalled|
  }

  ghost predicate OrderInv(s: State)
    requires Q.HistoryInv(s.q)
  {
    && 0 <= Taken(s) - Fetched(s)
    && s.executed == s.q.pushed[..Taken(s) - Fetched(s)]
    && (Fetched(s) == 1 ==>
          var (t, v) := s.q.threads[0].popped.value;
          t == Taken(s) - 1 && v == s.q.pushed[t])
  }

  ghost predicate Inv(s: State) {
    Q.Inv(s.q) && PcsInv(s) && SignalsInv(s) && CountsInv(s) && OrderInv(s)
  }

  // ----------------------------------------------------- steps keep invariant

  lemma InitInv(s: State)
    requires Init(s)
    ensures Inv(s)
  {
    Q.InitInv(s.q);
  }

  /** The queue moved only thread i, and lost none of its records. */
  ghost predicate Moved(q: Q.State, q': Q.State, i: nat)
    requires i < |q.threads|
  {
    && Q.Inv(q') && |q'.threads| == |q.threads| && q'.threads == q.threads[i := q'.threads[i]]
    && q.pushed <= q'.pushed && q.pushers <= q'.pushers
  }

  /** Steps of the queue that publish, take and release nothing. */
  lemma QuietInv(s: State, q': Q.State, i: nat)
    requires Inv(s) && i < |s.q.threads| && Moved(s.q, q', i)
    requires q'.published == s.q.published && q'.popped == s.q.popped && q'.at == s.q.at
    requires var pc, pc' := s.q.threads[i], q'.threads[i];
      && (PushPc(pc') || i == 0) && (i == 0 && s.phase.Executing? ==> PushPc(pc'))
      && (i == 0 && s.phase.Draining? ==> PopPc(pc')) && (i == 0 ==> !s.phase.Waiting?)
      && (pc.PushReturn? ==> pc.pushed.None?) && (pc.PopReturn? ==> pc.popped.None?) && pc.PopCopy? == pc'.PopCopy?
      && (pc'.PushReturn? ==> pc'.pushed.None?) && (pc'.PopReturn? ==> pc'.popped.None?)
    ensures Inv(s.(q := q'))
  {
    hide Q.Index, Q.SlotsInv, Q.OwnersInv, Q.PcInv, Q.ValidCapacity;
  }

  lemma PublishInv(s: State, q': Q.State, i: nat, t: nat)
    requires Inv(s) && i < |s.q.threads| && Moved(s.q, q', i)
    requires s.q.threads[i].PushCopy? && s.q.threads[i].ticket == t
    requires t < s.q.end && t !in s.q.published && s.q.pushers[t] == i
    requires q'.published == s.q.published + {t} && q'.popped == s.q.popped && q'.at == s.q.at
    requires q'.threads[i] == Q.PushReturn(Some(t))
    ensures Inv(s.(q := q'))
  {
    hide Q.Index, Q.SlotsInv, Q.OwnersInv, Q.PcInv, Q.ValidCapacity;
  }

  lemma TakeInv(s: State, q': Q.State)
    requires Inv(s) && Moved(s.q, q', 0) && s.phase.Draining?
    requires s.q.threads[0].PopCas? && q'.threads[0].PopCopy?
    requires q'.published == s.q.published && q'.popped == s.q.popped && q'.at == s.q.at + 1
    ensures Inv(s.(q := q'))
  {
    hide Q.Index, Q.SlotsInv, Q.OwnersInv, Q.PcInv, Q.ValidCapacity;
  }

  lemma ReleaseInv(s: State, q': Q.State, t: nat)
    requires Inv(s) && Moved(s.q, q', 0) && s.phase.Draining?
    requires s.q.threads[0].PopCopy? && s.q.threads[0].ticket == t && t < s.q.at && t !in s.q.popped
    requires q'.published == s.q.published && q'.popped == s.q.popped[t := s.q.pushed[t]] && q'.at == s.q.at
    requires q'.threads[0] == Q.PopReturn(Some((t, s.q.pushed[t])))
    ensures Inv(s.(q := q'))
  {
    hide Q.Index, Q.SlotsInv, Q.OwnersInv, Q.PcInv, Q.ValidCapacity;
    assert t == s.q.at - 1;
  }

  lemma SignalInv(s: State, i: nat)
    requires Inv(s) && Enabled(s, Signal(i))
    ensures Inv(Step(s, Signal(i)))
  {
    hide Q.Index, Q.SlotsInv, Q.OwnersInv, Q.PcInv, Q.ValidCapacity;
    var s' := Step(s, Signal(i));
    Q.StepInv(s.q, i, Q.Advance(false));
    assert s'.q == Q.Go(s.q, i, Q.Idle);
    assert |s'.signalled| == |s.signalled| + 1;
  }

  lemma FinishPopInv(s: State)
    requires Inv(s) && Enabled(s, FinishPop)
    ensures Inv(Step(s, FinishPop))
  {
    hide Q.Index, Q.SlotsInv, Q.OwnersInv, Q.PcInv, Q.ValidCapacity;
    var s' := Step(s, FinishPop);
    Q.StepInv(s.q, 0, Q.Advance(false));
    assert s'.q == Q.Go(s.q, 0, Q.Idle);
    if s.q.threads[0].popped.None? {
      QuietInv(s, s'.q, 0);
    }
  }

  lemma LoopInv(s: State, a: Action)
    requires Inv(s) && Enabled(s, a) && (a.Consume? || a.FinishBlock?)
    ensures Inv(Step(s, a))
  {
    hide Q.Inv, Q.HistoryInv;
    assert Q.HistoryInv(s.q) by { QueueHistory(s); }
  }

  lemma QueueHistory(s: State)
    requires Q.Inv(s.q)
    ensures Q.HistoryInv(s.q)
  {
  }

  lemma CallInv(s: State, a: Action)
    requires Inv(s) && Enabled(s, a) && (a.StartPush? || a.StartPop?)
    ensures Inv(Step(s, a))
  {
    hide Q.Index, Q.SlotsInv, Q.OwnersInv, Q.PcInv, Q.ValidCapacity;
    var s' := Step(s, a);
    var i := if a.StartPush? then a.thread else 0;
    Q.StepInv(s.q, i, if a.StartPush? then Q.CallPush(a.value) else Q.CallPop);
    if s'.q != s.q { QuietInv(s, s'.q, i); }
  }

  lemma QueueStepInv(s: State, i: nat, spurious: bool)
    requires Inv(s) && Enabled(s, QueueStep(i, spurious))
    ensures Inv(Step(s, QueueStep(i, spurious)))
  {
    hide Q.Index, Q.SlotsInv, Q.OwnersInv, Q.PcInv, Q.ValidCapacity;
    var a, q', pc := Q.Advance(spurious), Q.Step(s.q, i, Q.Advance(spurious)), s.q.threads[i];
    Q.StepInv(s.q, i, a);
    Q.StepEffect(s.q, i, a);
    Q.CopierOwns(s.q, i);
    if pc.PushCopy? && pc.copied >= s.q.width {
      PublishInv(s, q', i, pc.ticket);
    } else if pc.PopCas? && pc.local == s.q.at && !spurious {
      TakeInv(s, q');
    } else if pc.PopCopy? && |pc.dst| >= s.q.width {
      ReleaseInv(s, q', pc.ticket);
    } else {
      QuietInv(s, q', i);
    }
  }

  lemma StepInv(s: State, a: Action)
    requires Inv(s) && Enabled(s, a)
    ensures Inv(Step(s, a))
  {
    hide Inv, Step, Enabled;
    match a
    case StartPush(_, _) => CallInv(s, a);
    case StartPop => CallInv(s, a);
    case QueueStep(i, spurious) => QueueStepInv(s, i, spurious);
    case Signal(i) => SignalInv(s, i);
    case FinishPop => FinishPopInv(s);
    case _ => LoopInv(s, a);
  }

  // ---------------------------------------------------------------- theorems

  lemma {:induction false} RunInv(run: seq<State>, k: nat)
    requires IsRun(run) && k < |run|
    ensures Inv(run[k])
  {
    hide Inv, Step, Enabled, Init;
    if k == 0 {
      InitInv(run[0]);
    } else {
      RunInv(run, k - 1);
      assert Next(run[k - 1], run[k - 1 + 1]);
      var a :| Enabled(run[k - 1], a) && run[k] == Step(run[k - 1], a);
      StepInv(run[k - 1], a);
    }
  }

  function Below(n: nat): (r: set<nat>)
    ensures |r| == n && forall t :: t in r <==> 0 <= t < n
  {
    if n == 0 then {} else Below(n - 1) + {n - 1}
  }

  lemma SubsetSize<T>(a: set<T>, b: set<T>)
    requires a <= b
    ensures |a| + |b - a| == |b|
  {
    assert a + (b - a) == b;
  }

  lemma PoppedSize(s: State)
    requires Inv(s)
    ensures |s.q.popped| == Taken(s)
  {
    hide Q.Inv;
    QueueHistory(s);
    assert s.q.popped.Keys == Below(Taken(s));
    assert |s.q.popped.Keys| == Taken(s);
  }

  /** In every reachable state: finished pops, signals not yet used for a pop and
      published blocks not yet signalled add up to the published blocks. */
  lemma Accounting(run: seq<State>, k: nat)
    requires IsRun(run) && k < |run|
    ensures var s := run[k];
      |s.q.popped| + Unconsumed(s) + |s.q.published - s.signalled| == |s.q.published|
    ensures Unconsumed(run[k]) >= 0
  {
    hide Q.Inv, Init, Next;
    RunInv(run, k);
    var s := run[k];
    QueueHistory(s);
    PoppedSize(s);
    SubsetSize(s.signalled, s.q.published);
  }

  /** While the thread holds a signal and has not yet won a ticket for it, the queue
      is not empty: every spin of its pop has at < end. */
  lemma NeverSpinsOnEmpty(s: State)
    requires Inv(s)
    requires s.phase.Draining? && !s.q.threads[0].PopCopy? && Fetched(s) == 0
    ensures s.q.at < s.q.end
  {
    hide Q.Inv;
    QueueHistory(s);
    assert s.q.published <= Below(s.q.end);
    SubsetSize(s.q.published, Below(s.q.end));
    SubsetSize(s.signalled, s.q.published);
  }

  /** A pop of the thread that comes back empty-handed met another thread in the
      middle of its push of that very ticket. */
  lemma SpinsOnlyOnPushInFlight(s: State, spurious: bool)
    requires Inv(s) && s.q.threads[0].PopLoadTurn?
    requires Q.Step(s.q, 0, Q.Advance(spurious)).threads[0] == Q.PopReturn(None)
    ensures exists j :: j != 0 && Q.Pushing(s.q, j, s.q.at)
  {
    hide Q.Index, Q.SlotsInv, Q.OwnersInv, Q.PcInv;
    NeverSpinsOnEmpty(s);
    Q.PopFailsOnlyWhenUnpublished(s.q, 0, spurious);
    var j :| Q.Pushing(s.q, j, s.q.at);
  }

  /** The blocks executed are exactly the first ones pushed, in the order of their
      tickets: none is skipped, repeated or reordered. */
  lemma ExecutesInPushOrder(run: seq<State>, k: nat)
    requires IsRun(run) && k < |run|
    ensures run[k].executed <= run[k].q.pushed
    ensures |run[k].executed| + Fetched(run[k]) == |run[k].q.popped|
  {
    hide Q.Inv, Init, Next;
    RunInv(run, k);
    QueueHistory(run[k]);
    PoppedSize(run[k]);
  }
}
