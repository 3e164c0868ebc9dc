/** Runs of the lock-free queue in which one thread goes on alone: every push and pop then
    finishes, and with capacity 1 the queue loses values. */
module QueueRuns {
  import opened Bytes
  import opened Bits
  import opened ThreadQueue

  /** n uninterrupted steps of thread i, without spurious failures. */
  ghost function Alone(s: State, i: nat, n: nat): (s': State)
    requires ShapeOk(s) && i < |s.threads|
    ensures ShapeOk(s') && |s'.threads| == |s.threads|
    decreases n
  {
    if n == 0 then s else
      StepShape(s, i);
      Alone(Step(s, i, Advance(false)), i, n - 1)
  }

  lemma StepShape(s: State, i: nat)
    requires ShapeOk(s) && i < |s.threads|
    ensures var s' := Step(s, i, Advance(false));
      && ShapeOk(s') && |s'.threads| == |s.threads| && s'.capacity == s.capacity && s'.width == s.width
  {
    hide Index;
  }

  // ----------------------------------------------------------------- progress

  ghost predicate InPush(pc: Pc) {
    pc.PushLoadEnd? || pc.PushLoadTurn? || pc.PushCas? || pc.PushCopy?
  }

  ghost predicate InPop(pc: Pc) {
    pc.PopLoadAt? || pc.PopLoadTurn? || pc.PopCas? || pc.PopCopy?
  }

  /** How many more steps a push or pop takes at most if its thread is left alone. A stale
      index costs one more round. */
  ghost function Left(s: State, pc: Pc): nat {
    match pc
    case PushLoadEnd(_) => s.width + 4
    case PushLoadTurn(_, e) => if e == s.end then s.width + 3 else s.width + 5
    case PushCas(_, e) => if e == s.end then s.width + 2 else s.width + 4
    case PushCopy(_, _, k) => if k <= s.width then s.width - k + 1 else 1
    case PopLoadAt => s.width + 4
    case PopLoadTurn(a) => if a == s.at then s.width + 3 else s.width + 5
    case PopCas(a) => if a == s.at then s.width + 2 else s.width + 4
    case PopCopy(_, dst) => if |dst| <= s.width then s.width - |dst| + 1 else 1
    case _ => 0
  }

  /** The slot of the next ticket to push never has a later turn, nor has that of the next
      ticket to pop a turn after the one that publishes it. */
  lemma NextTurns(s: State)
    requires Inv(s)
    ensures s.slots[Index(s.capacity, s.end)].turn <= s.end
    ensures s.slots[Index(s.capacity, s.at)].turn <= s.at + 1
  {
    hide Index, HistoryInv, OwnersInv, PcInv;
    if s.end == s.at + s.capacity { IndexShift(s.capacity, s.at); }
  }

  /** What a push that is left alone comes to: its ticket, or a failure. */
  ghost function PushOutcome(s: State, pc: Pc): Option<nat> {
    if pc.PushCopy? then Some(pc.ticket)
    else if s.end < s.capacity || s.end - s.capacity in s.popped then Some(s.end) else None
  }

  /** What a pop that is left alone comes to: its ticket and value, or a failure. */
  ghost function PopOutcome(s: State, pc: Pc): Option<(nat, seq<Byte>)>
    requires HistoryInv(s)
  {
    if pc.PopCopy? then (if pc.ticket < s.end then Some((pc.ticket, s.pushed[pc.ticket])) else None)
    else if s.at in s.published then Some((s.at, s.pushed[s.at])) else None
  }

  /** The value being pushed gets the ticket that the push returns. */
  ghost predicate Pushes(s: State, t: nat, v: seq<Byte>) {
    t < |s.pushed| && s.pushed[t] == v && t in s.published
  }

  ghost predicate PushGoesOn(s: State, s': State, pc: Pc, pc': Pc) {
    InPush(pc) && InPush(pc') && pc'.value == pc.value && Left(s', pc') < Left(s, pc) && PushOutcome(s', pc') == PushOutcome(s, pc)
  }

  ghost predicate PopGoesOn(s: State, s': State, pc: Pc, pc': Pc)
    requires HistoryInv(s) && HistoryInv(s')
  {
    InPop(pc') && Left(s', pc') < Left(s, pc) && PopOutcome(s', pc') == PopOutcome(s, pc)
  }

  lemma HistoryOf(s: State)
    requires Inv(s)
    ensures HistoryInv(s) && ShapeOk(s)
  {
  }

  /** One step of a push that is left alone. */
  lemma PushStepAlone(s: State, i: nat)
    requires Inv(s) && i < |s.threads| && InPush(s.threads[i])
    ensures var s', pc, pc' := Step(s, i, Advance(false)), s.threads[i], Step(s, i, Advance(false)).threads[i];
      && s'.width == s.width && s'.threads == s.threads[i := pc']
      && (PushGoesOn(s, s', pc, pc')
          || (pc' == PushReturn(PushOutcome(s, pc))
              && (pc'.pushed.Some? ==> Pushes(s', pc'.pushed.value, pc.value))))
  {
    hide Index, SlotsInv, OwnersInv;
    NextTurns(s);
    assert PcInv(s, i, s.threads[i]);
    if s.threads[i].PushLoadTurn? { PushFailsOnlyWhenFull(s, i, false); }
    if s.threads[i].PushCas? && s.threads[i].local == s.end { CasHasRoom(s, i); }
  }

  lemma CasHasRoom(s: State, i: nat)
    requires Inv(s) && i < |s.threads| && s.threads[i].PushCas? && s.threads[i].local == s.end
    ensures s.end < s.capacity || s.end - s.capacity in s.popped
  {
    hide Index, HistoryInv, SlotsInv, OwnersInv;
    assert PcInv(s, i, s.threads[i]);
    PushSlotTurn(s, s.end);
  }

  /** One step of a pop that is left alone. */
  lemma PopStepAlone(s: State, i: nat)
    requires Inv(s) && i < |s.threads| && InPop(s.threads[i])
    ensures HistoryInv(s) && HistoryInv(Step(s, i, Advance(false)))
    ensures var s', pc, pc' := Step(s, i, Advance(false)), s.threads[i], Step(s, i, Advance(false)).threads[i];
      && s'.width == s.width && s'.threads == s.threads[i := pc']
      && (PopGoesOn(s, s', pc, pc') || pc' == PopReturn(PopOutcome(s, pc)))
  {
    hide Index, SlotsInv, OwnersInv;
    StepInv(s, i, Advance(false));
    NextTurns(s);
    assert PcInv(s, i, s.threads[i]);
    if s.threads[i].PopLoadTurn? { PopFailsOnlyWhenUnpublished(s, i, false); }
    if s.threads[i].PopCas? && s.threads[i].local == s.at { WinPopReady(s, i); }
    if s.threads[i].PopCopy? && |s.threads[i].dst| >= s.width {
      var t := s.threads[i].ticket;
      assert s.pushed[t][..s.width] == s.pushed[t];
    }
  }

  lemma {:induction false} PushFinishes(s: State, i: nat) returns (n: nat)
    requires Inv(s) && i < |s.threads| && InPush(s.threads[i])
    ensures ShapeOk(s) && 0 < n <= Left(s, s.threads[i])
    ensures var s' := Alone(s, i, n);
      && s'.threads[i] == PushReturn(PushOutcome(s, s.threads[i]))
      && (s'.threads[i].pushed.Some? ==> Pushes(s', s'.threads[i].pushed.value, s.threads[i].value))
    decreases Left(s, s.threads[i])
  {
    hide Step, Inv, Left, PushOutcome, Pushes;
    HistoryOf(s);
    LeftPositive(s, i);
    PushStepAlone(s, i);
    StepInv(s, i, Advance(false));
    StepShape(s, i);
    var s' := Step(s, i, Advance(false));
    assert Alone(s', i, 0) == s';
    if PushGoesOn(s, s', s.threads[i], s'.threads[i]) {
      var m := PushFinishes(s', i);
      n := m + 1;
    } else {
      n := 1;
    }
  }

  lemma {:induction false} PopFinishes(s: State, i: nat) returns (n: nat)
    requires Inv(s) && i < |s.threads| && InPop(s.threads[i])
    ensures ShapeOk(s) && HistoryInv(s) && 0 < n <= Left(s, s.threads[i])
    ensures Alone(s, i, n).threads[i] == PopReturn(PopOutcome(s, s.threads[i]))
    decreases Left(s, s.threads[i])
  {
    hide Step, Inv, Left, PopOutcome;
    HistoryOf(s);
    LeftPositive(s, i);
    PopStepAlone(s, i);
    StepInv(s, i, Advance(false));
    StepShape(s, i);
    var s' := Step(s, i, Advance(false));
    assert Alone(s', i, 0) == s';
    if PopGoesOn(s, s', s.threads[i], s'.threads[i]) {
      var m := PopFinishes(s', i);
      n := m + 1;
    } else {
      n := 1;
    }
  }

  lemma LeftPositive(s: State, i: nat)
    requires Inv(s) && i < |s.threads| && (InPush(s.threads[i]) || InPop(s.threads[i]))
    ensures 0 < Left(s, s.threads[i]) <= s.width + 5
  {
  }

  ghost predicate Finishes(s: State, i: nat, pc: Pc, n: nat)
    requires ShapeOk(s) && i < |s.threads|
  {
    Alone(s, i, n).threads[i] == pc
  }

  /** From every reachable state, however the other threads have been left, a push or a pop
      in progress that runs alone returns within width + 5 steps, with the outcome that the
      state it starts from decides. */
  lemma AloneFinishes(run: seq<State>, k: nat, i: nat)
    requires IsRun(run) && k < |run| && i < |run[k].threads|
    requires InPush(run[k].threads[i]) || InPop(run[k].threads[i])
    ensures ShapeOk(run[k]) && HistoryInv(run[k])
    ensures var s, pc := run[k], run[k].threads[i];
      var result := if InPush(pc) then PushReturn(PushOutcome(s, pc)) else PopReturn(PopOutcome(s, pc));
      exists n :: 0 < n <= s.width + 5 && Finishes(s, i, result, n)
  {
    hide Inv, IsRun, Left, PopOutcome, PushOutcome;
    RunInv(run, k);
    var s := run[k];
    HistoryOf(s);
    LeftPositive(s, i);
    if InPush(s.threads[i]) {
      var n := PushFinishes(s, i);
      assert Finishes(s, i, PushReturn(PushOutcome(s, s.threads[i])), n);
    } else {
      var n := PopFinishes(s, i);
      assert Finishes(s, i, PopReturn(PopOutcome(s, s.threads[i])), n);
    }
  }

  /** A pop that an idle thread starts and runs alone returns the next ticket with the value
      pushed under it if that ticket is published when it starts, and fails if not. */
  lemma PopReturns(run: seq<State>, k: nat, i: nat) returns (n: nat)
    requires IsRun(run) && k < |run| && i < |run[k].threads| && run[k].threads[i].Idle?
    ensures var s := run[k];
      && ShapeOk(s) && HistoryInv(s) && ShapeOk(Step(s, i, CallPop)) && |Step(s, i, CallPop).threads| == |s.threads|
      && 0 < n <= s.width + 5
      && Alone(Step(s, i, CallPop), i, n).threads[i] ==
           PopReturn(if s.at in s.published then Some((s.at, s.pushed[s.at])) else None)
  {
    hide Inv, IsRun, Index;
    RunInv(run, k);
    var s := run[k];
    HistoryOf(s);
    StepInv(s, i, CallPop);
    n := PopFinishes(Step(s, i, CallPop), i);
  }

  /** A push that an idle thread starts and runs alone puts its value under the next ticket,
      published, if the slot has been released when it starts, and fails if not. */
  lemma PushReturns(run: seq<State>, k: nat, i: nat, v: seq<Byte>) returns (n: nat)
    requires IsRun(run) && k < |run| && i < |run[k].threads| && run[k].threads[i].Idle? && |v| == run[k].width
    ensures var s := run[k];
      && ShapeOk(s) && ShapeOk(Step(s, i, CallPush(v))) && |Step(s, i, CallPush(v)).threads| == |s.threads|
      && 0 < n <= s.width + 5
      && var s' := Alone(Step(s, i, CallPush(v)), i, n);
         if s.end < s.capacity || s.end - s.capacity in s.popped
         then s'.threads[i] == PushReturn(Some(s.end)) && Pushes(s', s.end, v)
         else s'.threads[i] == PushReturn(None)
  {
    hide Inv, IsRun, Index, Pushes;
    RunInv(run, k);
    var s := run[k];
    HistoryOf(s);
    StepInv(s, i, CallPush(v));
    n := PushFinishes(Step(s, i, CallPush(v)), i);
  }

  /** A size estimate that runs alone is exact. */
  lemma SizeReturns(s: State, i: nat)
    requires Inv(s) && i < |s.threads| && s.threads[i].Idle?
    ensures ShapeOk(s) && HistoryInv(s) && ShapeOk(Step(s, i, CallSize)) && |Step(s, i, CallSize).threads| == |s.threads|
    ensures Alone(Step(s, i, CallSize), i, 2).threads[i] == SizeReturn(|Contents(s)|)
  {
    hide Index, SlotsInv, OwnersInv, PcInv;
    var s1 := Step(s, i, CallSize);
    var s2 := Step(s1, i, Advance(false));
    assert Alone(s1, i, 2) == Alone(s2, i, 1) == Alone(Step(s2, i, Advance(false)), i, 0);
  }

  // ----------------------------------------------------- capacity 1 loses values

  /** The state after a push of v into the one slot of a queue. */
  ghost function Overwritten(s: State, v: seq<Byte>, pc: Pc): State
    requires |s.threads| > 0
  {
    Go(s.(end := s.end + 1, pushed := s.pushed + [v], pushers := s.pushers + [0],
          published := s.published + {s.end}, slots := [Slot(s.end + 1, v)]), 0, pc)
  }

  lemma {:induction false} CopyAlone(s: State, v: seq<Byte>, t: nat, k: nat)
    requires ShapeOk(s) && s.capacity == 1 && |v| == s.width && k <= s.width && |s.threads| > 0
    requires s.threads[0] == PushCopy(v, t, k) && s.slots[0].data[..k] == v[..k]
    ensures Alone(s, 0, s.width - k + 1) ==
      Go(s.(published := s.published + {t}, slots := [Slot(t + 1, v)]), 0, PushReturn(Some(t)))
    decreases s.width - k
  {
    var s' := Step(s, 0, Advance(false));
    assert Index(1, t) == 0;
    StepShape(s, 0);
    if k < s.width {
      assert s'.slots[0].data[..k + 1] == v[..k + 1];
      CopyAlone(s', v, t, k + 1);
      assert s'.slots == [s'.slots[0]];
    } else {
      assert s.slots[0].data == v;
      assert Alone(s', 0, 0) == s';
      assert s'.slots == [Slot(t + 1, v)];
    }
  }

  lemma AloneSplit(s: State, i: nat, m: nat, n: nat)
    requires ShapeOk(s) && i < |s.threads|
    ensures Alone(s, i, m + n) == Alone(Alone(s, i, m), i, n)
    decreases m
  {
    hide Step;
    if m > 0 {
      StepShape(s, i);
      AloneSplit(Step(s, i, Advance(false)), i, m - 1, n);
    }
  }

  /** A push into a queue of capacity 1 whose slot has the turn of the next ticket. */
  lemma PushAlone(s: State, v: seq<Byte>)
    requires ShapeOk(s) && s.capacity == 1 && |v| == s.width
    requires |s.threads| > 0 && s.threads[0].Idle? && s.slots[0].turn == s.end
    ensures var s0 := Step(s, 0, CallPush(v));
      && ShapeOk(s0) && |s0.threads| > 0
      && Alone(s0, 0, s.width + 4) == Overwritten(s, v, PushReturn(Some(s.end)))
      && Alone(s0, 0, s.width + 5) == Overwritten(s, v, Idle)
  {
    hide Alone;
    var s0 := Step(s, 0, CallPush(v));
    WinAlone(s, v);
    var s3 := Alone(s0, 0, 3);
    AloneSplit(s0, 0, 3, s.width + 1);
    CopyAlone(s3, v, s.end, 0);
    var s4 := Overwritten(s, v, PushReturn(Some(s.end)));
    AloneSplit(s0, 0, s.width + 4, 1);
    OneAlone(s4, 0);
  }

  lemma OneAlone(s: State, i: nat)
    requires ShapeOk(s) && i < |s.threads|
    ensures Alone(s, i, 1) == Step(s, i, Advance(false))
  {
    hide Step;
    StepShape(s, i);
    var s' := Step(s, i, Advance(false));
    assert Alone(s', i, 0) == s';
  }

  /** Loading the index, loading the turn and winning the ticket. */
  lemma WinAlone(s: State, v: seq<Byte>)
    requires ShapeOk(s) && s.capacity == 1 && |v| == s.width
    requires |s.threads| > 0 && s.threads[0].Idle? && s.slots[0].turn == s.end
    ensures var s0 := Step(s, 0, CallPush(v)); ShapeOk(s0) && |s0.threads| > 0 && Alone(s0, 0, 3) == WinPush(s, 0, v)
  {
    hide Alone;
    var s0 := Step(s, 0, CallPush(v));
    var s1 := Step(s0, 0, Advance(false));
    var s2 := Step(s1, 0, Advance(false));
    assert Index(1, s.end) == 0;
    OneAlone(s0, 0);
    OneAlone(s1, 0);
    OneAlone(s2, 0);
    AloneSplit(s0, 0, 1, 1);
    AloneSplit(s0, 0, 2, 1);
  }

  /** Creation accepts capacity 1, where the number of a published slot is also the number
      of a released one: two pushes in a row both succeed with no pop between them, and the
      second overwrites the first value. */
  lemma CapacityOneOverwrites(s: State, v: seq<Byte>, w: seq<Byte>)
    requires Fresh(s) && s.capacity == 1 && |v| == |w| == s.width && |s.threads| > 0
    ensures IsPow2(1) && ShapeOk(s)
    ensures
      var s1 := Alone(Step(s, 0, CallPush(v)), 0, s.width + 5);
      var s2 := Alone(Step(s1, 0, CallPush(w)), 0, s.width + 4);
      && s2.threads[0] == PushReturn(Some(1)) && s2.pushed == [v, w]
      && s2.at == 0 && s2.end == 2 && s2.slots == [Slot(2, w)]
  {
    hide Alone, Step;
    assert 1 == Pow2(0);
    PushAlone(s, v);
    PushAlone(Overwritten(s, v, Idle), w);
  }

  ghost predicate Chain(run: seq<State>) {
    |run| > 0 && forall k :: 0 <= k < |run| - 1 ==> Next(run[k], run[k + 1])
  }

  lemma Extend(run: seq<State>, i: nat, a: Action) returns (longer: seq<State>)
    requires Chain(run) && ShapeOk(run[|run| - 1]) && i < |run[|run| - 1].threads|
    ensures Chain(longer) && longer[0] == run[0] && longer[|longer| - 1] == Step(run[|run| - 1], i, a)
  {
    hide Step, ShapeOk;
    longer := run + [Step(run[|run| - 1], i, a)];
    forall k | 0 <= k < |longer| - 1 ensures Next(longer[k], longer[k + 1]) {
      if k < |run| - 1 { assert Next(run[k], run[k + 1]); }
    }
  }

  lemma {:induction false} ExtendAlone(run: seq<State>, i: nat, n: nat) returns (longer: seq<State>)
    requires Chain(run) && ShapeOk(run[|run| - 1]) && i < |run[|run| - 1].threads|
    ensures Chain(longer) && longer[0] == run[0] && longer[|longer| - 1] == Alone(run[|run| - 1], i, n)
    decreases n
  {
    hide Step, ShapeOk, Next;
    longer := run;
    if n > 0 {
      StepShape(run[|run| - 1], i);
      longer := Extend(run, i, Advance(false));
      longer := ExtendAlone(longer, i, n - 1);
    }
  }

  ghost predicate Bounded(run: seq<State>) {
    forall k :: 0 <= k < |run| ==> run[k].at <= run[k].end <= run[k].at + run[k].capacity
  }

  /** Of the capacities that creation accepts, exactly those from 2 on keep every run within
      the capacity. */
  lemma CapacityExact(s: State)
    requires Fresh(s) && IsPow2(s.capacity) && |s.threads| > 0
    ensures (forall run :: Chain(run) && run[0] == s ==> Bounded(run)) <==> s.capacity >= 2
  {
    hide Fresh, ShapeOk, Step, Next;
    if s.capacity >= 2 {
      forall run: seq<State> | Chain(run) && run[0] == s ensures Bounded(run) {
        forall k | 0 <= k < |run| ensures run[k].at <= run[k].end <= run[k].at + run[k].capacity { Fifo(run, k); }
      }
    } else {
      var run := Overrun(s);
      var last := run[|run| - 1];
      assert last.end > last.at + last.capacity;
    }
  }

  lemma Overrun(s: State) returns (run: seq<State>)
    requires Fresh(s) && s.capacity == 1 && |s.threads| > 0
    ensures Chain(run) && run[0] == s
    ensures var last := run[|run| - 1]; last.end == 2 && last.at == 0 && last.capacity == 1
  {
    hide Alone, Step, Chain;
    var v := seq(s.width, _ => 0 as Byte);
    PushAlone(s, v);
    var s1 := Overwritten(s, v, Idle);
    PushAlone(s1, v);
    assert Chain([s]) by { OneState(s); }
    run := Extend([s], 0, CallPush(v));
    run := ExtendAlone(run, 0, s.width + 5);
    run := Extend(run, 0, CallPush(v));
    run := ExtendAlone(run, 0, s.width + 4);
  }

  lemma OneState(s: State)
    ensures Chain([s])
  {
  }
}
