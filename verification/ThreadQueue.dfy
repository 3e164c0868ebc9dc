/** The bounded lock-free queue, as a sequentially consistent step system.

    Any number of threads run push, pop and the size estimate. One step is one
    atomic access to `at`, `end` or a slot's sequence number, or the copy of one
    byte of a value, so two copies of a value could interleave byte by byte.
    Counters are unbounded naturals. */
module ThreadQueue {
  import opened Bytes
  import opened Bits

  /** `turn` is the slot's sequence number. */
  datatype Slot = Slot(turn: nat, data: seq<Byte>)

  /** Where a thread is, with its local variables. `local` is the possibly stale
      copy of `end` (push) or `at` (pop); `ticket` is the index it has won. */
  datatype Pc =
    | Idle
    | PushLoadEnd(value: seq<Byte>)
    | PushLoadTurn(value: seq<Byte>, local: nat)
    | PushCas(value: seq<Byte>, local: nat)
    | PushCopy(value: seq<Byte>, ticket: nat, copied: nat)
    | PushReturn(pushed: Option<nat>)
    | PopLoadAt
    | PopLoadTurn(local: nat)
    | PopCas(local: nat)
    | PopCopy(ticket: nat, dst: seq<Byte>)
    | PopReturn(popped: Option<(nat, seq<Byte>)>)
    | SizeLoadAt
    | SizeLoadEnd(local: nat)
    | SizeReturn(estimate: int)

  /** The queue, its threads, and a record of what happened: pushed[t] is the value
      of ticket t and pushers[t] the thread that won it, poppers[t] the thread that
      won its removal, `published` the tickets whose push has stored its sequence
      number, popped[t] the value that the finished pop of ticket t copied out. */
  datatype State = State(
    capacity: nat, width: nat, at: nat, end: nat, slots: seq<Slot>, threads: seq<Pc>,
    pushed: seq<seq<Byte>>, pushers: seq<nat>, poppers: seq<nat>,
    published: set<nat>, popped: map<nat, seq<Byte>>)

  /** What a thread does next: enter an operation, or advance one step. A weak
      compare-and-swap may fail although the comparison holds. */
  datatype Action = CallPush(value: seq<Byte>) | CallPop | CallSize | Advance(spurious: bool)

  // ---------------------------------------------------------------- creation

  ghost predicate ValidCapacity(c: nat) {
    IsPow2(c) && c >= 2
  }

  /** The slot of ticket t: `t & (capacity - 1)`. */
  function Index(c: nat, t: nat): (x: nat)
    requires c > 0
    ensures x < c
  {
    BitAnd(t, c - 1)
  }

  function InitialSlots(c: nat, width: nat): (s: seq<Slot>)
    ensures |s| == c
  {
    seq(c, i requires 0 <= i => Slot(i, seq(width, _ => 0)))
  }

  ghost predicate Init(s: State) {
    && ValidCapacity(s.capacity) && Fresh(s)
  }

  /** A queue as creation leaves it, whatever its capacity. */
  ghost predicate Fresh(s: State) {
    && s.at == 0 && s.end == 0
    && s.slots == InitialSlots(s.capacity, s.width)
    && (forall i :: 0 <= i < |s.threads| ==> s.threads[i] == Idle)
    && s.pushed == [] && s.pushers == [] && s.poppers == []
    && s.published == {} && s.popped == map[]
  }

  const POINTER_SIZE := 8

  /** Refuses exactly the capacities that are not powers of two, and the alignments above
      the size of a pointer that are not, and otherwise initialises every slot, four at a
      time and then the rest. */
  method Create(capacity: nat, width: nat, alignment: nat) returns (slots: Option<array<Slot>>)
    ensures slots.None? <==> capacity == 0 || !IsPow2(capacity) || (alignment > POINTER_SIZE && !IsPow2(alignment))
    ensures slots.Some? ==> fresh(slots.value) && slots.value[..] == InitialSlots(capacity, width)
  {
    hide IsPow2, BitAnd;
    if capacity == 0 { return None; }
    PowerOfTwoTest(capacity);
    if BitAnd(capacity, capacity - 1) != 0 { return None; }
    var align := if alignment < POINTER_SIZE then POINTER_SIZE else alignment;
    PowerOfTwoTest(align);
    assert IsPow2(8) by { EightIsPow2(); }
    if BitAnd(align, align - 1) != 0 { return None; }
    var blank := seq(width, _ => 0);
    var a := new Slot[capacity](_ => Slot(0, []));
    var i := 0;
    while i < capacity / 4
      invariant 0 <= i <= capacity / 4
      invariant forall k :: 0 <= k < 4 * i ==> a[k] == Slot(k, blank)
    {
      var idx := i * 4;
      a[idx], a[idx + 1] := Slot(idx, blank), Slot(idx + 1, blank);
      a[idx + 2], a[idx + 3] := Slot(idx + 2, blank), Slot(idx + 3, blank);
      i := i + 1;
    }
    var j := (capacity / 4) * 4;
    while j < capacity
      invariant 0 <= j <= capacity
      invariant forall k :: 0 <= k < j ==> a[k] == Slot(k, blank)
    {
      a[j] := Slot(j, blank);
      j := j + 1;
    }
    slots := Some(a);
  }

  lemma EightIsPow2()
    ensures IsPow2(8)
  {
    assert 8 == Pow2(3);
  }

  // ------------------------------------------------------------------- steps

  /** The next state when thread i takes action a; an action that does not fit
      where the thread is leaves the state alone. */
  ghost function Step(s: State, i: nat, a: Action): State
    requires ShapeOk(s) && i < |s.threads|
  {
    match a
    case CallPush(v) => if s.threads[i].Idle? && |v| == s.width then Go(s, i, PushLoadEnd(v)) else s
    case CallPop => if s.threads[i].Idle? then Go(s, i, PopLoadAt) else s
    case CallSize => if s.threads[i].Idle? then Go(s, i, SizeLoadAt) else s
    case Advance(spurious) =>
      var pc := s.threads[i];
      match pc
      case Idle => s
      case PushReturn(_) => Go(s, i, Idle)
      case PopReturn(_) => Go(s, i, Idle)
      case SizeReturn(_) => Go(s, i, Idle)
      case SizeLoadAt => Go(s, i, SizeLoadEnd(s.at))
      case SizeLoadEnd(a) => Go(s, i, SizeReturn(s.end - a))
      case PushLoadEnd(v) => Go(s, i, PushLoadTurn(v, s.end))
      case PushLoadTurn(v, e) =>
        var diff := s.slots[Index(s.capacity, e)].turn - e;
        if diff == 0 then Go(s, i, PushCas(v, e))
        else if diff < 0 then Go(s, i, PushReturn(None))
        else Go(s, i, PushLoadEnd(v))
      case PushCas(v, e) =>
        if s.end == e && !spurious then WinPush(s, i, v) else Go(s, i, PushLoadTurn(v, s.end))
      case PushCopy(v, t, k) =>
        if k < s.width && k < |v| then CopyIn(s, i, v, t, k) else Publish(s, i, t)
      case PopLoadAt => Go(s, i, PopLoadTurn(s.at))
      case PopLoadTurn(a) =>
        var diff := s.slots[Index(s.capacity, a)].turn - (a + 1);
        if diff == 0 then Go(s, i, PopCas(a))
        else if diff < 0 then Go(s, i, PopReturn(None))
        else Go(s, i, PopLoadAt)
      case PopCas(a) =>
        if s.at == a && !spurious then WinPop(s, i) else Go(s, i, PopLoadTurn(s.at))
      case PopCopy(t, dst) =>
        if |dst| < s.width then Go(s, i, PopCopy(t, dst + [s.slots[Index(s.capacity, t)].data[|dst|]]))
        else Release(s, i, t, dst)
  }

  ghost predicate ShapeOk(s: State) {
    && s.capacity > 0 && |s.slots| == s.capacity
    && (forall j :: 0 <= j < |s.slots| ==> |s.slots[j].data| == s.width)
  }

  ghost function Go(s: State, i: nat, pc: Pc): State
    requires i < |s.threads|
  {
    s.(threads := s.threads[i := pc])
  }

  ghost function WinPush(s: State, i: nat, v: seq<Byte>): State
    requires i < |s.threads|
  {
    Go(s.(end := s.end + 1, pushed := s.pushed + [v], pushers := s.pushers + [i]), i, PushCopy(v, s.end, 0))
  }

  ghost function CopyIn(s: State, i: nat, v: seq<Byte>, t: nat, k: nat): State
    requires ShapeOk(s) && i < |s.threads| && k < s.width && k < |v|
  {
    var x := Index(s.capacity, t);
    var slot := s.slots[x];
    Go(s.(slots := s.slots[x := slot.(data := slot.data[k := v[k]])]), i, PushCopy(v, t, k + 1))
  }

  ghost function Publish(s: State, i: nat, t: nat): State
    requires ShapeOk(s) && i < |s.threads|
  {
    var x := Index(s.capacity, t);
    Go(s.(slots := s.slots[x := s.slots[x].(turn := t + 1)], published := s.published + {t}), i, PushReturn(Some(t)))
  }

  ghost function WinPop(s: State, i: nat): State
    requires i < |s.threads|
  {
    Go(s.(at := s.at + 1, poppers := s.poppers + [i]), i, PopCopy(s.at, []))
  }

  ghost function Release(s: State, i: nat, t: nat, dst: seq<Byte>): State
    requires ShapeOk(s) && i < |s.threads|
  {
    var x := Index(s.capacity, t);
    Go(s.(slots := s.slots[x := s.slots[x].(turn := t + s.capacity)], popped := s.popped[t := dst]),
       i, PopReturn(Some((t, dst))))
  }

  // --------------------------------------------------------------- invariant

  /** The tickets in [at, end) are published or being pushed. */
  ghost predicate LiveTurns(s: State)
    requires ShapeOk(s)
  {
    forall t: nat :: s.at <= t < s.end ==>
      s.slots[Index(s.capacity, t)].turn == (if t in s.published then t + 1 else t)
  }

  /** The tickets in [end, at + capacity) find their slot released, or its last ticket being popped. */
  ghost predicate FreeTurns(s: State)
    requires ShapeOk(s)
  {
    var c := s.capacity;
    forall t: nat :: s.end <= t < s.at + c ==>
      s.slots[Index(c, t)].turn == (if t < c || t - c in s.popped then t else t - c + 1)
  }

  /** A published value stays in its slot, whole, until it has been popped. */
  ghost predicate LiveData(s: State)
    requires ShapeOk(s) && |s.pushed| == s.end
  {
    forall t: nat :: t < s.end && t in s.published && t !in s.popped ==>
      s.slots[Index(s.capacity, t)].data == s.pushed[t]
  }

  ghost predicate SlotsInv(s: State)
    requires ShapeOk(s) && |s.pushed| == s.end
  {
    s.at <= s.end <= s.at + s.capacity && LiveTurns(s) && FreeTurns(s) && LiveData(s)
  }

  ghost predicate HistoryInv(s: State) {
    && |s.pushed| == |s.pushers| == s.end && |s.poppers| == s.at <= s.end
    && (forall t: nat :: t < s.end ==> |s.pushed[t]| == s.width)
    && (forall t :: t in s.published ==> t < s.end)
    && (forall t: nat :: t < s.at ==> t in s.published)
    && (forall t :: t in s.popped ==> t < s.at && s.popped[t] == s.pushed[t])
    && (forall t: nat :: t + s.capacity < s.end ==> t in s.popped)
  }

  /** Every unpublished ticket is being pushed by the thread that won it, and every
      taken but unreleased ticket is being popped by the thread that won it. */
  ghost predicate OwnersInv(s: State)
    requires HistoryInv(s)
  {
    && (forall t: nat :: t < s.end && t !in s.published ==>
          s.pushers[t] < |s.threads| && s.threads[s.pushers[t]].PushCopy? && s.threads[s.pushers[t]].ticket == t)
    && (forall t: nat :: t < s.at && t !in s.popped ==>
          s.poppers[t] < |s.threads| && s.threads[s.poppers[t]].PopCopy? && s.threads[s.poppers[t]].ticket == t)
  }

  ghost predicate PcInv(s: State, i: nat, pc: Pc)
    requires ShapeOk(s) && HistoryInv(s) && i < |s.threads|
  {
    var c := s.capacity;
    match pc
    case PushLoadEnd(v) => |v| == s.width
    case PushLoadTurn(v, e) => |v| == s.width && e <= s.end
    case PushCas(v, e) => |v| == s.width && e <= s.end && s.slots[Index(c, e)].turn >= e
    case PushCopy(v, t, k) =>
      && t < s.end && t !in s.published && s.pushers[t] == i && s.pushed[t] == v
      && k <= s.width == |v| && s.slots[Index(c, t)].data[..k] == v[..k]
    case PushReturn(Some(t)) => t in s.published
    case PopLoadTurn(a) => a <= s.at
    case PopCas(a) => a <= s.at && s.slots[Index(c, a)].turn >= a + 1
    case PopCopy(t, dst) =>
      t < s.at && t !in s.popped && s.poppers[t] == i && |dst| <= s.width && dst == s.pushed[t][..|dst|]
    case PopReturn(Some((t, v))) => t in s.popped && s.popped[t] == v
    case SizeLoadEnd(a) => a <= s.at
    case SizeReturn(n) => n >= 0
    case _ => true
  }

  ghost predicate Inv(s: State) {
    && ValidCapacity(s.capacity)
    && ShapeOk(s) && HistoryInv(s) && SlotsInv(s) && OwnersInv(s)
    && forall i :: 0 <= i < |s.threads| ==> PcInv(s, i, s.threads[i])
  }

  // ------------------------------------------------------------ slot indices

  lemma IndexIsMod(c: nat, t: nat)
    requires IsPow2(c)
    ensures Index(c, t) == t % c
  {
    var k: nat :| c == Pow2(k);
    AndMask(t, k);
  }

  lemma IndexSmall(c: nat, t: nat)
    requires IsPow2(c) && t < c
    ensures Index(c, t) == t
  {
    IndexIsMod(c, t);
    DivModUnique(t, c, 0, t);
  }

  lemma IndexShift(c: nat, t: nat)
    requires IsPow2(c)
    ensures Index(c, t + c) == Index(c, t)
  {
    hide Index;
    IndexIsMod(c, t);
    IndexIsMod(c, t + c);
    ModShift(c, t);
  }

  lemma ModShift(c: nat, t: nat)
    requires c > 0
    ensures (t + c) % c == t % c
  {
    DivModUnique(t + c, c, t / c + 1, t % c);
  }

  /** Two tickets less than a capacity apart never share a slot. */
  lemma IndexInjective(c: nat, t: nat, u: nat)
    requires IsPow2(c) && t <= u < t + c && Index(c, t) == Index(c, u)
    ensures t == u
  {
    IndexIsMod(c, t);
    IndexIsMod(c, u);
    SameRemainder(c, t, u);
  }

  lemma SameRemainder(c: nat, t: nat, u: nat)
    requires c > 0 && t <= u < t + c && t % c == u % c
    ensures t == u
  {
    var d := u / c - t / c;
    assert u - t == d * c;
    if d > 0 { MulAtLeast(d, c); } else if d < 0 { MulAtLeast(-d, c); }
  }

  /** Tickets other than t in the window of one capacity around t use other slots. */
  lemma OtherSlots(c: nat, t: nat)
    requires ValidCapacity(c)
    ensures forall u :: 0 <= u && t - c < u < t + c && u != t ==> Index(c, u) != Index(c, t)
  {
    forall u | 0 <= u && t - c < u < t + c && u != t ensures Index(c, u) != Index(c, t) {
      if Index(c, u) == Index(c, t) {
        if u < t { IndexInjective(c, u, t); } else { IndexInjective(c, t, u); }
      }
    }
  }

  // ----------------------------------------------------- steps keep invariant

  lemma InitInv(s: State)
    requires Init(s)
    ensures Inv(s)
  {
    var c := s.capacity;
    forall t: nat | t < c ensures s.slots[Index(c, t)].turn == t {
      IndexSmall(c, t);
    }
  }

  /** Nothing recorded is ever taken back, and sequence numbers never fall. */
  ghost predicate Extends(s: State, s': State) {
    && s'.capacity == s.capacity && s'.width == s.width
    && |s'.threads| == |s.threads| && |s'.slots| == |s.slots|
    && s.at <= s'.at && s.end <= s'.end
    && s.pushed <= s'.pushed && s.pushers <= s'.pushers && s.poppers <= s'.poppers
    && s.published <= s'.published
    && (forall t :: t in s.popped ==> t in s'.popped && s'.popped[t] == s.popped[t])
    && (forall x :: 0 <= x < |s.slots| ==> s.slots[x].turn <= s'.slots[x].turn)
  }

  /** What the other threads rely on survives any such step. */
  lemma PcFrame(s: State, s': State, j: nat)
    requires ShapeOk(s) && HistoryInv(s) && ShapeOk(s') && HistoryInv(s') && Extends(s, s')
    requires j < |s.threads| && PcInv(s, j, s.threads[j])
    requires var pc := s.threads[j];
      pc.PushCopy? ==>
        && pc.ticket !in s'.published
        && s'.slots[Index(s.capacity, pc.ticket)].data == s.slots[Index(s.capacity, pc.ticket)].data
    requires s.threads[j].PopCopy? ==> s.threads[j].ticket !in s'.popped
    ensures PcInv(s', j, s.threads[j])
  {
    hide Index;
  }

  /** Thread j's copy in progress belongs to an unpublished, or unreleased, ticket of its own. */
  lemma CopierOwns(s: State, j: nat)
    requires ShapeOk(s) && HistoryInv(s) && j < |s.threads| && PcInv(s, j, s.threads[j])
    ensures var pc := s.threads[j];
      pc.PushCopy? ==> s.at <= pc.ticket < s.end && pc.ticket !in s.published && s.pushers[pc.ticket] == j
    ensures var pc := s.threads[j];
      pc.PopCopy? ==> s.end <= pc.ticket + s.capacity && pc.ticket < s.at && pc.ticket !in s.popped && s.poppers[pc.ticket] == j
  {
    hide Index;
  }

  /** A step that only moves thread i to a place satisfying its own condition,
      without being a copying place before or after, keeps the invariant. */
  lemma GoInv(s: State, i: nat, pc: Pc)
    requires Inv(s) && i < |s.threads|
    requires !s.threads[i].PushCopy? && !s.threads[i].PopCopy?
    requires !pc.PushCopy? && !pc.PopCopy?
    requires PcInv(s, i, pc)
    ensures Inv(Go(s, i, pc))
  {
    hide Index;
    var s' := Go(s, i, pc);
    forall j: nat | j < |s'.threads| ensures PcInv(s', j, s'.threads[j]) {
      assert PcInv(s, j, s.threads[j]);
    }
  }

  /** When push's comparison with `end` holds, the slot it saw is still free. */
  lemma CasSlotFree(s: State)
    requires Inv(s) && s.slots[Index(s.capacity, s.end)].turn >= s.end
    ensures s.end < s.at + s.capacity && s.slots[Index(s.capacity, s.end)].turn == s.end
    ensures s.end >= s.capacity ==> s.end - s.capacity in s.popped
  {
    hide Index;
    if s.end == s.at + s.capacity {
      IndexShift(s.capacity, s.at);
    }
  }

  /** Enough to conclude the invariant once the shared state is known to be good
      and the moving thread's new place is: everyone else is framed. */
  lemma OthersFramed(s: State, s': State, i: nat)
    requires Inv(s) && i < |s.threads| && Extends(s, s')
    requires ShapeOk(s') && HistoryInv(s') && SlotsInv(s') && OwnersInv(s')
    requires s'.threads == s.threads[i := s'.threads[i]] && PcInv(s', i, s'.threads[i])
    requires forall t: nat :: t < s.end && t !in s.published && s.pushers[t] != i ==>
      && t !in s'.published
      && s'.slots[Index(s.capacity, t)].data == s.slots[Index(s.capacity, t)].data
    requires forall t: nat :: t < s.at && t !in s.popped && s.poppers[t] != i ==> t !in s'.popped
    ensures Inv(s')
  {
    hide Index, PcInv, SlotsInv, OwnersInv;
    forall j: nat | j < |s'.threads| ensures PcInv(s', j, s'.threads[j]) {
      if j != i {
        CopierOwns(s, j);
        PcFrame(s, s', j);
      }
    }
  }

  lemma WinPushInv(s: State, i: nat)
    requires Inv(s) && i < |s.threads| && s.threads[i].PushCas? && s.threads[i].local == s.end
    ensures Inv(WinPush(s, i, s.threads[i].value))
  {
    hide Index, PcInv;
    var s' := WinPush(s, i, s.threads[i].value);
    WinPushReady(s, i);
    NewPusher(s', i, s.end);
    WinPushSlots(s, i);
    OthersFramed(s, s', i);
  }

  lemma WinPushSlots(s: State, i: nat)
    requires Inv(s) && i < |s.threads| && s.threads[i].PushCas? && s.threads[i].local == s.end
    ensures SlotsInv(WinPush(s, i, s.threads[i].value))
  {
    hide Index, PcInv, OwnersInv;
    WinPushReady(s, i);
  }

  lemma WinPushReady(s: State, i: nat)
    requires Inv(s) && i < |s.threads| && s.threads[i].PushCas? && s.threads[i].local == s.end
    ensures |s.threads[i].value| == s.width && s.end !in s.published
    ensures s.end < s.at + s.capacity && s.slots[Index(s.capacity, s.end)].turn == s.end
    ensures s.end >= s.capacity ==> s.end - s.capacity in s.popped
  {
    hide Index;
    assert PcInv(s, i, s.threads[i]);
    CasSlotFree(s);
  }

  lemma NewPusher(s: State, i: nat, t: nat)
    requires ShapeOk(s) && HistoryInv(s) && i < |s.threads|
    requires t < s.end && t !in s.published && s.pushers[t] == i
    ensures PcInv(s, i, PushCopy(s.pushed[t], t, 0))
  {
  }

  /** The copying thread's slot belongs to its ticket alone: no other live ticket maps to it. */
  lemma CopyInInv(s: State, i: nat)
    requires Inv(s) && i < |s.threads| && s.threads[i].PushCopy? && s.threads[i].copied < s.width
    requires |s.threads[i].value| == s.width
    ensures var pc := s.threads[i]; Inv(CopyIn(s, i, pc.value, pc.ticket, pc.copied))
  {
    hide Index;
    var pc := s.threads[i];
    var s' := CopyIn(s, i, pc.value, pc.ticket, pc.copied);
    assert PcInv(s, i, pc);
    CopierOwns(s, i);
    OtherSlots(s.capacity, pc.ticket);
    assert PcInv(s', i, s'.threads[i]) by { CopyInData(s, i); }
    OthersFramed(s, s', i);
  }

  lemma CopyInData(s: State, i: nat)
    requires ShapeOk(s) && HistoryInv(s) && i < |s.threads| && s.threads[i].PushCopy? && PcInv(s, i, s.threads[i])
    requires s.threads[i].copied < s.width
    ensures var pc := s.threads[i];
      |pc.value| == s.width &&
      var s' := CopyIn(s, i, pc.value, pc.ticket, pc.copied);
      s'.slots[Index(s.capacity, pc.ticket)].data[..pc.copied + 1] == pc.value[..pc.copied + 1]
  {
    hide Index;
    var pc := s.threads[i];
    var d := s.slots[Index(s.capacity, pc.ticket)].data;
    assert d[pc.copied := pc.value[pc.copied]][..pc.copied + 1] == d[..pc.copied] + [pc.value[pc.copied]];
    assert pc.value[..pc.copied + 1] == pc.value[..pc.copied] + [pc.value[pc.copied]];
  }

  lemma PublishInv(s: State, i: nat)
    requires Inv(s) && i < |s.threads| && s.threads[i].PushCopy? && s.threads[i].copied >= s.width
    ensures Inv(Publish(s, i, s.threads[i].ticket))
  {
    hide Index, PcInv, LiveTurns, FreeTurns, LiveData;
    var s' := Publish(s, i, s.threads[i].ticket);
    CopierOwns(s, i);
    PublishSlots(s, i);
    assert PcInv(s', i, s'.threads[i]) by { PublishedPc(s', i); }
    OthersFramed(s, s', i);
  }

  lemma PublishedPc(s: State, i: nat)
    requires ShapeOk(s) && HistoryInv(s) && i < |s.threads| && s.threads[i].PushReturn?
    requires s.threads[i].pushed.Some? && s.threads[i].pushed.value in s.published
    ensures PcInv(s, i, s.threads[i])
  {
  }

  lemma PublishSlots(s: State, i: nat)
    requires Inv(s) && i < |s.threads| && s.threads[i].PushCopy? && s.threads[i].copied >= s.width
    ensures var s' := Publish(s, i, s.threads[i].ticket); LiveTurns(s') && FreeTurns(s') && LiveData(s')
    ensures s.slots[Index(s.capacity, s.threads[i].ticket)].turn == s.threads[i].ticket
  {
    hide Index, OwnersInv;
    var pc := s.threads[i];
    assert PcInv(s, i, pc);
    CopierOwns(s, i);
    OtherSlots(s.capacity, pc.ticket);
    var s' := Publish(s, i, pc.ticket);
    assert s'.slots[Index(s.capacity, pc.ticket)].data == s.pushed[pc.ticket] by {
      assert pc.value[..s.width] == pc.value;
      assert s.slots[Index(s.capacity, pc.ticket)].data[..s.width] == s.slots[Index(s.capacity, pc.ticket)].data;
    }
  }

  lemma WinPopInv(s: State, i: nat)
    requires Inv(s) && i < |s.threads| && s.threads[i].PopCas? && s.threads[i].local == s.at
    ensures Inv(WinPop(s, i))
  {
    hide Index;
    var s' := WinPop(s, i);
    WinPopReady(s, i);
    IndexShift(s.capacity, s.at);
    OthersFramed(s, s', i);
  }

  lemma WinPopReady(s: State, i: nat)
    requires Inv(s) && i < |s.threads| && s.threads[i].PopCas? && s.threads[i].local == s.at
    ensures s.at < s.end && s.at in s.published
  {
    hide Index;
    assert PcInv(s, i, s.threads[i]);
  }

  lemma CopyOutInv(s: State, i: nat)
    requires Inv(s) && i < |s.threads| && s.threads[i].PopCopy? && |s.threads[i].dst| < s.width
    ensures var pc := s.threads[i];
      Inv(Go(s, i, PopCopy(pc.ticket, pc.dst + [s.slots[Index(s.capacity, pc.ticket)].data[|pc.dst|]])))
  {
    hide Index;
    var pc := s.threads[i];
    assert PcInv(s, i, pc);
    var v := s.pushed[pc.ticket];
    assert v[..|pc.dst| + 1] == v[..|pc.dst|] + [v[|pc.dst|]];
    var s' := Go(s, i, PopCopy(pc.ticket, pc.dst + [s.slots[Index(s.capacity, pc.ticket)].data[|pc.dst|]]));
    OthersFramed(s, s', i);
  }

  lemma ReleaseInv(s: State, i: nat)
    requires Inv(s) && i < |s.threads| && s.threads[i].PopCopy? && |s.threads[i].dst| >= s.width
    ensures Inv(Release(s, i, s.threads[i].ticket, s.threads[i].dst))
  {
    hide Index, LiveTurns, FreeTurns, LiveData;
    var pc := s.threads[i];
    var s' := Release(s, i, pc.ticket, pc.dst);
    assert PcInv(s, i, pc);
    CopierOwns(s, i);
    ReleaseSlots(s, i);
    assert pc.dst == s.pushed[pc.ticket];
    OthersFramed(s, s', i);
  }

  lemma ReleaseSlots(s: State, i: nat)
    requires Inv(s) && i < |s.threads| && s.threads[i].PopCopy? && |s.threads[i].dst| >= s.width
    ensures var s' := Release(s, i, s.threads[i].ticket, s.threads[i].dst);
      LiveTurns(s') && FreeTurns(s') && LiveData(s')
    ensures s.slots[Index(s.capacity, s.threads[i].ticket)].turn == s.threads[i].ticket + 1
  {
    hide Index, OwnersInv;
    var pc := s.threads[i];
    CopierOwns(s, i);
    OtherSlots(s.capacity, pc.ticket);
    OtherSlots(s.capacity, pc.ticket + s.capacity);
    IndexShift(s.capacity, pc.ticket);
  }

  // ---------------------------------------------------------------- theorems

  ghost predicate Shared(pc: Pc) {
    pc.PushCas? || pc.PushCopy? || pc.PopCas? || pc.PopCopy?
  }

  lemma LocalStepInv(s: State, i: nat, a: Action)
    requires Inv(s) && i < |s.threads| && (Shared(s.threads[i]) ==> !a.Advance?)
    ensures Inv(Step(s, i, a))
  {
    hide Index, SlotsInv, OwnersInv, ValidCapacity;
    var s' := Step(s, i, a);
    assert PcInv(s, i, s.threads[i]);
    if s' != s { GoInv(s, i, s'.threads[i]); }
  }

  lemma SharedStepInv(s: State, i: nat, spurious: bool)
    requires Inv(s) && i < |s.threads| && Shared(s.threads[i])
    ensures Inv(Step(s, i, Advance(spurious)))
  {
    hide Index, LiveTurns, FreeTurns, LiveData, OwnersInv, HistoryInv;
    assert PcInv(s, i, s.threads[i]);
    match s.threads[i]
    case PushCas(v, e) =>
      if s.end == e && !spurious { WinPushInv(s, i); } else { GoInv(s, i, PushLoadTurn(v, s.end)); }
    case PushCopy(v, t, k) =>
      if k < s.width { CopyInInv(s, i); } else { PublishInv(s, i); }
    case PopCas(e) =>
      if s.at == e && !spurious { WinPopInv(s, i); } else { GoInv(s, i, PopLoadTurn(s.at)); }
    case PopCopy(t, dst) =>
      if |dst| < s.width { CopyOutInv(s, i); } else { ReleaseInv(s, i); }
  }

  /** Every step of every thread keeps the invariant. */
  lemma StepInv(s: State, i: nat, a: Action)
    requires Inv(s) && i < |s.threads|
    ensures Inv(Step(s, i, a))
  {
    hide Inv, Step;
    if Shared(s.threads[i]) && a.Advance? {
      SharedStepInv(s, i, a.spurious);
    } else {
      LocalStepInv(s, i, a);
    }
  }

  lemma PublishExtends(s: State, i: nat)
    requires Inv(s) && i < |s.threads| && s.threads[i].PushCopy? && s.threads[i].copied >= s.width
    ensures Extends(s, Publish(s, i, s.threads[i].ticket))
  {
    hide Index, PcInv, SlotsInv, OwnersInv, HistoryInv;
    PublishSlots(s, i);
  }

  lemma ReleaseExtends(s: State, i: nat)
    requires Inv(s) && i < |s.threads| && s.threads[i].PopCopy? && |s.threads[i].dst| >= s.width
    ensures Extends(s, Release(s, i, s.threads[i].ticket, s.threads[i].dst))
  {
    hide Index, PcInv, SlotsInv, OwnersInv;
    CopierOwns(s, i);
    ReleaseSlots(s, i);
  }

  /** No step takes anything back. */
  lemma StepExtends(s: State, i: nat, a: Action)
    requires Inv(s) && i < |s.threads|
    ensures Extends(s, Step(s, i, a))
  {
    hide Index, SlotsInv, OwnersInv, Publish, Release, PcInv;
    var pc, s' := s.threads[i], Step(s, i, a);
    if Shared(pc) && a.Advance? {
      assert PcInv(s, i, pc);
      if pc.PushCopy? && pc.copied >= s.width {
        PublishExtends(s, i);
      } else if pc.PopCopy? && |pc.dst| >= s.width {
        ReleaseExtends(s, i);
      } else if pc.PushCopy? {
        assert |pc.value| == s.width by { CopierValue(s, i); }
      }
    } else {
      assert s' == Go(s, i, s'.threads[i]);
    }
  }

  lemma CopierValue(s: State, i: nat)
    requires ShapeOk(s) && HistoryInv(s) && i < |s.threads| && PcInv(s, i, s.threads[i])
    ensures s.threads[i].PushCopy? ==> |s.threads[i].value| == s.width
  {
  }

  /** Which step publishes, takes and releases: the three changes a user of the queue can see. */
  lemma StepEffect(s: State, i: nat, a: Action)
    requires Inv(s) && i < |s.threads|
    ensures var s', pc := Step(s, i, a), s.threads[i];
      && |s'.threads| == |s.threads| && s'.threads == s.threads[i := s'.threads[i]]
      && s.pushed <= s'.pushed && s.pushers <= s'.pushers
      && s'.published == (if a.Advance? && pc.PushCopy? && pc.copied >= s.width
                          then s.published + {pc.ticket} else s.published)
      && s'.popped == (if a.Advance? && pc.PopCopy? && |pc.dst| >= s.width
                       then s.popped[pc.ticket := s.pushed[pc.ticket]] else s.popped)
      && s'.at == (if a.Advance? && !a.spurious && pc.PopCas? && pc.local == s.at then s.at + 1 else s.at)
  {
    hide Step, Index, SlotsInv, OwnersInv, ValidCapacity;
    var pc := s.threads[i];
    assert PcInv(s, i, pc);
    StepMoves(s, i, a);
    StepChanges(s, i, a);
    if pc.PopCopy? && |pc.dst| >= s.width {
      assert s.pushed[pc.ticket][..s.width] == s.pushed[pc.ticket];
    }
  }

  /** A step moves one thread and only ever adds pushes. */
  ghost predicate Moves(s: State, s': State, i: nat) {
    && |s'.threads| == |s.threads| && i < |s.threads| && s'.threads == s.threads[i := s'.threads[i]]
    && s.pushed <= s'.pushed && s.pushers <= s'.pushers
  }

  lemma GoMoves(s: State, s': State, i: nat, pc: Pc)
    requires i < |s.threads| && s.pushed <= s'.pushed && s.pushers <= s'.pushers && s'.threads == s.threads
    ensures Moves(s, Go(s', i, pc), i)
  {
  }

  lemma StepMoves(s: State, i: nat, a: Action)
    requires ShapeOk(s) && i < |s.threads|
    ensures Moves(s, Step(s, i, a), i)
  {
    hide Index, Moves, Go;
    forall s': State, pc
      | s.pushed <= s'.pushed && s.pushers <= s'.pushers && s'.threads == s.threads
      ensures Moves(s, Go(s', i, pc), i)
    {
      GoMoves(s, s', i, pc);
    }
    assert Moves(s, s, i) by { SelfMoves(s, i); }
  }

  lemma SelfMoves(s: State, i: nat)
    requires i < |s.threads|
    ensures Moves(s, s, i)
  {
  }

  lemma StepChanges(s: State, i: nat, a: Action)
    requires ShapeOk(s) && i < |s.threads|
    requires s.threads[i].PushCopy? ==> |s.threads[i].value| == s.width
    ensures var s', pc := Step(s, i, a), s.threads[i];
      && s'.published == (if a.Advance? && pc.PushCopy? && pc.copied >= s.width
                          then s.published + {pc.ticket} else s.published)
      && s'.popped == (if a.Advance? && pc.PopCopy? && |pc.dst| >= s.width
                       then s.popped[pc.ticket := pc.dst] else s.popped)
      && s'.at == (if a.Advance? && !a.spurious && pc.PopCas? && pc.local == s.at then s.at + 1 else s.at)
  {
    hide Index;
  }

  ghost predicate Next(s: State, s': State) {
    ShapeOk(s) && exists i: nat, a :: i < |s.threads| && s' == Step(s, i, a)
  }

  /** A run: any interleaving, of any length, of any number of threads. */
  ghost predicate IsRun(run: seq<State>) {
    |run| > 0 && Init(run[0]) && forall k :: 0 <= k < |run| - 1 ==> Next(run[k], run[k + 1])
  }

  lemma {:induction false} RunInv(run: seq<State>, k: nat)
    requires IsRun(run) && k < |run|
    ensures Inv(run[k])
  {
    if k == 0 {
      InitInv(run[0]);
    } else {
      RunInv(run, k - 1);
      assert Next(run[k - 1], run[k - 1 + 1]);
      var i: nat, a :| i < |run[k - 1].threads| && run[k] == Step(run[k - 1], i, a);
      StepInv(run[k - 1], i, a);
    }
  }

  /** What one state of a run has recorded, every later state has too. */
  lemma {:induction false} RunExtends(run: seq<State>, j: nat, k: nat)
    requires IsRun(run) && j <= k < |run|
    ensures Extends(run[j], run[k])
    decreases k
  {
    hide Step, Inv, ShapeOk, Init;
    if j < k {
      RunExtends(run, j, k - 1);
      RunInv(run, k - 1);
      assert Next(run[k - 1], run[k - 1 + 1]);
      var i: nat, a :| i < |run[k - 1].threads| && run[k] == Step(run[k - 1], i, a);
      StepExtends(run[k - 1], i, a);
    }
  }

  /** First in, first out by ticket, in every reachable state: a finished pop of
      ticket t returned exactly the value pushed under t, tickets are won in
      order, and at most `capacity` of them are outstanding. */
  lemma Fifo(run: seq<State>, k: nat)
    requires IsRun(run) && k < |run|
    ensures var s := run[k];
      && s.at <= s.end <= s.at + s.capacity && |s.pushed| == s.end
      && (forall t :: t in s.popped ==> t < s.at && s.popped[t] == s.pushed[t])
  {
    RunInv(run, k);
  }

  ghost predicate Pushing(s: State, j: int, t: nat) {
    0 <= j < |s.threads| && s.threads[j].PushCopy? && s.threads[j].ticket == t
  }

  ghost predicate Popping(s: State, j: int, t: nat) {
    0 <= j < |s.threads| && s.threads[j].PopCopy? && s.threads[j].ticket == t
  }

  ghost predicate BeingPopped(s: State, t: nat) {
    exists j :: Popping(s, j, t)
  }

  /** None lost and none duplicated: every ticket won so far is in exactly one of
      four places: with the one thread still pushing it, whole in its slot, with
      the one thread popping it, or popped. */
  lemma EveryTicketOnce(s: State, t: nat)
    requires Inv(s) && t < s.end
    ensures t !in s.published <==> exists j :: Pushing(s, j, t)
    ensures t in s.published && t !in s.popped ==> s.slots[Index(s.capacity, t)].data == s.pushed[t]
    ensures t in s.published && t < s.at && t !in s.popped <==> exists j :: Popping(s, j, t)
    ensures t in s.popped ==> t in s.published && t < s.at
    ensures forall i, j :: Pushing(s, i, t) && Pushing(s, j, t) ==> i == j
    ensures forall i, j :: Popping(s, i, t) && Popping(s, j, t) ==> i == j
  {
    hide Index, LiveTurns, FreeTurns, PcInv;
    forall j | Pushing(s, j, t) || Popping(s, j, t)
      ensures Pushing(s, j, t) ==> t !in s.published && j == s.pushers[t]
      ensures Popping(s, j, t) ==> t !in s.popped && t < s.at && j == s.poppers[t]
    {
      CopierOwns(s, j);
    }
    if t !in s.published { assert Pushing(s, s.pushers[t], t); }
    if t < s.at && t !in s.popped { assert Popping(s, s.poppers[t], t); }
  }

  /** No two threads are between winning a ticket and storing the sequence number
      of one and the same slot, so no two copies ever touch one slot. */
  lemma CopiesAreExclusive(s: State, i: nat, j: nat)
    requires Inv(s) && i < |s.threads| && j < |s.threads| && i != j
    requires s.threads[i].PushCopy? || s.threads[i].PopCopy?
    requires s.threads[j].PushCopy? || s.threads[j].PopCopy?
    ensures Index(s.capacity, s.threads[i].ticket) != Index(s.capacity, s.threads[j].ticket)
  {
    hide Index, LiveTurns, FreeTurns, LiveData, PcInv, OwnersInv;
    CopierOwns(s, i);
    CopierOwns(s, j);
    var t, u := s.threads[i].ticket, s.threads[j].ticket;
    TurnOfCopier(s, i);
    TurnOfCopier(s, j);
    if Index(s.capacity, t) == Index(s.capacity, u) {
      assert t == u || t + 1 == u || u + 1 == t;
      if t <= u { IndexInjective(s.capacity, t, u); } else { IndexInjective(s.capacity, u, t); }
    }
  }

  /** While a thread copies, its slot's sequence number still names its ticket. */
  lemma TurnOfCopier(s: State, i: nat)
    requires Inv(s) && i < |s.threads|
    ensures var pc := s.threads[i];
      pc.PushCopy? ==> s.slots[Index(s.capacity, pc.ticket)].turn == pc.ticket
    ensures var pc := s.threads[i];
      pc.PopCopy? ==> s.slots[Index(s.capacity, pc.ticket)].turn == pc.ticket + 1
  {
    hide Index, PcInv, OwnersInv, LiveData;
    CopierOwns(s, i);
    if s.threads[i].PopCopy? {
      IndexShift(s.capacity, s.threads[i].ticket);
      assert s.slots[Index(s.capacity, s.threads[i].ticket + s.capacity)].turn == s.threads[i].ticket + 1;
    }
  }

  /** Push gives up at the load of the sequence number exactly when its local index is the
      real `end` and the ticket that last used the slot, one capacity earlier, is unreleased:
      either it is still waiting, so the queue is full, or a thread is copying it out. */
  lemma PushFailsOnlyWhenFull(s: State, i: nat, spurious: bool)
    requires Inv(s) && i < |s.threads| && s.threads[i].PushLoadTurn?
    ensures Step(s, i, Advance(spurious)).threads[i] == PushReturn(None) <==>
      s.threads[i].local == s.end && s.end >= s.capacity && s.end - s.capacity !in s.popped
    ensures Step(s, i, Advance(spurious)).threads[i] == PushReturn(None) ==>
      s.end - s.at == s.capacity || BeingPopped(s, s.end - s.capacity)
  {
    hide Index, LiveData;
    var e, c := s.threads[i].local, s.capacity;
    assert PcInv(s, i, s.threads[i]);
    PushSlotTurn(s, e);
    if e == s.end && e >= c && e - c < s.at && e - c !in s.popped {
      assert Popping(s, s.poppers[e - c], e - c);
    }
  }

  /** The slot of any index up to `end` carries a sequence number at least that index,
      except at `end` itself when the slot has not been released. */
  lemma PushSlotTurn(s: State, e: nat)
    requires Inv(s) && e <= s.end
    ensures s.slots[Index(s.capacity, e)].turn < e <==>
      e == s.end && e >= s.capacity && e - s.capacity !in s.popped
  {
    hide Index, LiveData, OwnersInv, PcInv;
    var c := s.capacity;
    if e < s.end {
      SlotReached(s, e);
    } else if s.end == s.at + c {
      IndexShift(c, s.at);
    }
  }

  /** The slot of a won ticket never again carries a smaller number. */
  lemma {:induction false} SlotReached(s: State, t: nat)
    requires Inv(s) && t < s.end
    ensures s.slots[Index(s.capacity, t)].turn >= (if t in s.published then t + 1 else t)
    decreases s.end - t
  {
    hide Index, LiveData, OwnersInv, PcInv;
    var c := s.capacity;
    if t < s.at {
      IndexShift(c, t);
      if t + c < s.end { SlotReached(s, t + c); }
    }
  }

  /** Pop gives up exactly when its local index is the real `at` and that ticket is
      unpublished: either nothing is queued, or a thread is still copying it in. */
  lemma PopFailsOnlyWhenUnpublished(s: State, i: nat, spurious: bool)
    requires Inv(s) && i < |s.threads| && s.threads[i].PopLoadTurn?
    ensures Step(s, i, Advance(spurious)).threads[i] == PopReturn(None) <==>
      s.threads[i].local == s.at && s.at !in s.published
    ensures Step(s, i, Advance(spurious)).threads[i] == PopReturn(None) ==>
      s.at == s.end || exists j :: Pushing(s, j, s.at)
  {
    hide Index, LiveData;
    var a := s.threads[i].local;
    assert PcInv(s, i, s.threads[i]);
    if a < s.at { SlotReached(s, a); }
    if s.at < s.end && s.at !in s.published {
      assert Pushing(s, s.pushers[s.at], s.at);
    }
  }

  /** Whatever the step and whatever its thread was doing, push comes to report failure only
      when the next ticket's slot is unreleased, and pop only when the next ticket to take is
      unpublished. */
  lemma FailureIsTruthful(s: State, i: nat, a: Action)
    requires Inv(s) && i < |s.threads|
    ensures var pc, pc' := s.threads[i], Step(s, i, a).threads[i];
      && (pc' == PushReturn(None) && pc != PushReturn(None) ==>
            pc.PushLoadTurn? && pc.local == s.end && s.end >= s.capacity && s.end - s.capacity !in s.popped)
      && (pc' == PopReturn(None) && pc != PopReturn(None) ==>
            pc.PopLoadTurn? && pc.local == s.at && s.at !in s.published)
  {
    hide Inv, ShapeOk, PcInv;
    ReportsFailure(s, i, a);
    if a.Advance? && s.threads[i].PushLoadTurn? { PushFailsOnlyWhenFull(s, i, a.spurious); }
    if a.Advance? && s.threads[i].PopLoadTurn? { PopFailsOnlyWhenUnpublished(s, i, a.spurious); }
  }

  lemma ReportsFailure(s: State, i: nat, a: Action)
    requires Inv(s) && i < |s.threads|
    ensures var pc, pc' := s.threads[i], Step(s, i, a).threads[i];
      && (pc' == PushReturn(None) && pc != PushReturn(None) ==> a.Advance? && pc.PushLoadTurn?)
      && (pc' == PopReturn(None) && pc != PopReturn(None) ==> a.Advance? && pc.PopLoadTurn?)
  {
    hide Index, HistoryInv, SlotsInv, OwnersInv, PcInv;
  }

  /** The estimate starts from the index as it is at the first load. */
  lemma EstimateLoads(s: State, i: nat, a: Action)
    requires Inv(s) && i < |s.threads| && !s.threads[i].SizeLoadEnd?
    ensures var pc' := Step(s, i, a).threads[i]; pc'.SizeLoadEnd? ==> pc'.local == s.at
  {
    hide Index, HistoryInv, SlotsInv, OwnersInv, PcInv;
  }

  /** The abstract queue: the values of the tickets pushed and not taken. */
  ghost function Contents(s: State): seq<seq<Byte>>
    requires |s.pushed| == s.end && s.at <= s.end
  {
    s.pushed[s.at..]
  }

  /** Every step is a step of a bounded first-in-first-out queue: a winning push
      appends its value, a winning pop takes the head and is then the thread that
      copies it out, and every other step changes nothing. */
  lemma StepRefinesQueue(s: State, i: nat, a: Action)
    requires Inv(s) && i < |s.threads|
    ensures Inv(Step(s, i, a))
    ensures var s', pc := Step(s, i, a), s.threads[i];
      if a == Advance(false) && pc.PushCas? && pc.local == s.end then
        Contents(s') == Contents(s) + [pc.value] && |Contents(s)| < s.capacity
      else if a == Advance(false) && pc.PopCas? && pc.local == s.at then
        Contents(s) == [s.pushed[s.at]] + Contents(s') && Popping(s', i, s.at)
      else Contents(s') == Contents(s)
  {
    hide Index, Inv, Extends, ShapeOk, Step;
    StepInv(s, i, a);
    StepContents(s, i, a);
  }

  lemma StepContents(s: State, i: nat, a: Action)
    requires Inv(s) && i < |s.threads|
    ensures var s', pc := Step(s, i, a), s.threads[i];
      |s'.pushed| == s'.end && s'.at <= s'.end &&
      if a == Advance(false) && pc.PushCas? && pc.local == s.end then
        Contents(s') == Contents(s) + [pc.value] && |Contents(s)| < s.capacity
      else if a == Advance(false) && pc.PopCas? && pc.local == s.at then
        Contents(s) == [s.pushed[s.at]] + Contents(s') && Popping(s', i, s.at)
      else Contents(s') == Contents(s)
  {
    hide Index, SlotsInv, OwnersInv, PcInv, ValidCapacity;
    if s.threads[i].PushCas? && s.threads[i].local == s.end { WinPushReady(s, i); }
    if s.threads[i].PopCas? && s.threads[i].local == s.at { WinPopReady(s, i); }
  }

  /** A pop that reports success has just released its ticket, for the first and only
      time, and returns the value that ticket was pushed with. */
  lemma PopReturnsItsTicket(s: State, i: nat, a: Action)
    requires Inv(s) && i < |s.threads| && !s.threads[i].PopReturn?
    requires var pc := Step(s, i, a).threads[i]; pc.PopReturn? && pc.popped.Some?
    ensures s.threads[i].PopCopy?
    ensures var t, s' := s.threads[i].ticket, Step(s, i, a);
      && t < s.at && t !in s.popped && s'.popped == s.popped[t := s.pushed[t]]
      && s'.threads[i] == PopReturn(Some((t, s.pushed[t])))
  {
    hide Index, SlotsInv, OwnersInv;
    var pc := s.threads[i];
    assert PcInv(s, i, pc);
    assert s.pushed[pc.ticket][..s.width] == s.pushed[pc.ticket];
  }

  /** The size estimate never underflows: it is the true size at its second load
      plus the pops won since its first. */
  lemma EstimateBounds(s: State, i: nat, spurious: bool)
    requires Inv(s) && i < |s.threads| && s.threads[i].SizeLoadEnd?
    ensures s.threads[i].local <= s.at
    ensures Step(s, i, Advance(spurious)).threads[i] ==
      SizeReturn(|Contents(s)| + (s.at - s.threads[i].local))
  {
    assert PcInv(s, i, s.threads[i]);
  }
}
