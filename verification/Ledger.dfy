/** What becomes of the commands each client submits. A ledger is kept from the actions alone,
    by what the transaction commands are documented to do; the state machine is then shown to
    run each client's commands as the ledger has them. */
module Ledgers {
  import opened Bytes
  import opened Transactions

  /** One client's submissions, by its slot: all of them in order; the ordinary ones whose fate
      is decided, with whether they were kept; the ordinary ones that an open transaction has
      gathered; and the MULTI, EXEC and DISCARD among them. */
  datatype Ledger = Ledger(
    sent: seq<Command>, past: seq<(Command, bool)>, open: seq<Command>, control: seq<Command>)

  /** A ledger for each slot, and the slot each block was made for. */
  datatype Books = Books(ledgers: seq<Ledger>, clients: seq<nat>)

  function Decided(open: seq<Command>, keep: bool): (ds: seq<(Command, bool)>)
    ensures |ds| == |open| && forall i :: 0 <= i < |open| ==> ds[i] == (open[i], keep)
  {
    if open == [] then [] else Decided(open[..|open| - 1], keep) + [(open[|open| - 1], keep)]
  }

  /** The open transaction is queued, or dropped. */
  function Closed(l: Ledger, keep: bool): Ledger {
    l.(past := l.past + Decided(l.open, keep), open := [])
  }

  /** One more command: gathered if the client has an open transaction, else run on its own. */
  function Noted(l: Ledger, c: Command, waiting: bool): Ledger {
    var l' := l.(sent := l.sent + [c]);
    if c.kind != Ordinary then l'.(control := l.control + [c])
    else if waiting then l'.(open := l.open + [c])
    else l'.(past := l.past + [(c, true)])
  }

  ghost predicate IsWaiting(s: State, slot: nat) {
    Alive(s, slot) && s.clients[slot].value.waiting.Some?
  }

  /** What an action writes into the ledgers. */
  ghost function Entered(books: Books, s: State, a: Action): seq<Ledger>
    requires Enabled(s, a) && |books.ledgers| == |s.clients|
  {
    var ls := books.ledgers;
    match a
    case Submit(slot, c) => ls[slot := Noted(ls[slot], c, IsWaiting(s, slot))]
    case Disconnect(slot) => ls[slot := Closed(ls[slot], false)]
    case RunNext =>
      var e := s.executing.value;
      var block := s.blocks[e.block].value;
      var slot, c := block.client, block.txs[e.ran].command;
      if !IsWaiting(s, slot) then ls
      else if c.kind == Exec && |s.queue| < s.capacity then ls[slot := Closed(ls[slot], true)]
      else if c.kind == Discard then ls[slot := Closed(ls[slot], false)]
      else ls
    case _ => ls
  }

  ghost function Written(books: Books, s: State, a: Action): Books
    requires Enabled(s, a) && |books.ledgers| == |s.clients|
  {
    var s' := Step(s, a);
    var made := if |s'.blocks| > |s.blocks| && s'.blocks[|s.blocks|].Some?
                then [s'.blocks[|s.blocks|].value.client] else [];
    Books(Entered(books, s, a), books.clients + made)
  }

  // -------------------------------------------------- what runs, client by client

  function Only(cs: seq<Command>, ordinary: bool): seq<Command> {
    if cs == [] then [] else
      Only(cs[..|cs| - 1], ordinary)
      + (if (cs[|cs| - 1].kind == Ordinary) == ordinary then [cs[|cs| - 1]] else [])
  }

  /** The commands of a client in some blocks: the ordinary ones, or the others. */
  ghost function Of(appended: seq<seq<Command>>, clients: seq<nat>, bs: seq<nat>, slot: nat, ordinary: bool): seq<Command> {
    if bs == [] then [] else
      var b := bs[|bs| - 1];
      Of(appended, clients, bs[..|bs| - 1], slot, ordinary)
      + (if b < |appended| && b < |clients| && clients[b] == slot then Only(appended[b], ordinary) else [])
  }

  /** The blocks that have run, the one that runs, and those that will, in order. */
  ghost function Line(s: State): seq<nat> {
    s.finished + (if s.executing.Some? then [s.executing.value.block] else []) + s.queue
  }

  function Kept(past: seq<(Command, bool)>): seq<Command> {
    if past == [] then [] else
      Kept(past[..|past| - 1]) + (if past[|past| - 1].1 then [past[|past| - 1].0] else [])
  }

  function Names(past: seq<(Command, bool)>): (cs: seq<Command>)
    ensures |cs| == |past|
  {
    if past == [] then [] else Names(past[..|past| - 1]) + [past[|past| - 1].0]
  }

  // ---------------------------------------------------------------- invariant

  /** The ledger itself: the ordinary submissions are the decided and the open ones, in order. */
  predicate Balanced(l: Ledger) {
    && Only(l.sent, true) == Names(l.past) + l.open
    && Only(l.sent, false) == l.control
  }

  /** The open commands are those of the waiting block. */
  ghost predicate OpenOk(s: State, books: Books, slot: nat)
    requires slot < |books.ledgers|
  {
    if IsWaiting(s, slot) then
      var w := s.clients[slot].value.waiting.value;
      w < |s.appended| && w < |books.clients| && books.clients[w] == slot && s.appended[w] == books.ledgers[slot].open
    else books.ledgers[slot].open == []
  }

  /** The blocks in line hold the client's kept commands, in the order they were submitted. */
  ghost predicate LineOk(s: State, books: Books, slot: nat)
    requires slot < |books.ledgers|
  {
    && LineOf(s, books.clients, slot, true) == Kept(books.ledgers[slot].past)
    && LineOf(s, books.clients, slot, false) == books.ledgers[slot].control
  }

  ghost predicate SlotOk(s: State, books: Books, slot: nat) {
    slot < |books.ledgers| && Balanced(books.ledgers[slot]) && OpenOk(s, books, slot) && LineOk(s, books, slot)
  }

  ghost predicate Made(s: State, books: Books) {
    && |books.ledgers| == |s.clients| && |books.clients| == |s.blocks|
    && forall b :: 0 <= b < |s.blocks| && s.blocks[b].Some? ==>
         books.clients[b] == s.blocks[b].value.client < |s.clients|
  }

  ghost predicate BooksOk(s: State, books: Books) {
    Made(s, books) && forall slot :: 0 <= slot < |books.ledgers| ==> SlotOk(s, books, slot)
  }

  // -------------------------------------------------------------------- lists

  lemma OnlySnoc(cs: seq<Command>, c: Command, ordinary: bool)
    ensures Only(cs + [c], ordinary) == Only(cs, ordinary) + (if (c.kind == Ordinary) == ordinary then [c] else [])
  {
    assert (cs + [c])[..|cs|] == cs;
  }

  lemma {:induction false} OnlyOrdinary(cs: seq<Command>)
    requires forall i :: 0 <= i < |cs| ==> cs[i].kind == Ordinary
    ensures Only(cs, true) == cs && Only(cs, false) == []
  {
    if cs != [] {
      OnlyOrdinary(cs[..|cs| - 1]);
      assert cs == cs[..|cs| - 1] + [cs[|cs| - 1]];
    }
  }

  lemma OfSnoc(appended: seq<seq<Command>>, clients: seq<nat>, bs: seq<nat>, b: nat, slot: nat, ordinary: bool)
    ensures Of(appended, clients, bs + [b], slot, ordinary) == Of(appended, clients, bs, slot, ordinary)
      + (if b < |appended| && b < |clients| && clients[b] == slot then Only(appended[b], ordinary) else [])
  {
    assert (bs + [b])[..|bs|] == bs;
  }

  /** Blocks that are not in line do not matter. */
  lemma {:induction false} OfSame(a: seq<seq<Command>>, a': seq<seq<Command>>, clients: seq<nat>, clients': seq<nat>,
      bs: seq<nat>, slot: nat, ordinary: bool)
    requires forall i :: 0 <= i < |bs| ==>
      bs[i] < |a| && bs[i] < |a'| && a'[bs[i]] == a[bs[i]]
      && bs[i] < |clients| && bs[i] < |clients'| && clients'[bs[i]] == clients[bs[i]]
    ensures Of(a', clients', bs, slot, ordinary) == Of(a, clients, bs, slot, ordinary)
  {
    hide Only;
    if bs != [] { OfSame(a, a', clients, clients', bs[..|bs| - 1], slot, ordinary); }
  }

  lemma KeptSnoc(past: seq<(Command, bool)>, d: (Command, bool))
    ensures Kept(past + [d]) == Kept(past) + (if d.1 then [d.0] else [])
    ensures Names(past + [d]) == Names(past) + [d.0]
  {
    assert (past + [d])[..|past|] == past;
  }

  /** Closing decides the open commands alike. */
  lemma {:induction false} DecidedAll(past: seq<(Command, bool)>, open: seq<Command>, keep: bool)
    ensures Kept(past + Decided(open, keep)) == Kept(past) + (if keep then open else [])
    ensures Names(past + Decided(open, keep)) == Names(past) + open
  {
    hide Kept, Names;
    if open == [] {
      assert past + Decided(open, keep) == past;
    } else {
      var n := |open| - 1;
      DecidedAll(past, open[..n], keep);
      KeptSnoc(past + Decided(open[..n], keep), (open[n], keep));
      assert past + Decided(open, keep) == past + Decided(open[..n], keep) + [(open[n], keep)];
      assert open == open[..n] + [open[n]];
    }
  }

  lemma ClosedBalanced(l: Ledger, keep: bool)
    requires Balanced(l)
    ensures Balanced(Closed(l, keep))
    ensures Kept(Closed(l, keep).past) == Kept(l.past) + (if keep then l.open else [])
  {
    DecidedAll(l.past, l.open, keep);
  }

  lemma NotedBalanced(l: Ledger, c: Command, waiting: bool)
    requires Balanced(l) && (!waiting ==> l.open == [])
    ensures Balanced(Noted(l, c, waiting))
    ensures Kept(Noted(l, c, waiting).past) == Kept(l.past) + (if c.kind == Ordinary && !waiting then [c] else [])
  {
    OnlySnoc(l.sent, c, true);
    OnlySnoc(l.sent, c, false);
    if c.kind == Ordinary && !waiting { KeptSnoc(l.past, (c, true)); }
  }

  // -------------------------------------------------------------------- steps

  /** The blocks in line are there, and none of them is waited on. */
  lemma LineBlocks(s: State)
    requires Inv(s)
    ensures forall i :: 0 <= i < |Line(s)| ==> Line(s)[i] < |s.owner| && !s.owner[Line(s)[i]].ByClient?
  {
    hide RefsInv, BlocksInv, WaitingOk, FreedOk, Flatten;
  }

  /** The commands of a client in the line, and those that block b adds to them. */
  ghost function LineOf(s: State, clients: seq<nat>, slot: nat, ordinary: bool): seq<Command> {
    Of(s.appended, clients, Line(s), slot, ordinary)
  }

  ghost function Added(s: State, clients: seq<nat>, b: nat, slot: nat, ordinary: bool): seq<Command>
    requires b < |s.appended| && b < |clients|
  {
    if clients[b] == slot then Only(s.appended[b], ordinary) else []
  }

  /** A step that adds no block to the line, and changes no record of one in it. */
  lemma SameLine(s: State, s': State, books: Books, clients': seq<nat>, slot: nat)
    requires Inv(s) && Made(s, books) && slot < |books.ledgers| && LineOk(s, books, slot)
    requires Line(s') == Line(s) && |s'.appended| >= |s.appended| && books.clients <= clients'
    requires forall b :: 0 <= b < |s.appended| && !s.owner[b].ByClient? ==> s'.appended[b] == s.appended[b]
    ensures forall o :: LineOf(s', clients', slot, o) == LineOf(s, books.clients, slot, o)
  {
    hide Inv, Of, LineOk;
    ShapeOfInv(s);
    LineBlocks(s);
    forall o ensures LineOf(s', clients', slot, o) == LineOf(s, books.clients, slot, o) {
      OfSame(s.appended, s'.appended, books.clients, clients', Line(s), slot, o);
    }
  }

  /** A step that adds block b at the end of the line. */
  lemma LongerLine(s: State, s': State, books: Books, clients': seq<nat>, slot: nat, b: nat)
    requires Inv(s) && Made(s, books) && slot < |books.ledgers| && LineOk(s, books, slot)
    requires Line(s') == Line(s) + [b] && b < |s'.appended| && b < |clients'|
    requires |s'.appended| >= |s.appended| && books.clients <= clients'
    requires forall b :: 0 <= b < |s.appended| ==> s'.appended[b] == s.appended[b]
    ensures forall o :: LineOf(s', clients', slot, o) == LineOf(s, books.clients, slot, o) + Added(s', clients', b, slot, o)
  {
    hide Inv, Of, LineOk, Only;
    ShapeOfInv(s);
    LineBlocks(s);
    forall o ensures LineOf(s', clients', slot, o) == LineOf(s, books.clients, slot, o) + Added(s', clients', b, slot, o) {
      OfSame(s.appended, s'.appended, books.clients, clients', Line(s), slot, o);
      OfSnoc(s'.appended, clients', Line(s), b, slot, o);
    }
  }

  /** The waiting block of a client holds ordinary commands only. */
  lemma WaitingBlock(s: State, slot: nat)
    requires Inv(s) && IsWaiting(s, slot)
    ensures var w := s.clients[slot].value.waiting.value;
      && w < |s.owner| == |s.appended| == |s.blocks| && s.owner[w] == ByClient(slot) && s.blocks[w].Some?
      && Only(s.appended[w], true) == s.appended[w] && Only(s.appended[w], false) == []
  {
    hide RefsInv, LogInv, QueueOk, Only;
    var w := s.clients[slot].value.waiting.value;
    assert BlockOk(s, w);
    var txs := s.blocks[w].value.txs;
    forall i | 0 <= i < |txs| ensures Commands(txs)[i].kind == Ordinary { CommandAt(txs, i); }
    OnlyOrdinary(s.appended[w]);
  }

  // ------------------------------------------------------- the books stay right

  lemma CommandMade(s: State, books: Books)
    requires Inv(s) && Made(s, books) && Enabled(s, RunNext)
    ensures Made(Step(s, RunNext), Written(books, s, RunNext))
  {
    hide Inv, Release, ReleaseAll, Closed, Commands;
    ShapeOfInv(s);
    assert |Entered(books, s, RunNext)| == |s.clients|;
  }

  lemma StepMade(s: State, books: Books, a: Action)
    requires Inv(s) && Made(s, books) && Enabled(s, a)
    ensures Made(Step(s, a), Written(books, s, a))
  {
    hide Inv, Release, ReleaseAll, Retain, Closed, Noted, Commands, RunCommand;
    ShapeOfInv(s);
    if a.RunNext? { CommandMade(s, books); }
  }

  /** Steps that move no command: the line and the waiting blocks stay as they are. */
  lemma QuietSlot(s: State, books: Books, a: Action, slot: nat)
    requires Inv(s) && Made(s, books) && Enabled(s, a) && slot < |books.ledgers| && SlotOk(s, books, slot)
    requires a.Connect? || a.Refresh? || a.Take? || a.Remove?
    ensures Made(Step(s, a), Written(books, s, a)) && SlotOk(Step(s, a), Written(books, s, a), slot)
  {
    hide Inv, Release, ReleaseAll, Of, Balanced;
    StepMade(s, books, a);
    ShapeOfInv(s);
    assert Line(Step(s, a)) == Line(s);
    SameLine(s, Step(s, a), books, Written(books, s, a).clients, slot);
  }

  lemma DirectSlot(s: State, books: Books, sender: nat, c: Command, slot: nat)
    requires Inv(s) && Made(s, books) && Enabled(s, Submit(sender, c)) && slot < |books.ledgers| && SlotOk(s, books, slot)
    requires !IsWaiting(s, sender) || c.kind != Ordinary
    ensures var a := Submit(sender, c); Made(Step(s, a), Written(books, s, a)) && SlotOk(Step(s, a), Written(books, s, a), slot)
  {
    hide Inv, Retain, Of, Balanced, Kept, Noted, Only;
    var a := Submit(sender, c);
    var s', books' := Step(s, a), Written(books, s, a);
    StepMade(s, books, a);
    ShapeOfInv(s);
    assert Line(s') == Line(s) + [|s.blocks|];
    assert Commands([Tx(c, s.clients[sender].value.buffer)]) == [c];
    LongerLine(s, s', books, books'.clients, slot, |s.blocks|);
    OneCommand(c);
    if slot == sender { DirectLedger(books.ledgers[slot], c, IsWaiting(s, sender)); }
  }

  lemma OneCommand(c: Command)
    ensures Only([c], true) == (if c.kind == Ordinary then [c] else [])
    ensures Only([c], false) == (if c.kind == Ordinary then [] else [c])
  {
    OnlySnoc([], c, true);
    OnlySnoc([], c, false);
    assert [] + [c] == [c];
  }

  lemma DirectLedger(l: Ledger, c: Command, waiting: bool)
    requires Balanced(l) && (!waiting ==> l.open == []) && (!waiting || c.kind != Ordinary)
    ensures var l' := Noted(l, c, waiting);
      && Balanced(l') && l'.open == l.open
      && Kept(l'.past) == Kept(l.past) + (if c.kind == Ordinary then [c] else [])
      && l'.control == l.control + (if c.kind == Ordinary then [] else [c])
  {
    hide Balanced, Kept;
    NotedBalanced(l, c, waiting);
  }

  lemma GatherSlot(s: State, books: Books, sender: nat, c: Command, slot: nat)
    requires Inv(s) && Made(s, books) && Enabled(s, Submit(sender, c)) && slot < |books.ledgers| && SlotOk(s, books, slot)
    requires IsWaiting(s, sender) && c.kind == Ordinary
    ensures var a := Submit(sender, c); Made(Step(s, a), Written(books, s, a)) && SlotOk(Step(s, a), Written(books, s, a), slot)
  {
    hide Inv, Retain, Of, Balanced, Kept, Only;
    var a := Submit(sender, c);
    var s', books' := Step(s, a), Written(books, s, a);
    StepMade(s, books, a);
    ShapeOfInv(s);
    WaitingBlock(s, sender);
    assert Line(s') == Line(s);
    SameLine(s, s', books, books'.clients, slot);
    if slot == sender {
      NotedBalanced(books.ledgers[slot], c, true);
    } else if IsWaiting(s, slot) {
      WaitingBlock(s, slot);
    }
  }

  lemma DisconnectSlot(s: State, books: Books, gone: nat, slot: nat)
    requires Inv(s) && Made(s, books) && Enabled(s, Disconnect(gone)) && slot < |books.ledgers| && SlotOk(s, books, slot)
    ensures var a := Disconnect(gone); Made(Step(s, a), Written(books, s, a)) && SlotOk(Step(s, a), Written(books, s, a), slot)
  {
    hide Inv, Release, ReleaseAll, Of, Balanced, Kept;
    var a := Disconnect(gone);
    StepMade(s, books, a);
    ShapeOfInv(s);
    assert Line(Step(s, a)) == Line(s);
    SameLine(s, Step(s, a), books, Written(books, s, a).clients, slot);
    if slot == gone { ClosedBalanced(books.ledgers[slot], false); }
  }

  /** The command that RunNext runs, and the client it runs it for. */
  ghost function Runs(s: State): (r: (nat, Command))
    requires Enabled(s, RunNext)
  {
    var e := s.executing.value;
    (s.blocks[e.block].value.client, s.blocks[e.block].value.txs[e.ran].command)
  }

  /** A command that hands over no block leaves the line and the waiting blocks as they are,
      but for the blocks of its own client. */
  lemma NoExecLine(s: State, books: Books, slot: nat)
    requires Inv(s) && Made(s, books) && Enabled(s, RunNext) && slot < |books.ledgers| && LineOk(s, books, slot)
    requires var (runner, c) := Runs(s); !(c.kind == Exec && IsWaiting(s, runner) && |s.queue| < s.capacity)
    ensures var s', clients' := Step(s, RunNext), Written(books, s, RunNext).clients;
      && |s'.appended| >= |s.appended| && books.clients <= clients'
      && (forall b :: 0 <= b < |s.appended| ==> s'.appended[b] == s.appended[b])
      && (forall o :: LineOf(s', clients', slot, o) == LineOf(s, books.clients, slot, o))
      && |s'.clients| == |s.clients| && (slot != Runs(s).0 ==> s'.clients[slot] == s.clients[slot])
  {
    hide Inv, ReleaseAll, Of, Closed;
    ShapeOfInv(s);
    var s' := Step(s, RunNext);
    assert Line(s') == Line(s);
    SameLine(s, s', books, Written(books, s, RunNext).clients, slot);
  }

  /** The waiting state of a command's own client: MULTI opens, DISCARD drops, and the others
      leave it alone. */
  ghost predicate OpensOrDrops(s: State, books: Books) {
    && Enabled(s, RunNext) && Made(s, books)
    && var (runner, c) := Runs(s); var books' := Written(books, s, RunNext);
       && runner < |books.ledgers| && runner < |books'.ledgers| && OpenOk(Step(s, RunNext), books', runner)
       && books'.ledgers[runner] == (if IsWaiting(s, runner) && c.kind == Discard
                                     then Closed(books.ledgers[runner], false) else books.ledgers[runner])
  }

  lemma MultiOpens(s: State, books: Books)
    requires Inv(s) && Made(s, books) && Enabled(s, RunNext) && Runs(s).0 < |books.ledgers|
    requires OpenOk(s, books, Runs(s).0) && Runs(s).1.kind == Multi
    ensures OpensOrDrops(s, books)
  {
    hide Inv, ReleaseAll, Closed;
    ShapeOfInv(s);
    if IsWaiting(s, Runs(s).0) { WaitingBlock(s, Runs(s).0); }
  }

  lemma DiscardDrops(s: State, books: Books)
    requires Inv(s) && Made(s, books) && Enabled(s, RunNext) && Runs(s).0 < |books.ledgers|
    requires OpenOk(s, books, Runs(s).0) && Runs(s).1.kind == Discard
    ensures OpensOrDrops(s, books)
  {
    hide Inv, ReleaseAll, Commands;
    ShapeOfInv(s);
    if IsWaiting(s, Runs(s).0) { WaitingBlock(s, Runs(s).0); }
  }

  lemma OthersLeave(s: State, books: Books)
    requires Inv(s) && Made(s, books) && Enabled(s, RunNext) && Runs(s).0 < |books.ledgers|
    requires OpenOk(s, books, Runs(s).0) && (Runs(s).1.kind == Ordinary || Runs(s).1.kind == Exec)
    requires !(Runs(s).1.kind == Exec && IsWaiting(s, Runs(s).0) && |s.queue| < s.capacity)
    ensures OpensOrDrops(s, books)
  {
    hide Inv, ReleaseAll, Closed, Commands;
    ShapeOfInv(s);
    if IsWaiting(s, Runs(s).0) { WaitingBlock(s, Runs(s).0); }
  }

  lemma NoExecSlot(s: State, books: Books, slot: nat)
    requires Inv(s) && Made(s, books) && Enabled(s, RunNext) && slot < |books.ledgers| && SlotOk(s, books, slot)
    requires var (runner, c) := Runs(s); !(c.kind == Exec && IsWaiting(s, runner) && |s.queue| < s.capacity)
    ensures Made(Step(s, RunNext), Written(books, s, RunNext))
    ensures SlotOk(Step(s, RunNext), Written(books, s, RunNext), slot)
  {
    hide Inv, Step, LineOf, Balanced, Kept, Closed, Enabled, RunCommand;
    StepMade(s, books, RunNext);
    AllEntered(books, s, RunNext);
    ShapeOfInv(s);
    NoExecLine(s, books, slot);
    if slot == Runs(s).0 {
      match Runs(s).1.kind {
        case Multi => MultiOpens(s, books);
        case Discard => DiscardDrops(s, books);
        case _ => OthersLeave(s, books);
      }
      ClosedBalanced(books.ledgers[slot], false);
      ClosedControl(books.ledgers[slot], false);
    } else {
      OthersEntered(books, s, slot);
      if IsWaiting(s, slot) { WaitingBlock(s, slot); }
    }
  }

  lemma ClosedControl(l: Ledger, keep: bool)
    ensures Closed(l, keep).control == l.control
  {
  }

  lemma OthersEntered(books: Books, s: State, slot: nat)
    requires Enabled(s, RunNext) && |books.ledgers| == |s.clients| && slot < |books.ledgers| && slot != Runs(s).0
    ensures |Entered(books, s, RunNext)| == |books.ledgers| && Entered(books, s, RunNext)[slot] == books.ledgers[slot]
  {
  }

  /** EXEC puts the waiting block at the end of the line, and its commands are kept. */
  lemma ExecSlot(s: State, books: Books, slot: nat)
    requires Inv(s) && Made(s, books) && Enabled(s, RunNext) && slot < |books.ledgers| && SlotOk(s, books, slot)
    requires var (runner, c) := Runs(s); c.kind == Exec && IsWaiting(s, runner) && |s.queue| < s.capacity
    requires SlotOk(s, books, Runs(s).0)
    ensures Made(Step(s, RunNext), Written(books, s, RunNext))
    ensures SlotOk(Step(s, RunNext), Written(books, s, RunNext), slot)
  {
    hide Inv, ReleaseAll, Of, Balanced, Kept, Only;
    StepMade(s, books, RunNext);
    ShapeOfInv(s);
    var (runner, c) := Runs(s);
    var s', books' := Step(s, RunNext), Written(books, s, RunNext);
    WaitingBlock(s, runner);
    var w := s.clients[runner].value.waiting.value;
    assert Line(s') == Line(s) + [w];
    LongerLine(s, s', books, books'.clients, slot, w);
    if slot == runner { ClosedBalanced(books.ledgers[slot], true); }
  }

  /** Every step keeps the books right. */
  lemma StepBooks(s: State, books: Books, a: Action)
    requires Inv(s) && BooksOk(s, books) && Enabled(s, a)
    ensures BooksOk(Step(s, a), Written(books, s, a))
  {
    hide Inv, Step, Enabled, SlotOk, Entered;
    StepMade(s, books, a);
    var books' := Written(books, s, a);
    AllEntered(books, s, a);
    forall slot | 0 <= slot < |books'.ledgers| ensures SlotOk(Step(s, a), books', slot) {
      StepSlot(s, books, a, slot);
    }
  }

  lemma AllEntered(books: Books, s: State, a: Action)
    requires Enabled(s, a) && |books.ledgers| == |s.clients|
    ensures |Written(books, s, a).ledgers| == |books.ledgers|
  {
    hide Closed, Noted, Step;
  }

  lemma StepSlot(s: State, books: Books, a: Action, slot: nat)
    requires Inv(s) && BooksOk(s, books) && Enabled(s, a) && slot < |books.ledgers|
    ensures Made(Step(s, a), Written(books, s, a)) && SlotOk(Step(s, a), Written(books, s, a), slot)
  {
    hide Inv, Step, SlotOk, Entered, Written;
    assert SlotOk(s, books, slot);
    match a
    case Submit(sender, c) =>
      if IsWaiting(s, sender) && c.kind == Ordinary { GatherSlot(s, books, sender, c, slot); }
      else { DirectSlot(s, books, sender, c, slot); }
    case Disconnect(gone) => DisconnectSlot(s, books, gone, slot);
    case RunNext =>
      var (runner, c) := Runs(s);
      if c.kind == Exec && IsWaiting(s, runner) && |s.queue| < s.capacity { ExecSlot(s, books, slot); }
      else { NoExecSlot(s, books, slot); }
    case _ => QuietSlot(s, books, a, slot);
  }

  // -------------------------------------------------------------------- runs

  /** A run with the action that makes each of its steps. */
  ghost predicate IsTrace(run: seq<State>, actions: seq<Action>) {
    && |run| == |actions| + 1 && Init(run[0])
    && forall k :: 0 <= k < |actions| ==> Enabled(run[k], actions[k]) && run[k + 1] == Step(run[k], actions[k])
  }

  lemma TraceIsRun(run: seq<State>, actions: seq<Action>)
    requires IsTrace(run, actions)
    ensures IsRun(run)
  {
    hide Step, Enabled, Init;
    forall k | 0 <= k < |run| - 1 ensures Next(run[k], run[k + 1]) {
      assert Enabled(run[k], actions[k]);
    }
  }

  ghost function NewBooks(slots: nat): Books {
    Books(seq(slots, _ => Ledger([], [], [], [])), [])
  }

  /** The books after the first k actions. */
  ghost function BooksAt(run: seq<State>, actions: seq<Action>, k: nat): (books: Books)
    requires IsTrace(run, actions) && k <= |actions|
    ensures |books.ledgers| == |run[k].clients|
  {
    if k == 0 then NewBooks(|run[0].clients|) else
      var books := BooksAt(run, actions, k - 1);
      SlotsStay(books, run[k - 1], actions[k - 1]);
      Written(books, run[k - 1], actions[k - 1])
  }

  lemma SlotsStay(books: Books, s: State, a: Action)
    requires Enabled(s, a) && |books.ledgers| == |s.clients|
    ensures |Written(books, s, a).ledgers| == |Step(s, a).clients|
  {
    hide Closed, Noted, Release, ReleaseAll, Commands, Retain;
  }

  lemma {:induction false} BooksInv(run: seq<State>, actions: seq<Action>, k: nat)
    requires IsTrace(run, actions) && k <= |actions|
    ensures Inv(run[k]) && BooksOk(run[k], BooksAt(run, actions, k))
  {
    hide Inv, Step, Enabled, Init, BooksOk, Written;
    TraceIsRun(run, actions);
    RunInv(run, k);
    if k == 0 {
      NewBooksOk(run[0]);
    } else {
      BooksInv(run, actions, k - 1);
      StepBooks(run[k - 1], BooksAt(run, actions, k - 1), actions[k - 1]);
    }
  }

  lemma NewBooksOk(s: State)
    requires Init(s)
    ensures BooksOk(s, NewBooks(|s.clients|))
  {
  }

  // ---------------------------------------------------------------- theorems

  /** The commands a slot's clients submit along a run, by the actions alone. */
  function Submissions(actions: seq<Action>, slot: nat): seq<Command> {
    if actions == [] then [] else
      var a := actions[|actions| - 1];
      Submissions(actions[..|actions| - 1], slot) + (if a.Submit? && a.slot == slot then [a.command] else [])
  }

  /** The ledger notes every submission, and none besides. */
  lemma {:induction false} SentAreSubmissions(run: seq<State>, actions: seq<Action>, k: nat, slot: nat)
    requires IsTrace(run, actions) && k <= |actions| && slot < |run[0].clients|
    ensures slot < |BooksAt(run, actions, k).ledgers|
    ensures BooksAt(run, actions, k).ledgers[slot].sent == Submissions(actions[..k], slot)
    decreases k
  {
    hide Step, Enabled, Init;
    if k > 0 {
      SentAreSubmissions(run, actions, k - 1, slot);
      assert actions[..k][..k - 1] == actions[..k - 1];
      EnteredSent(BooksAt(run, actions, k - 1), run[k - 1], actions[k - 1], slot);
    }
  }

  lemma EnteredSent(books: Books, s: State, a: Action, slot: nat)
    requires Enabled(s, a) && |books.ledgers| == |s.clients| && slot < |books.ledgers|
    ensures |Entered(books, s, a)| == |books.ledgers|
    ensures Entered(books, s, a)[slot].sent ==
      books.ledgers[slot].sent + (if a.Submit? && a.slot == slot then [a.command] else [])
  {
    hide Decided;
  }

  /** The commands of a client that have run. */
  ghost function RunOf(s: State, clients: seq<nat>, slot: nat, ordinary: bool): seq<Command> {
    Of(s.appended, clients, s.finished, slot, ordinary)
    + match s.executing
      case None => []
      case Some(e) =>
        if e.block < |s.appended| && e.block < |clients| && clients[e.block] == slot && e.ran <= |s.appended[e.block]|
        then Only(s.appended[e.block][..e.ran], ordinary) else []
  }

  /** In every reachable state, for every client: its ordinary submissions, in order, are the
      decided ones and then those its open transaction has gathered; and the commands that have
      run for it are the first of the kept ones, in the order they were submitted. So are its
      MULTIs, EXECs and DISCARDs. What has been dropped never runs, and what is kept runs in
      its turn: the rest of the kept ones are in the block in progress or in the queue. */
  lemma RunsItsSubmissions(run: seq<State>, actions: seq<Action>, k: nat, slot: nat)
    requires IsTrace(run, actions) && k <= |actions| && slot < |run[0].clients|
    ensures var books := BooksAt(run, actions, k);
      && slot < |books.ledgers|
      && var s, l, sent := run[k], books.ledgers[slot], Submissions(actions[..k], slot);
         && Only(sent, true) == Names(l.past) + l.open && Only(sent, false) == l.control
         && RunOf(s, books.clients, slot, true) <= Kept(l.past)
         && RunOf(s, books.clients, slot, false) <= l.control
         && (s.executing.None? && s.queue == [] ==>
               RunOf(s, books.clients, slot, true) == Kept(l.past) && RunOf(s, books.clients, slot, false) == l.control)
  {
    hide Inv, Init, Step, Enabled, Of, Kept, Only, RunOf, BooksAt;
    BooksInv(run, actions, k);
    SentAreSubmissions(run, actions, k, slot);
    var books := BooksAt(run, actions, k);
    assert SlotOk(run[k], books, slot);
    LineSplit(run[k], books.clients, slot, true);
    LineSplit(run[k], books.clients, slot, false);
  }

  /** What has run is the first part of what the line holds. */
  lemma LineSplit(s: State, clients: seq<nat>, slot: nat, ordinary: bool)
    requires Inv(s)
    ensures RunOf(s, clients, slot, ordinary) <= LineOf(s, clients, slot, ordinary)
    ensures s.executing.None? && s.queue == [] ==>
      RunOf(s, clients, slot, ordinary) == LineOf(s, clients, slot, ordinary)
  {
    hide Inv, Only;
    var some := s.finished + (if s.executing.Some? then [s.executing.value.block] else []);
    OfPrefix(s.appended, clients, some, s.queue, slot, ordinary);
    if s.executing.Some? {
      var e := s.executing.value;
      OfSnoc(s.appended, clients, s.finished, e.block, slot, ordinary);
      ExecutingBlock(s);
      OnlyPrefix(s.appended[e.block], e.ran, ordinary);
    } else {
      assert some == s.finished;
    }
    if s.queue == [] { assert Line(s) == some; }
  }

  lemma {:induction false} OfPrefix(appended: seq<seq<Command>>, clients: seq<nat>, a: seq<nat>, b: seq<nat>, slot: nat,
      ordinary: bool)
    ensures Of(appended, clients, a, slot, ordinary) <= Of(appended, clients, a + b, slot, ordinary)
    decreases |b|
  {
    hide Only;
    if b == [] {
      assert a + b == a;
    } else {
      OfPrefix(appended, clients, a, b[..|b| - 1], slot, ordinary);
      assert (a + b)[..|a + b| - 1] == a + b[..|b| - 1];
    }
  }

  lemma {:induction false} OnlyPrefix(cs: seq<Command>, n: nat, ordinary: bool)
    requires n <= |cs|
    ensures Only(cs[..n], ordinary) <= Only(cs, ordinary)
  {
    if n < |cs| {
      OnlyPrefix(cs[..|cs| - 1], n, ordinary);
      assert cs[..|cs| - 1][..n] == cs[..n];
    } else {
      assert cs[..n] == cs;
    }
  }
}
