/** Transactions: who owns each block and each query buffer, and what runs in which order.
    A state machine over the steps of the I/O threads and the transaction thread; a command
    is run in one step. Clients are the slots of the client table; blocks and buffers are
    heap objects with an identity, and a freed one is None. */
module Transactions {
  import opened Bytes

  datatype Kind = Ordinary | Multi | Exec | Discard

  /** MULTI, EXEC and DISCARD carry the waiting_tx flag. */
  datatype Command = Command(kind: Kind, id: nat)

  datatype Tx = Tx(command: Command, buffer: nat)

  datatype BlockType = TxDirect | TxWaiting | TxMultiple

  datatype Block = Block(kind: BlockType, client: nat, txs: seq<Tx>)

  datatype Client = Client(waiting: Option<nat>, buffer: nat)

  /** The block the transaction thread holds, how many of its transactions it has run, and
      whether its client was there when it took the block. */
  datatype Execution = Execution(block: nat, ran: nat, connected: bool)

  /** Recorded for the statements only: who owns a block, and which commands went into it. */
  datatype Owner = ByClient(slot: nat) | Queued | Executing | Freed

  datatype State = State(
    clients: seq<Option<Client>>, blocks: seq<Option<Block>>, buffers: seq<Option<nat>>,
    queue: seq<nat>, capacity: nat, executing: Option<Execution>,
    owner: seq<Owner>, appended: seq<seq<Command>>,
    finished: seq<nat>, discarded: set<nat>, log: seq<Command>)

  datatype Action =
    | Connect(slot: nat)
    | Refresh(slot: nat)
    | Submit(slot: nat, command: Command)
    | Take
    | RunNext
    | Remove
    | Disconnect(slot: nat)

  // ------------------------------------------------------------------ buffers

  /** One owner less; the last one frees the buffer. */
  function Release(buffers: seq<Option<nat>>, q: nat): (r: seq<Option<nat>>)
    ensures |r| == |buffers|
  {
    if q < |buffers| && buffers[q].Some? then
      buffers[q := if buffers[q].value == 1 then None else Some(if buffers[q].value > 0 then buffers[q].value - 1 else 0)]
    else buffers
  }

  function Retain(buffers: seq<Option<nat>>, q: nat): (r: seq<Option<nat>>)
    ensures |r| == |buffers|
  {
    if q < |buffers| && buffers[q].Some? then buffers[q := Some(buffers[q].value + 1)] else buffers
  }

  function ReleaseAll(buffers: seq<Option<nat>>, txs: seq<Tx>): (r: seq<Option<nat>>)
    ensures |r| == |buffers|
    decreases |txs|
  {
    if txs == [] then buffers else ReleaseAll(Release(buffers, txs[0].buffer), txs[1..])
  }

  // -------------------------------------------------------------------- steps

  ghost predicate Alive(s: State, slot: nat) {
    slot < |s.clients| && s.clients[slot].Some?
  }

  ghost function Commands(txs: seq<Tx>): (cs: seq<Command>)
    ensures |cs| == |txs|
  {
    if txs == [] then [] else [txs[0].command] + Commands(txs[1..])
  }

  /** remove_transaction_block. */
  ghost function FreeBlock(s: State, b: nat): State
    requires b < |s.blocks| == |s.owner| && s.blocks[b].Some?
  {
    s.(blocks := s.blocks[b := None], buffers := ReleaseAll(s.buffers, s.blocks[b].value.txs), owner := s.owner[b := Freed])
  }

  ghost function SetWaiting(s: State, slot: nat, w: Option<nat>): State
    requires Alive(s, slot)
  {
    s.(clients := s.clients[slot := Some(s.clients[slot].value.(waiting := w))])
  }

  ghost function NewBlock(s: State, block: Block, owner: Owner): State {
    s.(blocks := s.blocks + [Some(block)], owner := s.owner + [owner], appended := s.appended + [Commands(block.txs)])
  }

  ghost predicate Shape(s: State) {
    |s.owner| == |s.blocks| == |s.appended|
  }

  ghost predicate Connected(s: State, b: nat) {
    b < |s.blocks| && s.blocks[b].Some? && Alive(s, s.blocks[b].value.client)
  }

  /** The transaction thread has run all of an EXECed block whose client was gone, and is about
      to send the replies through a null pointer: the server ends here. */
  ghost predicate Crashed(s: State) {
    && s.executing.Some?
    && var e := s.executing.value;
       && !e.connected && e.block < |s.blocks| && s.blocks[e.block].Some?
       && s.blocks[e.block].value.kind != TxDirect && e.ran == |s.blocks[e.block].value.txs|
  }

  /** When a step can happen. Submitting outside a waiting block spins until the queue has room. */
  ghost predicate Enabled(s: State, a: Action) {
    && Shape(s) && !Crashed(s)
    && match a
       case Connect(slot) => slot < |s.clients| && s.clients[slot].None?
       case Refresh(slot) =>
         && Alive(s, slot) && s.clients[slot].value.buffer < |s.buffers|
         && var r := s.buffers[s.clients[slot].value.buffer]; r.Some? && r.value > 1
       case Submit(slot, c) =>
         && Alive(s, slot)
         && if s.clients[slot].value.waiting.None? || c.kind != Ordinary then |s.queue| < s.capacity
            else
              var w := s.clients[slot].value.waiting.value;
              w < |s.blocks| && s.blocks[w].Some?
       case Take => s.executing.None? && s.queue != [] && s.queue[0] < |s.owner|
       case RunNext =>
         && s.executing.Some?
         && var e := s.executing.value;
            e.block < |s.blocks| && s.blocks[e.block].Some? && e.ran < |s.blocks[e.block].value.txs|
       case Remove =>
         && s.executing.Some?
         && var e := s.executing.value;
            e.block < |s.blocks| && s.blocks[e.block].Some? && e.ran == |s.blocks[e.block].value.txs|
       case Disconnect(slot) =>
         && Alive(s, slot)
         && var w := s.clients[slot].value.waiting;
            w.Some? ==> w.value < |s.blocks| && s.blocks[w.value].Some?
  }

  ghost function Submitted(s: State, slot: nat, c: Command): State
    requires Enabled(s, Submit(slot, c))
  {
    var cl := s.clients[slot].value;
    var tx := Tx(c, cl.buffer);
    var s' := s.(buffers := Retain(s.buffers, cl.buffer));
    if cl.waiting.None? || c.kind != Ordinary then
      NewBlock(s', Block(TxDirect, slot, [tx]), Queued).(queue := s.queue + [|s.blocks|])
    else
      var w := cl.waiting.value;
      var block := s.blocks[w].value;
      s'.(blocks := s.blocks[w := Some(block.(txs := block.txs + [tx]))],
          appended := s.appended[w := s.appended[w] + [c]])
  }

  /** What running a command does besides its own effect on the data. A command of a client
      that has gone does nothing; nor does an EXEC that finds the queue full, except that the
      block's type stays changed. */
  ghost function RunCommand(s: State, slot: nat, c: Command): State
    requires Shape(s)
  {
    if !Alive(s, slot) then s else
      var w := s.clients[slot].value.waiting;
      match c.kind
      case Ordinary => s
      case Multi =>
        if w.Some? then s
        else SetWaiting(NewBlock(s, Block(TxWaiting, slot, []), ByClient(slot)), slot, Some(|s.blocks|))
      case Exec =>
        if w.None? || w.value >= |s.blocks| || s.blocks[w.value].None? then s else
          var s' := s.(blocks := s.blocks[w.value := Some(s.blocks[w.value].value.(kind := TxMultiple))]);
          if |s.queue| >= s.capacity then s'
          else SetWaiting(s'.(queue := s.queue + [w.value], owner := s.owner[w.value := Queued]), slot, None)
      case Discard =>
        if w.None? || w.value >= |s.blocks| || s.blocks[w.value].None? then s
        else SetWaiting(FreeBlock(s, w.value), slot, None).(discarded := s.discarded + {w.value})
  }

  ghost function Step(s: State, a: Action): State
    requires Enabled(s, a)
  {
    match a
    case Connect(slot) =>
      s.(clients := s.clients[slot := Some(Client(None, |s.buffers|))], buffers := s.buffers + [Some(1)])
    case Refresh(slot) =>
      var cl := s.clients[slot].value;
      s.(clients := s.clients[slot := Some(cl.(buffer := |s.buffers|))],
         buffers := s.buffers[cl.buffer := Some(s.buffers[cl.buffer].value - 1)] + [Some(1)])
    case Submit(slot, c) => Submitted(s, slot, c)
    case Take =>
      s.(executing := Some(Execution(s.queue[0], 0, Connected(s, s.queue[0]))), queue := s.queue[1..], owner := s.owner[s.queue[0] := Executing])
    case RunNext =>
      var e := s.executing.value;
      var block := s.blocks[e.block].value;
      var c := block.txs[e.ran].command;
      RunCommand(s, block.client, c).(executing := Some(Execution(e.block, e.ran + 1, e.connected)), log := s.log + [c])
    case Remove =>
      FreeBlock(s, s.executing.value.block).(executing := None, finished := s.finished + [s.executing.value.block])
    case Disconnect(slot) =>
      var cl := s.clients[slot].value;
      var s1 := if cl.waiting.Some? then FreeBlock(s, cl.waiting.value) else s;
      s1.(clients := s.clients[slot := None], buffers := Release(s1.buffers, cl.buffer))
  }

  ghost predicate Init(s: State) {
    && (forall i :: 0 <= i < |s.clients| ==> s.clients[i].None?)
    && s.blocks == [] && s.buffers == [] && s.queue == [] && s.executing.None?
    && s.owner == [] && s.appended == [] && s.finished == [] && s.discarded == {} && s.log == []
  }

  ghost predicate Next(s: State, s': State) {
    exists a :: Enabled(s, a) && s' == Step(s, a)
  }

  ghost predicate IsRun(run: seq<State>) {
    |run| > 0 && Init(run[0]) && forall k :: 0 <= k < |run| - 1 ==> Next(run[k], run[k + 1])
  }

  // --------------------------------------------------------- reference counts

  ghost function Total<T>(xs: seq<T>, w: T -> nat): nat {
    if xs == [] then 0 else Total(xs[..|xs| - 1], w) + w(xs[|xs| - 1])
  }

  lemma {:induction false} TotalUpdate<T>(xs: seq<T>, w: T -> nat, i: nat, x: T)
    requires i < |xs|
    ensures Total(xs[i := x], w) == Total(xs, w) - w(xs[i]) + w(x)
    ensures w(xs[i]) <= Total(xs, w)
  {
    var t := xs[..|xs| - 1];
    if i < |t| {
      TotalUpdate(t, w, i, x);
      assert xs[i := x][..|xs| - 1] == t[i := x];
    } else {
      assert xs[i := x][..|xs| - 1] == t;
    }
  }

  lemma TotalSnoc<T>(xs: seq<T>, w: T -> nat, x: T)
    ensures Total(xs + [x], w) == Total(xs, w) + w(x)
  {
    assert (xs + [x])[..|xs|] == xs;
  }

  ghost function CountTx(txs: seq<Tx>, q: nat): nat {
    if txs == [] then 0 else (if txs[0].buffer == q then 1 else 0) + CountTx(txs[1..], q)
  }

  ghost function ClientRefs(q: nat): Option<Client> -> nat {
    (c: Option<Client>) => if c.Some? && c.value.buffer == q then 1 else 0
  }

  ghost function BlockRefs(q: nat): Option<Block> -> nat {
    (b: Option<Block>) => if b.Some? then CountTx(b.value.txs, q) else 0
  }

  /** How many clients and transactions hold buffer q. */
  ghost function Holders(s: State, q: nat): nat {
    Total(s.clients, ClientRefs(q)) + Total(s.blocks, BlockRefs(q))
  }

  /** The reference count of buffer q; 0 for a freed one. */
  ghost function Count(buffers: seq<Option<nat>>, q: nat): nat {
    if q < |buffers| && buffers[q].Some? then buffers[q].value else 0
  }

  ghost predicate Positive(buffers: seq<Option<nat>>) {
    forall q :: 0 <= q < |buffers| && buffers[q].Some? ==> buffers[q].value > 0
  }

  /** Every reference count is the number of holders, and a buffer is freed exactly at zero. */
  ghost predicate RefsInv(s: State) {
    Positive(s.buffers) && forall q: nat :: Count(s.buffers, q) == Holders(s, q)
  }

  lemma ReleaseEffect(buffers: seq<Option<nat>>, q: nat)
    requires Positive(buffers) && Count(buffers, q) >= 1
    ensures Positive(Release(buffers, q))
    ensures forall x: nat :: Count(Release(buffers, q), x) == Count(buffers, x) - (if x == q then 1 else 0)
  {
  }

  lemma RetainEffect(buffers: seq<Option<nat>>, q: nat)
    requires Positive(buffers) && Count(buffers, q) >= 1
    ensures Positive(Retain(buffers, q))
    ensures forall x: nat :: Count(Retain(buffers, q), x) == Count(buffers, x) + (if x == q then 1 else 0)
  {
  }

  lemma {:induction false} ReleaseAllEffect(buffers: seq<Option<nat>>, txs: seq<Tx>)
    requires Positive(buffers) && forall x: nat :: CountTx(txs, x) <= Count(buffers, x)
    ensures Positive(ReleaseAll(buffers, txs))
    ensures forall x: nat :: Count(ReleaseAll(buffers, txs), x) == Count(buffers, x) - CountTx(txs, x)
    decreases |txs|
  {
    hide Count, Release;
    if txs != [] {
      assert CountTx(txs, txs[0].buffer) >= 1;
      ReleaseEffect(buffers, txs[0].buffer);
      ReleaseAllEffect(Release(buffers, txs[0].buffer), txs[1..]);
    }
  }

  lemma FreeBlockRefs(s: State, b: nat)
    requires Shape(s) && RefsInv(s) && b < |s.blocks| && s.blocks[b].Some?
    ensures RefsInv(FreeBlock(s, b))
  {
    hide Count, Total, ReleaseAll;
    var s' := FreeBlock(s, b);
    var txs := s.blocks[b].value.txs;
    forall x: nat ensures CountTx(txs, x) <= Count(s.buffers, x) {
      assert Count(s.buffers, x) == Holders(s, x);
      TotalUpdate(s.blocks, BlockRefs(x), b, None);
    }
    ReleaseAllEffect(s.buffers, txs);
    forall q: nat ensures Count(s'.buffers, q) == Holders(s', q) {
      assert Count(s.buffers, q) == Holders(s, q);
      TotalUpdate(s.blocks, BlockRefs(q), b, None);
    }
  }

  /** Replacing a client by one with the same buffer, or a block by one with the same
      transactions, changes no count. */
  lemma SameRefs(s: State, s': State)
    requires RefsInv(s) && s'.buffers == s.buffers
    requires forall q: nat :: Holders(s', q) == Holders(s, q)
    ensures RefsInv(s')
  {
    hide Count, Holders;
    forall q: nat ensures Count(s'.buffers, q) == Holders(s', q) {
      assert Count(s.buffers, q) == Holders(s, q);
    }
  }

  lemma SetWaitingRefs(s: State, slot: nat, w: Option<nat>)
    requires RefsInv(s) && Alive(s, slot)
    ensures RefsInv(SetWaiting(s, slot, w))
  {
    hide Count, Total;
    var s' := SetWaiting(s, slot, w);
    forall q: nat ensures Holders(s', q) == Holders(s, q) {
      TotalUpdate(s.clients, ClientRefs(q), slot, s'.clients[slot]);
    }
    SameRefs(s, s');
  }

  lemma RunCommandRefs(s: State, slot: nat, c: Command)
    requires Shape(s) && RefsInv(s)
    ensures RefsInv(RunCommand(s, slot, c))
  {
    hide RefsInv, Total, FreeBlock;
    if Alive(s, slot) {
      var w := s.clients[slot].value.waiting;
      match c.kind
      case Ordinary =>
      case Multi =>
        if w.None? {
          var s1 := NewBlock(s, Block(TxWaiting, slot, []), ByClient(slot));
          forall q: nat ensures Holders(s1, q) == Holders(s, q) {
            TotalSnoc(s.blocks, BlockRefs(q), Some(Block(TxWaiting, slot, [])));
          }
          SameRefs(s, s1);
          SetWaitingRefs(s1, slot, Some(|s.blocks|));
        }
      case Exec =>
        if w.Some? && w.value < |s.blocks| && s.blocks[w.value].Some? {
          var block := Some(s.blocks[w.value].value.(kind := TxMultiple));
          var s1 := s.(blocks := s.blocks[w.value := block]);
          forall q: nat ensures Holders(s1, q) == Holders(s, q) {
            TotalUpdate(s.blocks, BlockRefs(q), w.value, block);
          }
          SameRefs(s, s1);
          var s2 := s1.(queue := s.queue + [w.value], owner := s.owner[w.value := Queued]);
          SameHolders(s1, s2);
          SetWaitingRefs(s2, slot, None);
        }
      case Discard =>
        if w.Some? && w.value < |s.blocks| && s.blocks[w.value].Some? {
          FreeBlockRefs(s, w.value);
          assert Alive(FreeBlock(s, w.value), slot) by { FreeBlockKeeps(s, w.value); }
          SetWaitingRefs(FreeBlock(s, w.value), slot, None);
          SameHolders(SetWaiting(FreeBlock(s, w.value), slot, None), RunCommand(s, slot, c));
        }
    }
  }

  lemma FreeBlockKeeps(s: State, b: nat)
    requires Shape(s) && b < |s.blocks| && s.blocks[b].Some?
    ensures FreeBlock(s, b).clients == s.clients
  {
  }

  lemma SameHolders(s: State, s': State)
    requires RefsInv(s) && s'.clients == s.clients && s'.blocks == s.blocks && s'.buffers == s.buffers
    ensures RefsInv(s')
  {
    forall q: nat ensures Holders(s', q) == Holders(s, q) { }
    SameRefs(s, s');
  }

  /** A connected client is one of the holders of its buffer. */
  lemma ClientHolds(s: State, slot: nat)
    requires RefsInv(s) && Alive(s, slot)
    ensures Count(s.buffers, s.clients[slot].value.buffer) >= 1
  {
    var q := s.clients[slot].value.buffer;
    assert Count(s.buffers, q) == Holders(s, q);
    TotalUpdate(s.clients, ClientRefs(q), slot, None);
  }

  /** A client whose buffer has a count of 1 is its only holder: no transaction refers to it. */
  lemma OnlyHolder(s: State, slot: nat)
    requires RefsInv(s) && Alive(s, slot) && Count(s.buffers, s.clients[slot].value.buffer) == 1
    ensures forall b, i :: 0 <= b < |s.blocks| && s.blocks[b].Some? && 0 <= i < |s.blocks[b].value.txs| ==>
      s.blocks[b].value.txs[i].buffer != s.clients[slot].value.buffer
  {
    hide Count, Total;
    var q := s.clients[slot].value.buffer;
    assert Count(s.buffers, q) == Holders(s, q);
    TotalUpdate(s.clients, ClientRefs(q), slot, None);
    forall b, i | 0 <= b < |s.blocks| && s.blocks[b].Some? && 0 <= i < |s.blocks[b].value.txs|
      ensures s.blocks[b].value.txs[i].buffer != q
    {
      TotalUpdate(s.blocks, BlockRefs(q), b, None);
      NotCounted(s.blocks[b].value.txs, q, i);
    }
  }

  lemma {:induction false} NotCounted(txs: seq<Tx>, q: nat, i: nat)
    requires i < |txs| && CountTx(txs, q) == 0
    ensures txs[i].buffer != q
  {
    if i > 0 { NotCounted(txs[1..], q, i - 1); }
  }

  lemma ConnectRefs(s: State, slot: nat)
    requires RefsInv(s) && Enabled(s, Connect(slot))
    ensures RefsInv(Step(s, Connect(slot)))
  {
    hide Total;
    var s' := Step(s, Connect(slot));
    forall q: nat ensures Count(s'.buffers, q) == Holders(s', q) {
      assert Count(s.buffers, q) == Holders(s, q);
      TotalUpdate(s.clients, ClientRefs(q), slot, s'.clients[slot]);
    }
  }

  lemma RefreshRefs(s: State, slot: nat)
    requires RefsInv(s) && Enabled(s, Refresh(slot))
    ensures RefsInv(Step(s, Refresh(slot)))
  {
    hide Total;
    var s' := Step(s, Refresh(slot));
    forall q: nat ensures Count(s'.buffers, q) == Holders(s', q) {
      assert Count(s.buffers, q) == Holders(s, q);
      TotalUpdate(s.clients, ClientRefs(q), slot, s'.clients[slot]);
    }
  }

  lemma SubmitRefs(s: State, slot: nat, c: Command)
    requires RefsInv(s) && Enabled(s, Submit(slot, c))
    ensures RefsInv(Submitted(s, slot, c))
  {
    hide Total, Count, Retain;
    var s', cl := Submitted(s, slot, c), s.clients[slot].value;
    ClientHolds(s, slot);
    RetainEffect(s.buffers, cl.buffer);
    forall q: nat ensures Count(s'.buffers, q) == Holders(s', q) {
      assert Count(s.buffers, q) == Holders(s, q);
      if cl.waiting.None? || c.kind != Ordinary {
        var block := Some(Block(TxDirect, slot, [Tx(c, cl.buffer)]));
        TotalSnoc(s.blocks, BlockRefs(q), block);
        CountSnoc([], Tx(c, cl.buffer), q);
        assert [] + [Tx(c, cl.buffer)] == [Tx(c, cl.buffer)];
      } else {
        var w := cl.waiting.value;
        TotalUpdate(s.blocks, BlockRefs(q), w, s'.blocks[w]);
        CountSnoc(s.blocks[w].value.txs, Tx(c, cl.buffer), q);
      }
    }
  }

  lemma {:induction false} CountSnoc(txs: seq<Tx>, t: Tx, q: nat)
    ensures CountTx(txs + [t], q) == CountTx(txs, q) + (if t.buffer == q then 1 else 0)
  {
    if txs != [] {
      CountSnoc(txs[1..], t, q);
      assert (txs + [t])[1..] == txs[1..] + [t];
    }
  }

  lemma DisconnectRefs(s: State, slot: nat)
    requires RefsInv(s) && Enabled(s, Disconnect(slot))
    ensures RefsInv(Step(s, Disconnect(slot)))
  {
    hide Total, Count, Release, FreeBlock;
    var cl, s' := s.clients[slot].value, Step(s, Disconnect(slot));
    var s1 := if cl.waiting.Some? then FreeBlock(s, cl.waiting.value) else s;
    if cl.waiting.Some? {
      FreeBlockRefs(s, cl.waiting.value);
      FreeBlockKeeps(s, cl.waiting.value);
    }
    ClientHolds(s1, slot);
    ReleaseEffect(s1.buffers, cl.buffer);
    forall q: nat ensures Count(s'.buffers, q) == Holders(s', q) {
      assert Count(s1.buffers, q) == Holders(s1, q);
      TotalUpdate(s1.clients, ClientRefs(q), slot, None);
    }
  }

  lemma StepRefs(s: State, a: Action)
    requires RefsInv(s) && Enabled(s, a)
    ensures RefsInv(Step(s, a))
  {
    hide RefsInv, RunCommand, FreeBlock, Submitted;
    match a
    case Connect(slot) => ConnectRefs(s, slot);
    case Refresh(slot) => RefreshRefs(s, slot);
    case Submit(slot, c) => SubmitRefs(s, slot, c);
    case Take => SameHolders(s, Step(s, a));
    case RunNext =>
      var e := s.executing.value;
      var block := s.blocks[e.block].value;
      RunCommandRefs(s, block.client, block.txs[e.ran].command);
      SameHolders(RunCommand(s, block.client, block.txs[e.ran].command), Step(s, a));
    case Remove =>
      FreeBlockRefs(s, s.executing.value.block);
      SameHolders(FreeBlock(s, s.executing.value.block), Step(s, a));
    case Disconnect(slot) => DisconnectRefs(s, slot);
  }

  // ---------------------------------------------------------------- ownership

  /** A block is freed exactly when nobody owns it any more. */
  ghost predicate FreedOk(blocks: seq<Option<Block>>, owner: seq<Owner>) {
    |blocks| == |owner| && forall b :: 0 <= b < |blocks| ==> (blocks[b].None? <==> owner[b] == Freed)
  }

  /** A client's waiting block is its own, and is nobody else's. */
  ghost predicate WaitingOk(clients: seq<Option<Client>>, owner: seq<Owner>) {
    && (forall c :: 0 <= c < |clients| && clients[c].Some? && clients[c].value.waiting.Some? ==>
          var w := clients[c].value.waiting.value; w < |owner| && owner[w] == ByClient(c))
    && (forall b :: 0 <= b < |owner| && owner[b].ByClient? ==>
          var c := owner[b].slot;
          c < |clients| && clients[c].Some? && clients[c].value.waiting == Some(b))
  }

  /** The queue holds each queued block once and no other. */
  ghost predicate QueueOk(queue: seq<nat>, owner: seq<Owner>) {
    && (forall i :: 0 <= i < |queue| ==> queue[i] < |owner| && owner[queue[i]] == Queued)
    && (forall b :: 0 <= b < |owner| && owner[b] == Queued ==> b in queue)
    && (forall i, j :: 0 <= i < j < |queue| ==> queue[i] != queue[j])
  }

  /** The transaction thread holds the block it executes and no other. */
  ghost predicate ExecutingOk(executing: Option<Execution>, owner: seq<Owner>) {
    && (executing.Some? ==> executing.value.block < |owner| && owner[executing.value.block] == Executing)
    && (forall b :: 0 <= b < |owner| && owner[b] == Executing ==> executing.Some? && executing.value.block == b)
  }

  /** Each block has the one owner recorded for it, and each owner's pointer agrees. */
  ghost predicate OwnersInv(s: State) {
    && Shape(s) && FreedOk(s.blocks, s.owner) && WaitingOk(s.clients, s.owner)
    && QueueOk(s.queue, s.owner) && ExecutingOk(s.executing, s.owner)
  }

  /** What a block may hold, given its owner: a waiting block gathers ordinary commands,
      and only direct blocks and those an EXEC has queued reach the transaction thread. */
  ghost predicate BlockOk(s: State, b: nat)
    requires b < |s.blocks| == |s.owner| == |s.appended|
  {
    s.blocks[b].Some? ==>
      var block := s.blocks[b].value;
      && s.appended[b] == Commands(block.txs)
      && (block.kind == TxDirect ==> |block.txs| == 1)
      && (block.kind != TxDirect ==> forall i :: 0 <= i < |block.txs| ==> block.txs[i].command.kind == Ordinary)
      && (s.owner[b].ByClient? ==> block.kind != TxDirect)
      && (s.owner[b] == Queued || s.owner[b] == Executing ==> block.kind != TxWaiting)
  }

  ghost predicate BlocksInv(s: State) {
    Shape(s) && forall b :: 0 <= b < |s.blocks| ==> BlockOk(s, b)
  }

  ghost function Flatten(s: State, bs: seq<nat>): seq<Command> {
    if bs == [] then [] else
      Flatten(s, bs[..|bs| - 1]) + (if bs[|bs| - 1] < |s.appended| then s.appended[bs[|bs| - 1]] else [])
  }

  /** The commands run so far: those of the finished blocks, whole and in order, and the
      first ones of the block being executed. */
  ghost predicate LogInv(s: State) {
    && Shape(s)
    && (forall i :: 0 <= i < |s.finished| ==>
          s.finished[i] < |s.owner| && s.owner[s.finished[i]] == Freed && s.finished[i] !in s.discarded)
    && (forall i, j :: 0 <= i < j < |s.finished| ==> s.finished[i] != s.finished[j])
    && (forall b :: b in s.discarded ==> b < |s.owner| && s.owner[b] == Freed)
    && match s.executing
       case None => s.log == Flatten(s, s.finished)
       case Some(e) =>
         && e.block < |s.appended| && e.ran <= |s.appended[e.block]|
         && s.log == Flatten(s, s.finished) + s.appended[e.block][..e.ran]
  }

  ghost predicate Inv(s: State) {
    RefsInv(s) && OwnersInv(s) && BlocksInv(s) && LogInv(s)
  }

  lemma {:induction false} CommandAt(txs: seq<Tx>, i: nat)
    requires i < |txs|
    ensures Commands(txs)[i] == txs[i].command
  {
    if i > 0 { CommandAt(txs[1..], i - 1); }
  }

  lemma {:induction false} CommandsSnoc(txs: seq<Tx>, t: Tx)
    ensures Commands(txs + [t]) == Commands(txs) + [t.command]
  {
    if txs == [] {
      assert [] + [t] == [t];
    } else {
      CommandsSnoc(txs[1..], t);
      assert (txs + [t])[1..] == txs[1..] + [t];
    }
  }

  lemma QueueAppend(queue: seq<nat>, owner: seq<Owner>, b: nat)
    requires QueueOk(queue, owner) && b < |owner| && owner[b] != Queued
    ensures QueueOk(queue + [b], owner[b := Queued])
  {
    var q, o := queue + [b], owner[b := Queued];
    assert q[|queue|] == b;
    forall x | 0 <= x < |o| && o[x] == Queued ensures x in q {
      if x != b { assert x in queue; }
    }
  }

  lemma QueueTake(queue: seq<nat>, owner: seq<Owner>, o: Owner)
    requires QueueOk(queue, owner) && queue != [] && o != Queued
    ensures QueueOk(queue[1..], owner[queue[0] := o])
  {
    forall x | 0 <= x < |owner| && x != queue[0] && owner[x] == Queued ensures x in queue[1..] {
      assert x in queue;
    }
  }

  lemma QueueNew(queue: seq<nat>, owner: seq<Owner>)
    requires QueueOk(queue, owner)
    ensures QueueOk(queue + [|owner|], owner + [Queued])
  {
    assert (queue + [|owner|])[|queue|] == |owner|;
    forall x | 0 <= x < |owner| && owner[x] == Queued ensures x in queue + [|owner|] {
      assert x in queue;
    }
  }

  lemma RunCommandOwners(s: State, slot: nat, c: Command)
    requires OwnersInv(s)
    ensures OwnersInv(RunCommand(s, slot, c)) && RunCommand(s, slot, c).executing == s.executing
  {
    hide ReleaseAll, Commands, QueueOk;
    var s' := RunCommand(s, slot, c);
    if Alive(s, slot) {
      match c.kind
      case Ordinary =>
      case Multi =>
        QueueOther(s.queue, s.owner, 0, ByClient(slot));
      case Exec =>
        if s.clients[slot].value.waiting.Some? {
          var w := s.clients[slot].value.waiting.value;
          assert s.owner[w] == ByClient(slot);
          if |s.queue| < s.capacity { QueueAppend(s.queue, s.owner, w); }
        }
      case Discard =>
        if s.clients[slot].value.waiting.Some? {
          var w := s.clients[slot].value.waiting.value;
          assert s.owner[w] == ByClient(slot);
          QueueOther(s.queue, s.owner, w, Freed);
        }
    }
  }

  lemma QueueOther(queue: seq<nat>, owner: seq<Owner>, b: nat, o: Owner)
    requires QueueOk(queue, owner) && o != Queued
    ensures QueueOk(queue, owner + [o])
    ensures b < |owner| && owner[b] != Queued ==> QueueOk(queue, owner[b := o])
  {
  }

  lemma SubmitOwners(s: State, slot: nat, c: Command)
    requires OwnersInv(s) && Enabled(s, Submit(slot, c))
    ensures OwnersInv(Submitted(s, slot, c))
  {
    hide Retain, Commands, QueueOk;
    QueueNew(s.queue, s.owner);
  }

  lemma ConnectionOwners(s: State, a: Action)
    requires OwnersInv(s) && Enabled(s, a) && (a.Connect? || a.Refresh? || a.Disconnect?)
    ensures OwnersInv(Step(s, a))
  {
    hide ReleaseAll, Release, QueueOk;
    var w := if Alive(s, a.slot) then s.clients[a.slot].value.waiting else None;
    if w.Some? { QueueOther(s.queue, s.owner, w.value, Freed); }
  }

  lemma StepOwners(s: State, a: Action)
    requires OwnersInv(s) && Enabled(s, a)
    ensures OwnersInv(Step(s, a))
  {
    hide ReleaseAll, RunCommand, Submitted, QueueOk;
    match a
    case Submit(slot, c) => SubmitOwners(s, slot, c);
    case Take => QueueHeadOk(s.queue, s.owner); QueueTake(s.queue, s.owner, Executing);
    case RunNext =>
      var e := s.executing.value;
      var block := s.blocks[e.block].value;
      RunCommandOwners(s, block.client, block.txs[e.ran].command);
    case Remove => QueueOther(s.queue, s.owner, s.executing.value.block, Freed);
    case _ => ConnectionOwners(s, a);
  }

  lemma RunCommandBlocks(s: State, slot: nat, c: Command)
    requires OwnersInv(s) && BlocksInv(s)
    ensures BlocksInv(RunCommand(s, slot, c))
  {
    hide ReleaseAll, QueueOk, ExecutingOk, FreedOk;
    var s' := RunCommand(s, slot, c);
    forall b | 0 <= b < |s'.blocks| ensures BlockOk(s', b) {
      if b < |s.blocks| { assert BlockOk(s, b); }
    }
  }

  lemma StepBlocks(s: State, a: Action)
    requires OwnersInv(s) && BlocksInv(s) && Enabled(s, a)
    ensures BlocksInv(Step(s, a))
  {
    hide ReleaseAll, Release, Retain, RunCommand, OwnersInv, Commands;
    var s' := Step(s, a);
    if a.RunNext? {
      var e := s.executing.value;
      var block := s.blocks[e.block].value;
      RunCommandBlocks(s, block.client, block.txs[e.ran].command);
      SameBlocks(RunCommand(s, block.client, block.txs[e.ran].command), s');
    } else if a.Submit? {
      SubmitBlocks(s, a.slot, a.command);
    } else {
      OwnersFacts(s);
      forall b | 0 <= b < |s'.blocks| ensures BlockOk(s', b) {
        assert BlockOk(s, b);
      }
    }
  }

  lemma SameBlocks(s: State, s': State)
    requires BlocksInv(s) && s'.blocks == s.blocks && s'.owner == s.owner && s'.appended == s.appended
    ensures BlocksInv(s')
  {
    forall b | 0 <= b < |s'.blocks| ensures BlockOk(s', b) {
      assert BlockOk(s, b);
    }
  }

  lemma OwnersFacts(s: State)
    requires OwnersInv(s)
    ensures Shape(s) && (s.queue != [] ==> s.queue[0] < |s.owner| && s.owner[s.queue[0]] == Queued)
  {
    QueueHeadOk(s.queue, s.owner);
  }

  lemma QueueHeadOk(queue: seq<nat>, owner: seq<Owner>)
    requires QueueOk(queue, owner)
    ensures queue != [] ==> queue[0] < |owner| && owner[queue[0]] == Queued
  {
  }

  lemma SubmitBlocks(s: State, slot: nat, c: Command)
    requires OwnersInv(s) && BlocksInv(s) && Enabled(s, Submit(slot, c))
    ensures BlocksInv(Submitted(s, slot, c))
  {
    hide Retain, Commands, QueueOk, ExecutingOk, FreedOk;
    var s' := Submitted(s, slot, c);
    var t := Tx(c, s.clients[slot].value.buffer);
    CommandsSnoc([], t);
    assert [] + [t] == [t];
    forall b | 0 <= b < |s'.blocks| ensures BlockOk(s', b) {
      if b < |s.blocks| {
        assert BlockOk(s, b);
        if s.blocks[b].Some? { CommandsSnoc(s.blocks[b].value.txs, t); }
      }
    }
  }

  // ---------------------------------------------------------------------- log

  lemma {:induction false} FlattenSame(s: State, s': State, bs: seq<nat>)
    requires |s.appended| <= |s'.appended|
    requires forall i :: 0 <= i < |bs| ==> bs[i] < |s.appended| && s'.appended[bs[i]] == s.appended[bs[i]]
    ensures Flatten(s', bs) == Flatten(s, bs)
  {
    if bs != [] { FlattenSame(s, s', bs[..|bs| - 1]); }
  }

  lemma FlattenSnoc(s: State, bs: seq<nat>, b: nat)
    requires b < |s.appended|
    ensures Flatten(s, bs + [b]) == Flatten(s, bs) + s.appended[b]
  {
    assert (bs + [b])[..|bs|] == bs;
  }

  /** A step that leaves finished and executing blocks' records alone keeps the log right. */
  lemma LogFrame(s: State, s': State)
    requires LogInv(s) && Shape(s') && |s.owner| <= |s'.owner|
    requires s'.finished == s.finished && s'.log == s.log
    requires s'.executing == s.executing || (s.executing.None? && s'.executing.Some? && s'.executing.value.ran == 0
      && s'.executing.value.block < |s'.appended|)
    requires forall b :: 0 <= b < |s.owner| && s.owner[b] == Freed ==> s'.owner[b] == Freed && s'.appended[b] == s.appended[b]
    requires s.executing.Some? ==>
      var b := s.executing.value.block; b < |s.appended| && s'.appended[b] == s.appended[b]
    requires s.discarded <= s'.discarded
    requires forall b :: b in s'.discarded && b !in s.discarded ==>
      b < |s.owner| && s.owner[b] != Freed && s'.owner[b] == Freed
    ensures LogInv(s')
  {
    FlattenSame(s, s', s.finished);
    assert s.log + [] == s.log;
  }

  lemma RunCommandLog(s: State, slot: nat, c: Command)
    requires OwnersInv(s) && LogInv(s)
    ensures LogInv(RunCommand(s, slot, c))
  {
    hide ReleaseAll, QueueOk, LogInv, Commands;
    assert Shape(RunCommand(s, slot, c));
    LogFrame(s, RunCommand(s, slot, c));
  }

  lemma NextCommand(s: State)
    requires Shape(s) && BlocksInv(s) && Enabled(s, RunNext)
    ensures var e := s.executing.value;
      e.ran < |s.appended[e.block]| && s.appended[e.block][e.ran] == s.blocks[e.block].value.txs[e.ran].command
  {
    hide Commands;
    var e := s.executing.value;
    assert BlockOk(s, e.block);
    CommandAt(s.blocks[e.block].value.txs, e.ran);
  }

  lemma RunNextLog(s: State)
    requires OwnersInv(s) && BlocksInv(s) && LogInv(s) && Enabled(s, RunNext)
    ensures LogInv(Step(s, RunNext))
  {
    hide OwnersInv, RunCommand, BlocksInv, Flatten, Commands;
    var e := s.executing.value;
    var block := s.blocks[e.block].value;
    var c := block.txs[e.ran].command;
    var s1, s' := RunCommand(s, block.client, c), Step(s, RunNext);
    RunCommandLog(s, block.client, c);
    RunCommandRecords(s, block.client, c);
    NextCommand(s);
    FlattenSame(s, s1, s.finished);
    FlattenSame(s1, s', s.finished);
    var done := s.appended[e.block];
    assert done[..e.ran + 1] == done[..e.ran] + [c];
  }

  lemma RunCommandRecords(s: State, slot: nat, c: Command)
    requires OwnersInv(s)
    ensures var s' := RunCommand(s, slot, c);
      && s'.log == s.log && s'.finished == s.finished && s'.executing == s.executing
      && s.appended <= s'.appended
  {
    hide OwnersInv, ReleaseAll;
  }

  lemma RemoveLog(s: State)
    requires OwnersInv(s) && BlocksInv(s) && LogInv(s) && Enabled(s, Remove)
    ensures LogInv(Step(s, Remove))
  {
    hide QueueOk, WaitingOk, ReleaseAll, Commands, BlockOk, Flatten;
    var b, s' := s.executing.value.block, Step(s, Remove);
    RanAll(s);
    FlattenSame(s, s', s.finished);
    FlattenSnoc(s', s.finished, b);
    assert s.appended[b][..s.executing.value.ran] == s.appended[b];
  }

  lemma RanAll(s: State)
    requires Shape(s) && BlocksInv(s) && Enabled(s, Remove)
    ensures |s.appended[s.executing.value.block]| == s.executing.value.ran
  {
    hide Commands;
    assert BlockOk(s, s.executing.value.block);
  }

  lemma StepLog(s: State, a: Action)
    requires OwnersInv(s) && BlocksInv(s) && LogInv(s) && Enabled(s, a)
    ensures LogInv(Step(s, a))
  {
    hide ReleaseAll, Release, Retain, RunCommand, LogInv, Commands, BlocksInv, QueueOk;
    if a.RunNext? {
      RunNextLog(s);
    } else if a.Remove? {
      RemoveLog(s);
    } else {
      if a.Take? { QueueHeadOk(s.queue, s.owner); }
      LogFrame(s, Step(s, a));
    }
  }

  lemma StepInv(s: State, a: Action)
    requires Inv(s) && Enabled(s, a)
    ensures Inv(Step(s, a))
  {
    hide RefsInv, OwnersInv, BlocksInv, LogInv, Step, Enabled;
    StepRefs(s, a);
    StepOwners(s, a);
    StepBlocks(s, a);
    StepLog(s, a);
  }

  /** The block being executed is there, is direct with one command or was EXECed, and its
      transactions carry the commands recorded for it. */
  lemma ExecutingBlock(s: State)
    requires Inv(s) && s.executing.Some?
    ensures var e := s.executing.value;
      && e.block < |s.blocks| == |s.appended| && s.blocks[e.block].Some?
      && var block := s.blocks[e.block].value;
         && block.kind != TxWaiting && (block.kind == TxDirect ==> |block.txs| == 1)
         && s.appended[e.block] == Commands(block.txs) && e.ran <= |block.txs|
  {
    hide RefsInv, Commands, QueueOk, WaitingOk;
    assert BlockOk(s, s.executing.value.block);
  }

  /** The transaction thread can always go on with the block it executes, and can take one
      whenever there is one; when a block is done, it can be freed if and only if it is direct
      or its client was there, and otherwise the server has crashed. */
  lemma ThreadReady(s: State)
    requires Inv(s)
    ensures s.executing.None? && s.queue != [] ==> Enabled(s, Take)
    ensures s.executing.Some? ==>
      var e := s.executing.value;
      && e.block < |s.blocks| && s.blocks[e.block].Some?
      && (e.ran < |s.blocks[e.block].value.txs| ==> Enabled(s, RunNext))
      && (e.ran == |s.blocks[e.block].value.txs| ==>
            if s.blocks[e.block].value.kind == TxDirect || e.connected then Enabled(s, Remove) else Crashed(s))
  {
    hide RefsInv, BlocksInv, LogInv, WaitingOk;
    if s.executing.Some? { ExecutingBlock(s); }
  }

  /** The block at the head of the queue is there. */
  lemma QueuedBlock(s: State)
    requires Inv(s) && s.queue != []
    ensures s.queue[0] < |s.blocks| == |s.appended| && s.blocks[s.queue[0]].Some?
  {
    hide RefsInv, BlocksInv, LogInv, WaitingOk;
  }

  /** Running one more transaction logs its command, and leaves the block it is in alone. */
  lemma RunNextKeeps(s: State)
    requires Inv(s) && Enabled(s, RunNext)
    ensures var e, s' := s.executing.value, Step(s, RunNext);
      && s'.executing == Some(Execution(e.block, e.ran + 1, e.connected)) && s'.finished == s.finished
      && e.block < |s.blocks| <= |s'.blocks| && s'.blocks[e.block] == s.blocks[e.block]
      && e.block < |s.appended| <= |s'.appended| && s'.appended[e.block] == s.appended[e.block]
      && e.ran < |s.appended[e.block]| && s'.log == s.log + [s.appended[e.block][e.ran]]
  {
    hide RunCommand, OwnersInv, RefsInv, LogInv, BlocksInv;
    var e := s.executing.value;
    var block := s.blocks[e.block].value;
    ExecutingBlock(s);
    CommandAt(block.txs, e.ran);
    RunCommandRecords(s, block.client, block.txs[e.ran].command);
    RunCommandSpares(s, block.client, block.txs[e.ran].command, e.block);
  }

  lemma RunCommandSpares(s: State, slot: nat, c: Command, b: nat)
    requires OwnersInv(s) && s.executing.Some? && b == s.executing.value.block
    ensures b < |s.blocks| <= |RunCommand(s, slot, c).blocks| && RunCommand(s, slot, c).blocks[b] == s.blocks[b]
  {
    hide QueueOk, ReleaseAll, Commands;
  }

  /** The state after running up to n more transactions of the block being executed. */
  ghost function RunSteps(s: State, n: nat): State
    decreases n
  {
    if n == 0 || !Enabled(s, RunNext) then s else RunSteps(Step(s, RunNext), n - 1)
  }

  /** The state after the transaction thread has served the first block of the queue. */
  ghost predicate Serves(s: State, s': State) {
    && Enabled(s, Take)
    && exists n :: Enabled(RunSteps(Step(s, Take), n), Remove) && s' == Step(RunSteps(Step(s, Take), n), Remove)
  }

  // ------------------------------------------------------------ one client alone

  /** Nothing is queued or executed, and the client is there. */
  ghost predicate Idle(s: State, slot: nat) {
    s.executing.None? && s.queue == [] && Alive(s, slot)
  }

  /** What a client sends now goes to the queue at once, unless it is waiting. */
  ghost predicate Direct(s: State, slot: nat, c: Command) {
    Idle(s, slot) && s.capacity > 0 && (s.clients[slot].value.waiting.None? || c.kind != Ordinary)
  }

  lemma IdleFacts(s: State, slot: nat, c: Command)
    requires Inv(s) && Direct(s, slot, c)
    ensures Enabled(s, Submit(slot, c))
    ensures var s' := Step(s, Submit(slot, c));
      s'.queue == [|s.blocks|] && s'.executing.None? && |s'.blocks| == |s.blocks| + 1
      && s'.blocks[|s.blocks|] == Some(Block(TxDirect, slot, [Tx(c, s.clients[slot].value.buffer)]))
  {
    hide RefsInv, BlocksInv, LogInv;
  }

  /** Serving a direct block is taking it, running its command and freeing it. */
  lemma DirectRound(s: State, s': State)
    requires Inv(s) && Serves(s, s') && s.blocks[s.queue[0]].value.kind == TxDirect
    ensures var t := Step(s, Take);
      Enabled(t, RunNext) && Enabled(Step(t, RunNext), Remove) && s' == Step(Step(t, RunNext), Remove)
  {
    hide Inv, Step, RunSteps;
    var t := Step(s, Take);
    StepInv(s, Take);
    TakenBlock(s);
    ExecutingBlock(t);
    ThreadReady(t);
    var n: nat :| Enabled(RunSteps(t, n), Remove) && s' == Step(RunSteps(t, n), Remove);
    RunNextKeeps(t);
    StepInv(t, RunNext);
    var u := Step(t, RunNext);
    ThreadReady(u);
    NoneLeft(t, n);
    NoneLeft(u, n - 1);
  }

  lemma TakenBlock(s: State)
    requires Inv(s) && Enabled(s, Take)
    ensures var t := Step(s, Take);
      t.executing.Some? && t.executing.value.block == s.queue[0] && t.executing.value.ran == 0 && t.blocks == s.blocks
  {
  }

  lemma NoneLeft(s: State, n: nat)
    ensures n == 0 || !Enabled(s, RunNext) ==> RunSteps(s, n) == s
    ensures n > 0 && Enabled(s, RunNext) ==> RunSteps(s, n) == RunSteps(Step(s, RunNext), n - 1)
  {
  }

  /** What one command of a client leaves behind, when nothing else is going on. */
  lemma CommandRound(s: State, slot: nat, c: Command, s': State)
    requires Inv(s) && Direct(s, slot, c) && Enabled(s, Submit(slot, c)) && Serves(Step(s, Submit(slot, c)), s')
    ensures var mid := Step(Step(s, Submit(slot, c)), Take);
      && Enabled(Step(s, Submit(slot, c)), Take)
      && Shape(mid) && mid.clients == s.clients && mid.queue == [] && mid.capacity == s.capacity
      && |mid.blocks| == |s.blocks| + 1 && mid.blocks[..|s.blocks|] == s.blocks
      && var r := RunCommand(mid, slot, c);
         && s'.clients == r.clients && s'.queue == r.queue && s'.capacity == s.capacity && s'.executing.None?
         && |s'.blocks| == |r.blocks| && forall b :: 0 <= b < |r.blocks| && b != |s.blocks| ==> s'.blocks[b] == r.blocks[b]
  {
    hide Inv, RunCommand, Serves, ReleaseAll, Commands, Retain;
    var s1 := Step(s, Submit(slot, c));
    IdleFacts(s, slot, c);
    StepInv(s, Submit(slot, c));
    DirectRound(s1, s');
    assert Enabled(s1, Take) by { ServedTakes(s1, s'); }
    RunCommandCapacity(Step(s1, Take), slot, c);
  }

  lemma ServedTakes(s: State, s': State)
    requires Serves(s, s')
    ensures Enabled(s, Take)
  {
  }

  lemma RunCommandCapacity(s: State, slot: nat, c: Command)
    requires Shape(s)
    ensures RunCommand(s, slot, c).capacity == s.capacity && |RunCommand(s, slot, c).blocks| >= |s.blocks|
  {
    hide ReleaseAll, Commands;
  }

  lemma MultiRound(s: State, slot: nat, c: Command, s': State)
    requires Inv(s) && Direct(s, slot, c) && Enabled(s, Submit(slot, c)) && Serves(Step(s, Submit(slot, c)), s')
    requires c.kind == Multi && s.clients[slot].value.waiting.None?
    ensures Idle(s', slot) && s'.capacity == s.capacity && s'.clients[slot].value.waiting.Some?
    ensures var w := s'.clients[slot].value.waiting.value;
      w < |s'.blocks| && s'.blocks[w] == Some(Block(TxWaiting, slot, []))
  {
    hide Inv, Step, Serves, Enabled, Commands;
    CommandRound(s, slot, c, s');
  }

  lemma ExecRound(s: State, slot: nat, c: Command, s': State)
    requires Inv(s) && Direct(s, slot, c) && Enabled(s, Submit(slot, c)) && Serves(Step(s, Submit(slot, c)), s')
    requires c.kind == Exec && s.clients[slot].value.waiting.Some?
    requires var w := s.clients[slot].value.waiting.value; w < |s.blocks| && s.blocks[w] == Some(Block(TxWaiting, slot, []))
    ensures s'.executing.None? && Alive(s', slot) && s'.clients[slot].value.waiting.None?
    ensures s'.queue == [s.clients[slot].value.waiting.value]
    ensures var w := s'.queue[0]; w < |s'.blocks| && s'.blocks[w] == Some(Block(TxMultiple, slot, []))
  {
    hide Inv, Step, Serves, Enabled, Commands;
    CommandRound(s, slot, c, s');
    var mid := Step(Step(s, Submit(slot, c)), Take);
    var w := s.clients[slot].value.waiting.value;
    assert mid.blocks[w] == mid.blocks[..|s.blocks|][w];
  }

  lemma CloseStep(s: State, slot: nat)
    requires Inv(s) && Alive(s, slot) && s.clients[slot].value.waiting.None? && Enabled(s, Disconnect(slot))
    ensures var s' := Step(s, Disconnect(slot));
      s'.queue == s.queue && s'.blocks == s.blocks && s'.executing == s.executing && !Alive(s', slot)
  {
    hide Inv, Release;
  }

  /** After a refresh, done or not needed, the client's buffer has a count of 1. */
  lemma AfterRefresh(s: State, slot: nat)
    requires Inv(s) && Alive(s, slot) && !Crashed(s)
    ensures var s' := if Enabled(s, Refresh(slot)) then Step(s, Refresh(slot)) else s;
      Inv(s') && Alive(s', slot) && Count(s'.buffers, s'.clients[slot].value.buffer) == 1
  {
    hide OwnersInv, BlocksInv, LogInv;
    ShapeOfInv(s);
    ClientHolds(s, slot);
    if Enabled(s, Refresh(slot)) { StepInv(s, Refresh(slot)); }
  }

  lemma InitInv(s: State)
    requires Init(s)
    ensures Inv(s)
  {
    forall q: nat ensures Count(s.buffers, q) == Holders(s, q) {
      NoClients(s.clients, q);
    }
  }

  lemma {:induction false} NoClients(clients: seq<Option<Client>>, q: nat)
    requires forall i :: 0 <= i < |clients| ==> clients[i].None?
    ensures Total(clients, ClientRefs(q)) == 0
  {
    if clients != [] { NoClients(clients[..|clients| - 1], q); }
  }

  lemma {:induction false} RunInv(run: seq<State>, k: nat)
    requires IsRun(run) && k < |run|
    ensures Inv(run[k])
  {
    hide Inv, Step, Enabled, Init;
    if k == 0 {
      InitInv(run[0]);
    } else {
      RunInv(run, k - 1);
      assert Next(run[k - 1], run[k - 1 + 1]);
      var a :| Enabled(run[k - 1], a) && run[k] == Step(run[k - 1], a);
      StepInv(run[k - 1], a);
    }
  }

  // ----------------------------------------------------------------- theorems

  ghost predicate WaitedOnBy(s: State, b: nat, c: nat) {
    Alive(s, c) && s.clients[c].value.waiting == Some(b)
  }

  ghost predicate Waited(s: State, b: nat) {
    exists c: nat :: WaitedOnBy(s, b, c)
  }

  ghost predicate InExecution(s: State, b: nat) {
    s.executing.Some? && s.executing.value.block == b
  }

  /** A block that exists has exactly one owner: one client waits on it, or it is in the
      queue, once, or the transaction thread executes it. Nothing points to a freed block. */
  lemma OneOwner(run: seq<State>, k: nat, b: nat)
    requires IsRun(run) && k < |run| && b < |run[k].blocks|
    ensures var s := run[k];
      && (s.blocks[b].Some? <==> Waited(s, b) || b in s.queue || InExecution(s, b))
      && !(Waited(s, b) && b in s.queue) && !(Waited(s, b) && InExecution(s, b)) && !(b in s.queue && InExecution(s, b))
      && (forall c: nat, d: nat :: WaitedOnBy(s, b, c) && WaitedOnBy(s, b, d) ==> c == d)
      && (forall i, j :: 0 <= i < j < |s.queue| ==> s.queue[i] != s.queue[j])
  {
    hide RefsInv, BlocksInv, LogInv, Init, Next;
    RunInv(run, k);
    var s := run[k];
    if s.owner[b].ByClient? { assert WaitedOnBy(s, b, s.owner[b].slot); }
  }

  /** Every pointer a step is about to follow leads to a live block: the guards of the
      steps never stop a thread that holds one, unless the server has crashed. */
  lemma PointersAreLive(run: seq<State>, k: nat)
    requires IsRun(run) && k < |run|
    ensures var s := run[k];
      && (s.executing.Some? ==> Enabled(s, RunNext) || Enabled(s, Remove) || Crashed(s))
      && (s.executing.None? && s.queue != [] ==> Enabled(s, Take))
      && (forall slot: nat :: Alive(s, slot) && !Crashed(s) ==> Enabled(s, Disconnect(slot)))
      && (forall slot: nat, c :: Alive(s, slot) && |s.queue| < s.capacity && !Crashed(s) ==> Enabled(s, Submit(slot, c)))
  {
    hide RefsInv, BlocksInv, Init, Next;
    RunInv(run, k);
    var s := run[k];
    if s.executing.Some? { ExecutingBlock(s); }
  }

  /** No step touches a block's record once it is freed, so a block is freed once; and what
      was put into a block stays in it, in order. */
  lemma StepKeeps(s: State, a: Action)
    requires Inv(s) && Enabled(s, a)
    ensures var s' := Step(s, a);
      && |s.blocks| <= |s'.blocks| && |s.appended| <= |s'.appended| && s.finished <= s'.finished && s.discarded <= s'.discarded
      && s.log <= s'.log
      && forall b :: 0 <= b < |s.blocks| ==>
           (s.blocks[b].None? ==> s'.blocks[b].None?) && s.appended[b] <= s'.appended[b]
  {
    hide RefsInv, ReleaseAll, Release, Retain, RunCommand, Commands, QueueOk, BlocksInv, LogInv;
    if a.RunNext? {
      var e := s.executing.value;
      var block := s.blocks[e.block].value;
      RunCommandKeeps(s, block.client, block.txs[e.ran].command);
    }
  }

  lemma RunCommandKeeps(s: State, slot: nat, c: Command)
    requires OwnersInv(s)
    ensures var s' := RunCommand(s, slot, c);
      && |s.blocks| <= |s'.blocks| && s.appended <= s'.appended && s'.finished == s.finished && s.discarded <= s'.discarded
      && s'.log == s.log
      && forall b :: 0 <= b < |s.blocks| && s.blocks[b].None? ==> s'.blocks[b].None?
  {
    hide ReleaseAll, Commands, QueueOk;
  }

  lemma {:induction false} RunKeeps(run: seq<State>, j: nat, k: nat)
    requires IsRun(run) && j <= k < |run|
    ensures var s, s' := run[j], run[k];
      && Shape(s) && Shape(s') && |s.blocks| <= |s'.blocks|
      && s.finished <= s'.finished && s.discarded <= s'.discarded && s.log <= s'.log
      && forall b :: 0 <= b < |s.blocks| ==>
           (s.blocks[b].None? ==> s'.blocks[b].None?) && s.appended[b] <= s'.appended[b]
    decreases k
  {
    hide Inv, Step, Enabled, Init;
    RunInv(run, j);
    RunInv(run, k);
    ShapeOfInv(run[j]);
    ShapeOfInv(run[k]);
    if j < k {
      RunKeeps(run, j, k - 1);
      RunInv(run, k - 1);
      assert Next(run[k - 1], run[k - 1 + 1]);
      var a :| Enabled(run[k - 1], a) && run[k] == Step(run[k - 1], a);
      StepKeeps(run[k - 1], a);
      ShapeOfInv(run[k - 1]);
    }
  }

  lemma ShapeOfInv(s: State)
    requires Inv(s)
    ensures Shape(s)
  {
  }

  /** The commands run are those of the finished blocks, each block's commands together
      and in the order they were submitted, then the first ones of the block in progress;
      no block is finished twice. */
  lemma BlocksRunWhole(run: seq<State>, k: nat)
    requires IsRun(run) && k < |run|
    ensures var s := run[k];
      && (forall i, j :: 0 <= i < j < |s.finished| ==> s.finished[i] != s.finished[j])
      && match s.executing
         case None => s.log == Flatten(s, s.finished)
         case Some(e) =>
           e.block < |s.appended| && e.ran <= |s.appended[e.block]|
           && s.log == Flatten(s, s.finished) + s.appended[e.block][..e.ran]
  {
    hide RefsInv, OwnersInv, BlocksInv, Init, Next, Flatten;
    RunInv(run, k);
  }

  /** A discarded block is not executed, ever after: not a single one of its commands runs. */
  lemma DiscardedNeverRuns(run: seq<State>, j: nat, k: nat, b: nat)
    requires IsRun(run) && j <= k < |run| && b in run[j].discarded
    ensures b !in run[k].finished && !InExecution(run[k], b) && b !in run[k].queue && !Waited(run[k], b)
  {
    hide RefsInv, BlocksInv, Init, Next, Flatten;
    RunKeeps(run, j, k);
    RunInv(run, k);
  }

  /** In every reachable state the reference count of a query buffer is the number of its
      holders; it is freed exactly when there are none, so no holder is left with a freed one. */
  lemma CountsAreHolders(run: seq<State>, k: nat, q: nat)
    requires IsRun(run) && k < |run| && q < |run[k].buffers|
    ensures var s := run[k];
      && (s.buffers[q].Some? ==> s.buffers[q].value == Holders(s, q) > 0)
      && (s.buffers[q].None? <==> Holders(s, q) == 0)
  {
    hide OwnersInv, BlocksInv, LogInv, Init, Next, Holders;
    RunInv(run, k);
    assert Count(run[k].buffers, q) == Holders(run[k], q);
  }
}
