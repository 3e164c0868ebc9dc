/** The transaction functions as they change the server's memory, each proved to make the
    corresponding step of the protocol. */
module TransactionServer {
  import opened Bytes
  import T = Transactions

  class Server {
    var clients: seq<Option<T.Client>>
    var blocks: seq<Option<T.Block>>
    var buffers: seq<Option<nat>>
    var queue: seq<nat>
    const capacity: nat
    var executing: Option<T.Execution>
    ghost var owner: seq<T.Owner>
    ghost var appended: seq<seq<T.Command>>
    ghost var finished: seq<nat>
    ghost var discarded: set<nat>
    ghost var log: seq<T.Command>

    ghost function State(): T.State
      reads this
    {
      T.State(clients, blocks, buffers, queue, capacity, executing, owner, appended, finished, discarded, log)
    }

    constructor (maxClients: nat, capacity: nat)
      ensures T.Init(State()) && |clients| == maxClients && this.capacity == capacity
    {
      clients := seq(maxClients, _ => None);
      blocks, buffers, queue, executing := [], [], [], None;
      this.capacity := capacity;
      owner, appended, finished, discarded, log := [], [], [], {}, [];
    }

    /** Drops one reference; the thread that drops the last one frees the buffer. */
    method ReleaseBuffer(q: nat)
      requires T.Positive(buffers)
      modifies this`buffers
      ensures buffers == T.Release(old(buffers), q) && T.Positive(buffers)
    {
      if q < |buffers| && buffers[q].Some? {
        var before := buffers[q].value;
        buffers := buffers[q := if before == 1 then None else Some(before - 1)];
      }
    }

    /** Frees a block after dropping the buffer reference of each of its transactions. */
    method RemoveTransactionBlock(b: nat)
      requires T.Shape(State()) && T.Positive(buffers) && b < |blocks| && blocks[b].Some?
      modifies this`buffers, this`blocks, this`owner
      ensures State() == T.FreeBlock(old(State()), b)
    {
      var txs := blocks[b].value.txs;
      var i := 0;
      while i < |txs|
        invariant 0 <= i <= |txs| && T.Positive(buffers)
        invariant T.ReleaseAll(buffers, txs[i..]) == T.ReleaseAll(old(buffers), txs)
        modifies this`buffers
      {
        assert txs[i..][0] == txs[i] && txs[i..][1..] == txs[i + 1..];
        ReleaseBuffer(txs[i].buffer);
        i := i + 1;
      }
      blocks := blocks[b := None];
      owner := owner[b := T.Freed];
    }

    /** One more transaction: alone in a block of its own, or at the end of the client's
        waiting block; either way it holds the client's query buffer. */
    method AddTransaction(slot: nat, command: T.Command)
      requires T.Inv(State()) && T.Enabled(State(), T.Submit(slot, command))
      modifies this
      ensures State() == T.Step(old(State()), T.Submit(slot, command))
      ensures var client := old(clients)[slot].value;
        var tx := T.Tx(command, client.buffer);
        if client.waiting.Some? && command.kind == T.Ordinary then
          var w := client.waiting.value;
          && w < |old(blocks)| && old(blocks)[w].Some? && queue == old(queue)
          && blocks == old(blocks)[w := Some(old(blocks)[w].value.(txs := old(blocks)[w].value.txs + [tx]))]
        else
          && blocks == old(blocks) + [Some(T.Block(T.TxDirect, slot, [tx]))]
          && queue == old(queue) + [|old(blocks)|]
      ensures var q := old(clients)[slot].value.buffer;
        && q < |old(buffers)| && old(buffers)[q].Some? && buffers == old(buffers)[q := Some(old(buffers)[q].value + 1)]
        && clients == old(clients) && executing == old(executing)
    {
      hide T.OwnersInv, T.BlocksInv, T.LogInv;
      T.ClientHolds(State(), slot);
      var client := clients[slot].value;
      var tx := T.Tx(command, client.buffer);
      buffers := T.Retain(buffers, client.buffer);
      if client.waiting.None? || command.kind != T.Ordinary {
        queue := queue + [|blocks|];
        blocks := blocks + [Some(T.Block(T.TxDirect, slot, [tx]))];
        owner, appended := owner + [T.Queued], appended + [T.Commands([tx])];
      } else {
        var w := client.waiting.value;
        var block := blocks[w].value;
        blocks := blocks[w := Some(block.(txs := block.txs + [tx]))];
        appended := appended[w := appended[w] + [command]];
      }
    }

    method SetWaitingBlock(slot: nat, w: Option<nat>)
      requires T.Alive(State(), slot)
      modifies this`clients
      ensures State() == T.SetWaiting(old(State()), slot, w)
    {
      clients := clients[slot := Some(clients[slot].value.(waiting := w))];
    }

    /** MULTI. */
    method RunMulti(slot: nat, id: nat) returns (accepted: bool)
      requires T.Shape(State())
      modifies this
      ensures State() == T.RunCommand(old(State()), slot, T.Command(T.Multi, id))
      ensures if accepted
        then blocks == old(blocks) + [Some(T.Block(T.TxWaiting, slot, []))]
          && clients == old(clients)[slot := Some(old(clients)[slot].value.(waiting := Some(|old(blocks)|)))]
          && queue == old(queue) && buffers == old(buffers)
        else State() == old(State())
      ensures accepted <==> T.Alive(old(State()), slot) && old(clients)[slot].value.waiting.None?
    {
      if slot >= |clients| || clients[slot].None? || clients[slot].value.waiting.Some? { return false; }
      blocks := blocks + [Some(T.Block(T.TxWaiting, slot, []))];
      owner, appended := owner + [T.ByClient(slot)], appended + [[]];
      SetWaitingBlock(slot, Some(|blocks| - 1));
      accepted := true;
    }

    /** EXEC: the block changes its type and is handed to the queue; if the queue is full
        the client keeps it. */
    method RunExec(slot: nat, id: nat) returns (handedOver: bool)
      requires T.Inv(State())
      modifies this
      ensures State() == T.RunCommand(old(State()), slot, T.Command(T.Exec, id))
      ensures T.Alive(old(State()), slot) && old(clients)[slot].value.waiting.Some? ==>
        (handedOver <==> |old(queue)| < capacity)
        && (handedOver ==>
              (queue == old(queue) + [old(clients)[slot].value.waiting.value] && clients[slot].value.waiting.None?))
        && (!handedOver ==> queue == old(queue) && clients == old(clients))
    {
      hide T.RefsInv, T.LogInv, T.BlockOk, T.QueueOk;
      if slot >= |clients| || clients[slot].None? || clients[slot].value.waiting.None? { return false; }
      var w := clients[slot].value.waiting.value;
      assert w < |blocks| && owner[w] == T.ByClient(slot) && blocks[w].Some?;
      blocks := blocks[w := Some(blocks[w].value.(kind := T.TxMultiple))];
      if |queue| >= capacity { return false; }
      queue := queue + [w];
      owner := owner[w := T.Queued];
      SetWaitingBlock(slot, None);
      handedOver := true;
    }

    /** DISCARD: frees the waiting block; the reply is the number of its commands. */
    method RunDiscard(slot: nat, id: nat) returns (dropped: Option<nat>)
      requires T.Inv(State())
      modifies this
      ensures State() == T.RunCommand(old(State()), slot, T.Command(T.Discard, id))
      ensures dropped.Some? <==> T.Alive(old(State()), slot) && old(clients)[slot].value.waiting.Some?
      ensures dropped.Some? ==>
        var w := old(clients)[slot].value.waiting.value;
        w < |old(appended)| && dropped.value == |old(appended)[w]| && blocks[w].None?
    {
      hide T.RefsInv, T.LogInv, T.QueueOk, T.ReleaseAll;
      if slot >= |clients| || clients[slot].None? || clients[slot].value.waiting.None? { return None; }
      var w := clients[slot].value.waiting.value;
      assert w < |blocks| && owner[w] == T.ByClient(slot) && blocks[w].Some?;
      assert T.BlockOk(State(), w);
      assert T.Positive(buffers) by { PositiveBuffers(); }
      dropped := Some(|blocks[w].value.txs|);
      RemoveTransactionBlock(w);
      SetWaitingBlock(slot, None);
      discarded := discarded + {w};
    }

    /** Runs the next transaction of the block being executed. */
    method RunNext()
      requires T.Inv(State()) && T.Enabled(State(), T.RunNext)
      modifies this
      ensures State() == T.Step(old(State()), T.RunNext)
    {
      hide T.Inv, T.RunCommand;
      ghost var was := log;
      var e := executing.value;
      var block := blocks[e.block].value;
      var c := block.txs[e.ran].command;
      match c.kind {
        case Ordinary => OrdinaryRuns(block.client, c);
        case Multi => var _ := RunMulti(block.client, c.id);
        case Exec => var _ := RunExec(block.client, c.id);
        case Discard => var _ := RunDiscard(block.client, c.id);
      }
      assert c == T.Command(c.kind, c.id);
      executing, log := Some(T.Execution(e.block, e.ran + 1, e.connected)), was + [c];
    }

    lemma OrdinaryRuns(slot: nat, c: T.Command)
      requires T.Shape(State()) && c.kind == T.Ordinary
      ensures T.RunCommand(State(), slot, c) == State()
    {
    }

    /** execute_transaction_block: the one command of a direct block, or all those of an
        EXECed one in order, with nothing in between. It comes to its end if and only if the
        block is direct or its client was there when it was taken: the replies of an EXECed
        block are sent through the client's pointer, null or not. */
    method ExecuteTransactionBlock() returns (ended: bool)
      requires T.Inv(State()) && executing.Some? && executing.value.ran == 0
      modifies this
      ensures T.Inv(State()) && (if ended then T.Enabled(State(), T.Remove) else T.Crashed(State()))
      ensures executing.value.block < |old(blocks)| && old(blocks)[executing.value.block].Some?
      ensures ended <==> old(blocks)[executing.value.block].value.kind == T.TxDirect || old(executing).value.connected
      ensures executing.value.block == old(executing).value.block && finished == old(finished)
      ensures executing.value.block < |old(appended)| && log == old(log) + old(appended)[executing.value.block]
      ensures State() == T.RunSteps(old(State()), |old(appended)[executing.value.block]|)
    {
      hide T.Inv, T.Step, T.Enabled, T.RunSteps, T.Commands;
      ghost var s := State();
      T.ExecutingBlock(s);
      var b, connected := executing.value.block, executing.value.connected;
      var block := blocks[b].value;
      ghost var n := |block.txs|;
      if block.kind == T.TxDirect {
        T.ThreadReady(s);
        T.RunNextKeeps(s);
        RunNext();
        T.StepInv(s, T.RunNext);
        OneStep(s, 1);
        OneStep(State(), 0);
      } else {
        var i := 0;
        while i < |block.txs|
          invariant 0 <= i <= n && T.Inv(State()) && finished == s.finished
          invariant executing == Some(T.Execution(b, i, connected)) && b < |blocks| && blocks[b] == Some(block)
          invariant b < |appended| && appended[b] == s.appended[b] && log == s.log + s.appended[b][..i]
          invariant T.RunSteps(State(), n - i) == T.RunSteps(s, n)
        {
          ghost var t := State();
          T.ThreadReady(t);
          T.RunNextKeeps(t);
          T.StepInv(t, T.RunNext);
          OneStep(t, n - i);
          RunNext();
          i := i + 1;
        }
        OneStep(State(), 0);
      }
      T.ThreadReady(State());
      ended := block.kind == T.TxDirect || connected;
    }

    lemma OneStep(s: T.State, n: nat)
      ensures n == 0 ==> T.RunSteps(s, n) == s
      ensures n > 0 && T.Enabled(s, T.RunNext) ==> T.RunSteps(s, n) == T.RunSteps(T.Step(s, T.RunNext), n - 1)
    {
    }

    /** One round of the transaction thread: takes the first block of the queue, executes it
        and frees it. Exactly its commands run, in the order they were put into it. The round
        comes to its end if and only if the block is direct or its client is still there. */
    method ServeBlock() returns (ended: bool)
      requires T.Inv(State()) && executing.None? && queue != []
      modifies this
      ensures T.Inv(State())
      ensures var b := old(queue)[0];
        && b < |old(blocks)| && old(blocks)[b].Some?
        && (ended <==> old(blocks)[b].value.kind == T.TxDirect || T.Connected(old(State()), b))
        && b < |old(appended)| && log == old(log) + old(appended)[b]
        && (ended ==> finished == old(finished) + [b] && b < |blocks| && blocks[b].None?)
      ensures if ended then T.Serves(old(State()), State()) && executing.None? else T.Crashed(State())
    {
      hide T.Inv, T.RunSteps, T.Release, T.ReleaseAll;
      ghost var s := State();
      T.ThreadReady(s);
      T.StepInv(s, T.Take);
      var b := queue[0];
      T.QueuedBlock(s);
      var client := blocks[b].value.client;
      var connected := client < |clients| && clients[client].Some?;
      executing, queue, owner := Some(T.Execution(b, 0, connected)), queue[1..], owner[b := T.Executing];
      ended := ExecuteTransactionBlock();
      if !ended { return; }
      ghost var t := State();
      T.StepInv(t, T.Remove);
      assert T.Positive(buffers) by { PositiveBuffers(); }
      RemoveTransactionBlock(b);
      executing, finished := None, finished + [b];
      assert State() == T.Step(t, T.Remove);
    }

    /** What reading from a client starts with: a buffer that transactions still refer to is
        left to them, and the client gets a new one. The client is then the only holder of
        its buffer, so what is read next overwrites no transaction's words. */
    method RefreshBuffer(slot: nat)
      requires T.Inv(State()) && T.Alive(State(), slot) && !T.Crashed(State())
      modifies this
      ensures State() ==
        if T.Enabled(old(State()), T.Refresh(slot)) then T.Step(old(State()), T.Refresh(slot)) else old(State())
      ensures T.Alive(State(), slot)
      ensures var q := clients[slot].value.buffer;
        && q < |buffers| && buffers[q] == Some(1)
        && forall b, i :: 0 <= b < |blocks| && blocks[b].Some? && 0 <= i < |blocks[b].value.txs| ==>
             blocks[b].value.txs[i].buffer != q
      ensures blocks == old(blocks) && queue == old(queue) && executing == old(executing)
      ensures |clients| == |old(clients)| && clients[slot].value.waiting == old(clients)[slot].value.waiting
      ensures forall c :: 0 <= c < |clients| && c != slot ==> clients[c] == old(clients)[c]
      ensures var q := old(clients)[slot].value.buffer;
        && q < |old(buffers)| && old(buffers)[q].Some?
        && var n := old(buffers)[q].value;
           if n == 1 then State() == old(State())
           else n > 1 && q < |buffers| && buffers[q] == Some(n - 1)
                && forall r :: 0 <= r < |old(buffers)| && r != q ==> buffers[r] == old(buffers)[r]
    {
      hide T.OwnersInv, T.BlocksInv, T.LogInv;
      var q := clients[slot].value.buffer;
      T.ShapeOfInv(State());
      assert T.Count(buffers, q) >= 1 by { T.ClientHolds(State(), slot); }
      if buffers[q].value > 1 {
        clients := clients[slot := Some(clients[slot].value.(buffer := |buffers|))];
        buffers := buffers[q := Some(buffers[q].value - 1)] + [Some(1)];
      }
      T.AfterRefresh(old(State()), slot);
      T.OnlyHolder(State(), slot);
    }

    /** add_client: a client without a waiting block, and with a buffer of its own. */
    method AddClient(slot: nat)
      requires T.Enabled(State(), T.Connect(slot))
      modifies this
      ensures State() == T.Step(old(State()), T.Connect(slot))
      ensures clients == old(clients)[slot := Some(T.Client(None, |old(buffers)|))]
      ensures buffers == old(buffers) + [Some(1)] && blocks == old(blocks) && queue == old(queue)
    {
      clients := clients[slot := Some(T.Client(None, |buffers|))];
      buffers := buffers + [Some(1)];
    }

    /** free_client: the waiting block goes first, then the client's own buffer reference. */
    method FreeClient(slot: nat)
      requires T.Inv(State()) && T.Alive(State(), slot) && !T.Crashed(State())
      modifies this
      ensures T.Enabled(old(State()), T.Disconnect(slot))
      ensures State() == T.Step(old(State()), T.Disconnect(slot))
      ensures clients == old(clients)[slot := None] && queue == old(queue) && executing == old(executing)
      ensures var w := old(clients)[slot].value.waiting;
        if w.None? then blocks == old(blocks) else w.value < |old(blocks)| && blocks == old(blocks)[w.value := None]
    {
      hide T.LogInv, T.BlocksInv, T.QueueOk, T.ReleaseAll, T.Count;
      ghost var s := State();
      assert T.Positive(buffers) by { PositiveBuffers(); }
      var client := clients[slot].value;
      if client.waiting.Some? {
        var w := client.waiting.value;
        assert w < |blocks| && owner[w] == T.ByClient(slot) && blocks[w].Some?;
        T.FreeBlockRefs(s, w);
        RemoveTransactionBlock(w);
        assert T.Positive(buffers);
      }
      clients := clients[slot := None];
      ReleaseBuffer(client.buffer);
    }

    /** MULTI, EXEC, and closing the connection before the block is taken: the server crashes. */
    method MultiExecClose(slot: nat, multi: nat, exec: nat)
      requires T.Inv(State()) && T.Idle(State(), slot) && capacity > 0 && clients[slot].value.waiting.None?
      modifies this
      ensures T.Crashed(State())
    {
      hide T.Inv, T.Step, T.Serves;
      ghost var s := State();
      var c := T.Command(T.Multi, multi);
      T.IdleFacts(s, slot, c);
      AddTransaction(slot, c);
      T.StepInv(s, T.Submit(slot, c));
      var ended := ServeBlock();
      T.MultiRound(s, slot, c, State());
      s := State();
      c := T.Command(T.Exec, exec);
      T.IdleFacts(s, slot, c);
      AddTransaction(slot, c);
      T.StepInv(s, T.Submit(slot, c));
      ended := ServeBlock();
      T.ExecRound(s, slot, c, State());
      s := State();
      FreeClient(slot);
      T.StepInv(s, T.Disconnect(slot));
      T.CloseStep(s, slot);
      ended := ServeBlock();
    }

    lemma PositiveBuffers()
      requires T.Inv(State())
      ensures T.Positive(buffers)
    {
    }
  }
}
