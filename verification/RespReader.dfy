/** The parser as the server runs it: over a read buffer that is filled from a socket on
    demand, and may be reallocated while a command is being parsed. */
module RespReader {
  import opened Bytes
  import opened Number
  import opened Resp
  import opened Deliveries

  datatype Status = Ok | Failed | Inline

  /** A parsed command: pointers into the array the buffer was when it was parsed. */
  datatype Located = Located(base: array<Byte>, command: Command)

  function Max(a: nat, b: nat): nat {
    if a >= b then a else b
  }

  class Client {
    /** read_buf->data; its length is read_buf->size. */
    var data: array<Byte>
    /** What the socket still delivers, piece by piece. */
    var pending: Pieces

    constructor (data: array<Byte>, pending: Pieces)
      ensures this.data == data && this.pending == pending
    {
      this.data, this.pending := data, pending;
    }

    /** All bytes of the connection: those in the buffer and those to come. */
    ghost function Stream(size: nat): seq<Byte>
      requires size <= data.Length
      reads this, data
    {
      data[..size] + Flat(pending)
    }

    /** What a call does to the buffer: it only grows, by moving elsewhere, and on success to
        what the position reached needs. */
    twostate predicate Grew(at: nat, size: nat, ok: bool, next: nat, filled: nat)
      reads this
    {
      && at <= next <= filled <= data.Length && size <= filled && data.Length >= old(data.Length)
      && (if data.Length == old(data.Length) then data == old(data) else fresh(data))
      && (ok ==> filled == Max(size, next) && data.Length == Max(old(data.Length), filled))
      && (ok && filled == size ==> pending == old(pending))
    }

    /** The cuts still to come are those that were known before. */
    ghost predicate Keeps(cuts: iset<nat>, next: nat, filled: nat)
      reads this
    {
      SameAhead(cuts, Cuts(filled, pending), next)
    }

    /** The buffered bytes and those to come are the stream; or else there are more than were
        ever sent, and it will never be right again. */
    ghost predicate Right(whole: bool, filled: nat, t: seq<Byte>)
      requires filled <= data.Length
      reads this, data
    {
      if whole then Stream(filled) == t else |Stream(filled)| > |t|
    }

    /** What a method that follows the parser promises, when every read finds something: it
        has the stream right afterwards if and only if all strings came whole, and then its
        verdict, value and position are those of the stream. */
    ghost predicate Follows<T>(o: Outcome<T>, whole: bool, cuts: iset<nat>, ok: bool, value: T, next: nat, filled: nat,
        t: seq<Byte>)
      requires filled <= data.Length
      reads this, data
    {
      && Steady(pending) && Right(whole, filled, t)
      && (whole ==> (ok <==> o.Parsed?) && (ok ==> value == o.value && next == o.at && Keeps(cuts, next, filled)))
    }

    /** Reads up to n bytes to data[to..]: no more than have arrived. */
    method ReadFromSocket(to: nat, n: nat) returns (count: nat)
      requires to + n <= data.Length
      modifies this`pending, data
      ensures count == Delivered(old(pending), n) && pending == After(old(pending), n)
      ensures data[..to] == old(data[..to]) && count <= n
      ensures data[to..to + count] == if old(pending) == [] then [] else old(pending)[0][..count]
    {
      count := Delivered(pending, n);
      ghost var before := data[..to];
      if pending != [] {
        var next := Append(data, to, pending[0][..count]);
        assert data[..next][..to] == before && data[..next][to..] == pending[0][..count];
      }
      pending := After(pending, n);
    }

    /** Fetches the `missing` bytes behind the `size` buffered. */
    method Fetch(size: nat, missing: nat) returns (count: nat)
      requires size + missing <= data.Length && missing > 0
      modifies this`pending, data
      ensures count == Delivered(old(pending), missing) && pending == After(old(pending), missing)
      ensures count == 0 ==> Stream(size) == old(Stream(size))
      ensures count == missing ==> Stream(size + missing) == old(Stream(size))
      ensures 0 < count < missing ==> |Stream(size + missing)| > |old(Stream(size))|
    {
      hide Flat, After;
      ghost var before, pieces := data[..size], pending;
      FlatAfter(pieces, missing);
      count := ReadFromSocket(size, missing);
      assert Flat(pieces)[..0] == [];
      assert data[..size + missing] == before + data[size..size + missing];
      assert |Flat(pieces)| == count + |Flat(pending)|;
      if count == missing {
        assert Stream(size + missing) == before + (Flat(pieces)[..count] + Flat(pending));
      }
    }

    /** Takes n bytes at position `at` of the `size` bytes buffered, fetching and making
        room for the missing ones. They are the stream's next bytes if and only if they are
        buffered or lie in the next piece delivered: a read that gets fewer bytes than asked,
        but not none, counts as a full one. */
    method TakeBytes(at: nat, n: nat, size: nat) returns (taken: bool, next: nat, filled: nat)
      requires at <= size <= data.Length
      modifies this, data
      ensures Grew(at, size, taken, next, filled) && (taken ==> next == at + n)
      ensures taken && Stream(filled) == old(Stream(size)) <==> Supplied(size, old(pending), at + n)
      ensures taken && !Supplied(size, old(pending), at + n) ==>
        (|Stream(filled)| > |old(Stream(size))| && old(pending) != [] && old(pending)[0] != []
         && pending == old(pending)[1..] && filled == next)
      ensures !taken ==> Stream(filled) == old(Stream(size)) && (old(pending) == [] || old(pending)[0] == [])
      ensures Steady(old(pending)) ==> Steady(pending)
      ensures Steady(old(pending)) && Supplied(size, old(pending), at + n) ==> Keeps(Cuts(size, old(pending)), next, filled)
    {
      hide Cuts, Steady, Flat, Stream;
      var remaining := size - at;
      if n <= remaining { return true, at + n, size; }
      var missing := n - remaining;
      var required := size + missing;
      ghost var pieces, t := pending, Stream(size);
      if required > data.Length {
        MakeRoom(required, size);
      }
      FlatAfter(pieces, missing);
      var count := Fetch(size, missing);
      if count == 0 { return false, at, size; }
      filled := required;
      next := at + n;
      taken := true;
      if count == missing && Steady(pieces) { CutsAfter(size, pieces, missing); }
    }

    /** One byte, and what it is. A single byte cannot come in two pieces. */
    method TakeByte(at: nat, size: nat) returns (taken: bool, c: Byte, next: nat, filled: nat)
      requires at <= size <= data.Length
      modifies this, data
      ensures Grew(at, size, taken, next, filled) && Stream(filled) == old(Stream(size))
      ensures taken ==> at < |old(Stream(size))| && next == at + 1 && c == old(Stream(size))[at]
      ensures Steady(old(pending)) ==> Steady(pending) && (taken <==> at < |old(Stream(size))|)
      ensures Steady(old(pending)) && taken ==> Keeps(Cuts(size, old(pending)), next, filled)
    {
      hide Cuts, Keeps;
      taken, next, filled := TakeBytes(at, 1, size);
      c := 0;
      if taken {
        assert Stream(filled)[at] == data[at];
        c := data[at];
      }
    }

    /** realloc: a larger buffer, elsewhere, with the same contents; the old one is gone. */
    method MakeRoom(required: nat, size: nat)
      requires size <= data.Length < required
      modifies this`data
      ensures fresh(data) && data.Length == required && Stream(size) == old(Stream(size))
    {
      var grown := new Byte[required];
      var copied := Append(grown, 0, data[..]);
      assert grown[..copied][..size] == data[..size];
      data := grown;
    }

    /** Digits and CRLF: the loop that reads the count, the name's length and each
        argument's length. Its single bytes cannot be split. */
    method TakeNumber(at: nat, size: nat) returns (ok: bool, n: nat, next: nat, filled: nat)
      requires at <= size <= data.Length
      modifies this, data
      ensures Grew(at, size, ok, next, filled) && Stream(filled) == old(Stream(size))
      ensures ok ==> ParseNumber(old(Stream(size)), at) == Parsed(n, next)
      ensures Steady(old(pending)) ==> Steady(pending) && (ok <==> ParseNumber(old(Stream(size)), at).Parsed?)
      ensures Steady(old(pending)) && ok ==> Keeps(Cuts(size, old(pending)), next, filled)
    {
      hide Stream, Cuts;
      ghost var t, cuts := Stream(size), Cuts(size, pending);
      var taken, c;
      n := 0;
      taken, c, next, filled := TakeByte(at, size);
      if !taken || !IsDigit(c) { return false, 0, next, filled; }
      while true
        invariant Grew(at, size, true, next, filled)
        invariant Stream(filled) == t && at < next <= |t| && t[next - 1] == c && IsDigit(c)
        invariant ParseNumber(t, at) == ScanNumber(t, next - 1, n)
        invariant Steady(old(pending)) ==> Steady(pending) && Keeps(cuts, next, filled)
        decreases |t| - next
      {
        n := (n * 10 + (c - 48)) % WIDTH;
        taken, c, next, filled := TakeByte(next, filled);
        if !taken { return false, n, next, filled; }
        if !IsDigit(c) { break; }
      }
      if c != CR { return false, n, next, filled; }
      taken, c, next, filled := TakeByte(next, filled);
      ok := taken && c == LF;
    }

    /** Several bytes at once: they and the rest of the stream are right if and only if no
        delivery ends inside them. */
    method TakeString(at: nat, n: nat, size: nat) returns (taken: bool, next: nat, filled: nat)
      requires at <= size <= data.Length
      modifies this, data
      ensures Grew(at, size, taken, next, filled) && (taken ==> next == at + n)
      ensures Supplied(size, old(pending), at + n) ==> taken && Stream(filled) == old(Stream(size))
      ensures Steady(old(pending)) ==> Steady(pending) && Right(Unbroken(Cuts(size, old(pending)), at, at + n), filled, old(Stream(size)))
      ensures Steady(old(pending)) && Unbroken(Cuts(size, old(pending)), at, at + n) ==>
        (taken <==> at + n <= |old(Stream(size))|) && (taken ==> Keeps(Cuts(size, old(pending)), next, filled))
      ensures old(pending) != [] && 0 < |old(pending)[0]| < at + n - size ==>
        taken && filled == next && pending == old(pending)[1..]
    {
      hide Cuts, Unbroken, Keeps;
      if Steady(pending) { SuppliedIff(size, pending, at, at + n); }
      taken, next, filled := TakeBytes(at, n, size);
    }

    /** The CRLF behind a string, both bytes at once. */
    method CheckCrlf(at: nat, size: nat) returns (ok: bool, next: nat, filled: nat)
      requires at <= size <= data.Length
      modifies this, data
      ensures Grew(at, size, ok, next, filled)
      ensures Steady(old(pending)) ==>
        Follows(ParseCrlf(old(Stream(size)), at), Unbroken(Cuts(size, old(pending)), at, at + 2), Cuts(size, old(pending)),
          ok, (), next, filled, old(Stream(size)))
      ensures ok && at == size && |old(pending)| > 0 && |old(pending)[0]| >= 2 ==> old(pending)[0][..2] == CRLF
    {
      hide Cuts, Unbroken, Keeps;
      ghost var t, pieces := Stream(size), pending;
      var taken;
      taken, next, filled := TakeString(at, 2, size);
      if !taken { return false, next, filled; }
      assert Stream(filled)[at] == data[at] && Stream(filled)[at + 1] == data[at + 1];
      ok := data[at] == CR && data[at + 1] == LF;
      if at == size && |pieces| > 0 && |pieces[0]| >= 2 {
        assert Stream(filled)[at..at + 2] == pieces[0][..2];
      }
    }

    static predicate HasBulk(t: seq<Byte>, at: nat) {
      at < |t| && t[at] == BULK
    }

    /** The length in front of a string. */
    method TakeLength(at: nat, size: nat) returns (ok: bool, length: nat, next: nat, filled: nat)
      requires at <= size <= data.Length
      modifies this, data
      ensures Grew(at, size, ok, next, filled) && Stream(filled) == old(Stream(size))
      ensures ok ==> HasBulk(old(Stream(size)), at) && ParseNumber(old(Stream(size)), at + 1) == Parsed(length, next)
      ensures Steady(old(pending)) ==> Steady(pending)
      ensures Steady(old(pending)) ==>
        (ok <==> HasBulk(old(Stream(size)), at) && ParseNumber(old(Stream(size)), at + 1).Parsed?)
      ensures Steady(old(pending)) && ok ==> Keeps(Cuts(size, old(pending)), next, filled)
    {
      hide Stream, ParseNumber, Cuts, Steady;
      var taken, c;
      length := 0;
      taken, c, next, filled := TakeByte(at, size);
      if !taken || c != BULK { return false, 0, next, filled; }
      ok, length, next, filled := TakeNumber(next, filled);
    }

    /** The string at `at` is split between the next two deliveries, and the second one does
        not go on with a line end. */
    static ghost predicate Splits(t: seq<Byte>, at: nat, size: nat, pieces: Pieces) {
      && HasBulk(t, at) && ParseNumber(t, at + 1).Parsed? && |pieces| >= 2
      && var Parsed(length, start) := ParseNumber(t, at + 1);
         && start <= size && 0 < |pieces[0]| < start + length - size
         && |pieces[1]| >= 2 && pieces[1][..2] != CRLF
    }

    /** The name, or one argument: the slice of the buffer that holds it. If the string is
        split, the start of the second delivery is taken for the line end behind it. */
    method TakeBulk(at: nat, size: nat) returns (ok: bool, s: Slice, next: nat, filled: nat)
      requires at <= size <= data.Length
      modifies this, data
      ensures Splits(old(Stream(size)), at, size, old(pending)) ==> !ok
      ensures Grew(at, size, ok, next, filled) && (ok ==> s.offset + s.length <= next)
      ensures Steady(old(pending)) ==>
        Follows(ParseBulk(old(Stream(size)), at), WholeBulk(old(Stream(size)), at, Cuts(size, old(pending))),
          Cuts(size, old(pending)), ok, s, next, filled, old(Stream(size)))
    {
      hide Stream, ParseNumber, Cuts, Unbroken, Steady;
      ghost var t, cuts, steady := Stream(size), Cuts(size, pending), Steady(pending);
      var length;
      s := Slice(0, 0);
      ok, length, next, filled := TakeLength(at, size);
      if !ok { return; }
      s := Slice(next, length);
      ghost var start := next;
      if steady { UnbrokenAhead(cuts, Cuts(filled, pending), start, start, start + length); }
      ok, next, filled := TakeString(next, length, filled);
      if !ok { return; }
      if steady && Unbroken(cuts, start, start + length) {
        UnbrokenAhead(cuts, Cuts(filled, pending), next, next, next + 2);
      }
      ok, next, filled := CheckCrlf(next, filled);
    }

    /** The arguments, one slice each. */
    method TakeBulks(at: nat, n: nat, size: nat) returns (ok: bool, args: seq<Slice>, next: nat, filled: nat)
      requires at <= size <= data.Length
      modifies this, data
      ensures Grew(at, size, ok, next, filled)
      ensures forall i :: 0 <= i < |args| ==> args[i].offset + args[i].length <= next
      ensures Steady(old(pending)) ==>
        Follows(ParseBulks(old(Stream(size)), at, n), WholeBulks(old(Stream(size)), at, n, Cuts(size, old(pending))),
          Cuts(size, old(pending)), ok, args, next, filled, old(Stream(size)))
    {
      hide Stream, ParseBulk, Cuts, WholeBulk, Steady;
      ghost var t, cuts, all := Stream(size), Cuts(size, pending), ParseBulks(Stream(size), at, n);
      ghost var steady, whole, sound := Steady(pending), WholeBulks(Stream(size), at, n, cuts), true;
      ok, args, next, filled := true, [], at, size;
      assert all.Parsed? ==> [] + all.value == all.value;
      for i := 0 to n
        invariant Grew(at, size, true, next, filled)
        invariant forall j :: 0 <= j < |args| ==> args[j].offset + args[j].length <= next
        invariant steady ==> Steady(pending) && (sound || (!whole && |Stream(filled)| > |t|))
        invariant steady && sound ==> Stream(filled) == t && Keeps(cuts, next, filled)
        invariant steady && sound ==> (whole <==> WholeBulks(t, next, n - i, cuts))
        invariant steady && sound ==> all == Prepend(args, ParseBulks(t, next, n - i))
      {
        var s;
        ghost var from := next;
        if steady && sound { BulkAhead(t, next, cuts, Cuts(filled, pending)); }
        ok, s, next, filled := TakeBulk(next, filled);
        PrependStep(t, from, n - i, args);
        if !ok { args := []; return; }
        sound := sound && WholeBulk(t, from, cuts);
        args := args + [s];
      }
      assert args + [] == args;
      ok := true;
    }

    static function Prepend(args: seq<Slice>, o: Outcome<seq<Slice>>): Outcome<seq<Slice>> {
      match o
      case Parsed(rest, at) => Parsed(args + rest, at)
      case _ => o
    }

    static lemma PrependStep(t: seq<Byte>, at: nat, n: nat, args: seq<Slice>)
      requires n > 0
      ensures match ParseBulk(t, at)
        case Parsed(s, next) => Prepend(args, ParseBulks(t, at, n)) == Prepend(args + [s], ParseBulks(t, next, n - 1))
        case o => !Prepend(args, ParseBulks(t, at, n)).Parsed?
    {
      hide ParseBulk;
      match ParseBulk(t, at)
      case Parsed(s, next) =>
        var o := ParseBulks(t, next, n - 1);
        if o.Parsed? { assert args + ([s] + o.value) == args + [s] + o.value; }
      case _ =>
    }

    /** The command after its '*', as slices of the buffer. */
    method TakeCommand(at: nat, size: nat) returns (ok: bool, c: Command, next: nat, filled: nat)
      requires at <= size <= data.Length
      modifies this, data
      ensures Grew(at, size, ok, next, filled) && (ok ==> EndsBy(c, next))
      ensures Steady(old(pending)) ==>
        Follows(ParseCommand(old(Stream(size)), at), WholeCommand(old(Stream(size)), at, Cuts(size, old(pending))),
          Cuts(size, old(pending)), ok, c, next, filled, old(Stream(size)))
    {
      hide Stream, ParseNumber, ParseBulk, ParseBulks, Cuts, WholeBulk, WholeBulks, Steady;
      ghost var t, cuts, steady := Stream(size), Cuts(size, pending), Steady(pending);
      var count, name, args;
      c := Command(Slice(0, 0), []);
      ok, count, next, filled := TakeNumber(at, size);
      if !ok { return; }
      if count == 0 { return false, c, next, filled; }
      if steady { BulkAhead(t, next, cuts, Cuts(filled, pending)); }
      ghost var start := next;
      ok, name, next, filled := TakeBulk(next, filled);
      if !ok { return; }
      if steady && WholeBulk(t, start, cuts) { BulksAhead(t, next, count - 1, cuts, Cuts(filled, pending)); }
      ok, args, next, filled := TakeBulks(next, count - 1, filled);
      c := Command(name, args);
    }

    static predicate EndsBy(c: Command, end: nat) {
      && c.name.offset + c.name.length <= end
      && forall i :: 0 <= i < |c.args| ==> c.args[i].offset + c.args[i].length <= end
    }

    /** Parses one command. Its words become pointers into the buffer as it is at the end,
        wherever it has moved in the meantime. */
    method ParseRespCommand(at: nat, size: nat) returns (ok: bool, c: Located, next: nat, filled: nat)
      requires at <= size <= data.Length
      modifies this, data
      ensures Grew(at, size, ok, next, filled) && (ok ==> c.base == data && EndsBy(c.command, next))
      ensures Steady(old(pending)) ==>
        Follows(ParseCommand(old(Stream(size)), at), WholeCommand(old(Stream(size)), at, Cuts(size, old(pending))),
          Cuts(size, old(pending)), ok, c.command, next, filled, old(Stream(size)))
    {
      hide ParseCommand, Cuts, WholeCommand, Stream;
      var command;
      ok, command, next, filled := TakeCommand(at, size);
      c := Located(data, command);
    }

    /** What a finished call promises about the request at `at` of stream t. */
    ghost predicate Answers(o: Outcome<Request>, whole: bool, cuts: iset<nat>, status: Status, c: Located, next: nat,
        filled: nat, t: seq<Byte>)
      requires filled <= data.Length
      reads this, data
    {
      && Steady(pending) && Right(whole, filled, t)
      && (whole ==> match o
          case Parsed(ArrayRequest(command), end) =>
            status == Ok && next == end && c.command == command && Keeps(cuts, next, filled)
          case Parsed(InlineRequest(_), end) => status == Inline && next == end && Keeps(cuts, next, filled)
          case _ => status == Failed)
    }

    /** Dispatch on the byte just taken. */
    method ParseType(kind: Byte, at: nat, size: nat) returns (status: Status, c: Located, next: nat, filled: nat)
      requires 0 < at <= size <= data.Length && Stream(size)[at - 1] == kind
      modifies this, data
      ensures Grew(at, size, status != Failed, next, filled)
      ensures status == Ok ==> c.base == data && EndsBy(c.command, next)
      ensures Steady(old(pending)) ==>
        Answers(ParseAfter(old(Stream(size)), at), WholeAfter(old(Stream(size)), at, Cuts(size, old(pending))),
          Cuts(size, old(pending)), status, c, next, filled, old(Stream(size)))
    {
      hide ParseCommand, WholeCommand, Stream, Cuts, Steady;
      c := Located(data, Command(Slice(0, 0), []));
      if kind == ARRAY {
        var ok;
        ok, c, next, filled := ParseRespCommand(at, size);
        status := if ok then Ok else Failed;
      } else {
        status, next, filled := if IsAlnum(kind) then Inline else Failed, at, size;
      }
    }

    /** Takes bytes up to the first one that is not part of a leading line end. */
    method SkipLines(at: nat, size: nat) returns (taken: bool, first: Byte, next: nat, filled: nat)
      requires at <= size <= data.Length
      modifies this, data
      ensures Grew(at, size, taken, next, filled) && Stream(filled) == old(Stream(size))
      ensures taken ==> at < next <= |old(Stream(size))| && first == old(Stream(size))[next - 1] && first != CR
      ensures taken ==> ParseRequest(old(Stream(size)), at) == ParseAfter(old(Stream(size)), next)
      ensures taken ==> forall cuts ::
        WholeRequest(old(Stream(size)), at, cuts) <==> WholeAfter(old(Stream(size)), next, cuts)
      ensures Steady(old(pending)) ==> Steady(pending)
      ensures Steady(old(pending)) && taken ==> Keeps(Cuts(size, old(pending)), next, filled)
      ensures Steady(old(pending)) && !taken ==> !ParseRequest(old(Stream(size)), at).Parsed?
      ensures Steady(old(pending)) && !taken ==> forall cuts :: WholeRequest(old(Stream(size)), at, cuts)
    {
      hide ParseAfter, WholeAfter, Stream, Cuts, Steady;
      ghost var t, cuts := Stream(size), Cuts(size, pending);
      var lf;
      taken, first, next, filled := TakeByte(at, size);
      if !taken { return; }
      while first == CR
        invariant Grew(at, size, true, next, filled)
        invariant Stream(filled) == t && at < next <= |t| && t[next - 1] == first
        invariant Steady(old(pending)) ==> Steady(pending) && Keeps(cuts, next, filled)
        invariant ParseRequest(t, at) == ParseRequest(t, next - 1)
        invariant forall c :: WholeRequest(t, at, c) <==> WholeRequest(t, next - 1, c)
        decreases |t| - next
      {
        taken, lf, next, filled := TakeByte(next, filled);
        if !taken || lf != LF { return false, first, next, filled; }
        taken, first, next, filled := TakeByte(next, filled);
        if !taken { return; }
      }
    }

    /** One request: leading line ends are skipped, then its first byte decides. */
    method GetCommandData(at: nat, size: nat) returns (status: Status, c: Located, next: nat, filled: nat)
      requires at <= size <= data.Length
      modifies this, data
      ensures Grew(at, size, status != Failed, next, filled)
      ensures status == Ok ==> c.base == data && EndsBy(c.command, next)
      ensures Steady(old(pending)) ==>
        Answers(ParseRequest(old(Stream(size)), at), WholeRequest(old(Stream(size)), at, Cuts(size, old(pending))),
          Cuts(size, old(pending)), status, c, next, filled, old(Stream(size)))
    {
      hide ParseRequest, WholeRequest, ParseAfter, WholeAfter, Stream, Cuts, Steady;
      ghost var t, cuts, steady := Stream(size), Cuts(size, pending), Steady(pending);
      var taken, first;
      status, c := Failed, Located(data, Command(Slice(0, 0), []));
      taken, first, next, filled := SkipLines(at, size);
      if !taken { return; }
      if steady { AfterAhead(t, next, cuts, Cuts(filled, pending)); }
      status, c, next, filled := ParseType(first, next, filled);
    }

    static lemma AfterAhead(t: seq<Byte>, at: nat, c: iset<nat>, d: iset<nat>)
      requires 0 < at <= |t| && SameAhead(c, d, at)
      ensures WholeAfter(t, at, c) <==> WholeAfter(t, at, d)
    {
      hide WholeCommand;
      CommandAhead(t, at, c, d);
    }

    /** The words a command's slices stand for in the present buffer. */
    ghost predicate Reads(c: Command, words: seq<seq<Byte>>)
      reads this, data
    {
      InBounds(data[..], c) && Words(data[..], c) == words
    }

    /** The slices of commands parsed before are still right in the present buffer. The
        pointers made from them are valid only if the buffer has not moved since, that is,
        exactly if everything parsed since fitted into it: another command that needs more
        room frees the array under the words of commands that are already queued. */
    ghost predicate Pointing(commands: seq<Located>, next: nat)
      reads this, data
    {
      forall i :: 0 <= i < |commands| ==>
        && EndsBy(commands[i].command, next)
        && (commands[i].base == data <==> next <= commands[i].base.Length)
    }

    /** n requests one after the other, as the command loop takes them. If every string comes
        whole, they are the n commands of the stream, in order. */
    method GetPipeline(at: nat, n: nat, size: nat) returns (ok: bool, commands: seq<Located>, next: nat, filled: nat)
      requires at <= size <= data.Length
      modifies this, data
      ensures Grew(at, size, ok, next, filled) && (ok ==> |commands| == n && Pointing(commands, next))
      ensures var t, cuts := old(Stream(size)), Cuts(size, old(pending));
        Steady(old(pending)) ==> Steady(pending) && Right(WholePipeline(t, at, n, cuts), filled, t)
      ensures var t, cuts := old(Stream(size)), Cuts(size, old(pending));
        Steady(old(pending)) && WholePipeline(t, at, n, cuts) ==> (ok <==> ParsePipeline(t, at, n).Some?)
      ensures var t, cuts := old(Stream(size)), Cuts(size, old(pending));
        Steady(old(pending)) && WholePipeline(t, at, n, cuts) && ok ==>
          var (words, end) := ParsePipeline(t, at, n).value;
          next == end && |words| == n && forall i :: 0 <= i < n ==> Reads(commands[i].command, words[i])
      decreases n
    {
      hide ParseRequest, WholeRequest, Words, InBounds, Stream, Cuts, Steady;
      if n == 0 { return true, [], at, size; }
      ghost var t, cuts, steady := Stream(size), Cuts(size, pending), Steady(pending);
      var status, c, rest;
      status, c, next, filled := GetCommandData(at, size);
      if status != Ok { return false, [], next, filled; }
      ghost var middle, sound := next, steady && WholeRequest(t, at, cuts);
      if sound { PipelineAhead(t, next, n - 1, cuts, Cuts(filled, pending)); }
      ok, rest, next, filled := GetPipeline(next, n - 1, filled);
      commands := [c] + rest;
      if sound && WholePipeline(t, at, n, cuts) {
        RequestBounds(t, at);
        assert Stream(filled) == t;
        StillReads(c.command, middle, filled, t);
      }
    }

    lemma StillReads(c: Command, end: nat, filled: nat, t: seq<Byte>)
      requires end <= filled <= data.Length && Stream(filled) == t && EndsBy(c, end)
      ensures InBounds(t, c) && Reads(c, Words(t, c))
    {
      hide Flat, Words;
      assert t[..end] == data[..][..end];
      SameWords(t, data[..], c, end);
    }

    static lemma {:induction false} RequestBounds(t: seq<Byte>, at: nat)
      ensures var r := ParseRequest(t, at);
        r.Parsed? && r.value.ArrayRequest? ==> InBounds(t, r.value.command)
      decreases |t| - at
    {
      hide ParseCommand;
      if at < |t| {
        if t[at] != CR { CommandBounds(t, at + 1); }
        else if at + 1 < |t| && t[at + 1] == LF { RequestBounds(t, at + 2); }
      }
    }

    /** Two connections that carry the same bytes, however they are split between buffer and
        deliveries, give the same verdict, words and position if no string is split. */
    static method SameForAnySplit(a: Client, b: Client, at: nat, sizeA: nat, sizeB: nat)
        returns (statusA: Status, cA: Located, nextA: nat, statusB: Status, cB: Located, nextB: nat)
      requires a != b && a.data != b.data
      requires at <= sizeA <= a.data.Length && at <= sizeB <= b.data.Length
      requires a.Stream(sizeA) == b.Stream(sizeB) && Steady(a.pending) && Steady(b.pending)
      requires WholeRequest(a.Stream(sizeA), at, Cuts(sizeA, a.pending))
      requires WholeRequest(b.Stream(sizeB), at, Cuts(sizeB, b.pending))
      modifies a, b, a.data, b.data
      ensures statusA == statusB && (statusA != Failed ==> nextA == nextB)
      ensures statusA == Ok ==> InBounds(cA.base[..], cA.command) && InBounds(cB.base[..], cB.command)
      ensures statusA == Ok ==> Words(cA.base[..], cA.command) == Words(cB.base[..], cB.command)
    {
      hide ParseRequest, WholeRequest, Words, InBounds, Client.Stream, Cuts, Steady;
      ghost var t := a.Stream(sizeA);
      var fA, fB;
      statusA, cA, nextA, fA := a.GetCommandData(at, sizeA);
      statusB, cB, nextB, fB := b.GetCommandData(at, sizeB);
      if statusA == Ok {
        a.StillReads(cA.command, nextA, fA, t);
        b.StillReads(cB.command, nextB, fB, t);
      }
    }
  }

  const PING: seq<Byte> := [36, 52, 13, 10, 80, 73, 78, 71, 13, 10]

  lemma PingNumber()
    ensures ParseNumber(PING, 1) == Parsed(4, 4)
  {
    assert ScanNumber(PING, 2, 4) == Parsed(4, 4);
  }

  /** `$4`, a line end, and `PING` with a line end behind it, split after `PI`: the stream
      holds the string, the parser refuses it. */
  method SplitPing() returns (ok: bool)
    ensures ParseBulk(PING, 0) == Parsed(Slice(4, 4), 10) && !ok
  {
    hide ParseNumber, Cuts, WholeBulk;
    PingNumber();
    var data := new Byte[] [36, 52, 13, 10];
    var client := new Client(data, [[80, 73], [78, 71, 13, 10]]);
    assert client.Stream(4) == PING by { PingStream(client); }
    assert client.pending[1][..2] == [78, 71];
    var s, next, filled;
    ok, s, next, filled := client.TakeBulk(0, 4);
  }

  lemma PingStream(client: Client)
    requires client.data.Length == 4 && client.data[..] == [36, 52, 13, 10]
    requires client.pending == [[80, 73], [78, 71, 13, 10]]
    ensures client.Stream(4) == PING
  {
    var p := client.pending;
    assert p[1..] == [p[1]];
    assert Flat([p[1]]) == p[1];
    assert client.data[..4] == client.data[..];
  }
}
