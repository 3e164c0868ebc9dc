/** What a socket delivers: the bytes of a connection come in pieces, one or part of one per
    read. A request is read as the stream has it if and only if no piece ends inside one of
    the strings the parser asks for in one go. */
module Deliveries {
  import opened Bytes
  import opened Resp

  type Pieces = seq<seq<Byte>>

  function Flat(pieces: Pieces): seq<Byte> {
    if pieces == [] then [] else pieces[0] + Flat(pieces[1..])
  }

  /** How many bytes a read of n bytes gets: no more than the next piece holds. */
  function Delivered(pieces: Pieces, n: nat): nat {
    if pieces == [] then 0 else if n <= |pieces[0]| then n else |pieces[0]|
  }

  /** What is left after a read of n bytes. */
  function After(pieces: Pieces, n: nat): Pieces {
    if pieces == [] then []
    else if n < |pieces[0]| then [pieces[0][n..]] + pieces[1..]
    else pieces[1..]
  }

  /** Every read finds something until the connection has nothing more to say. */
  ghost predicate Steady(pieces: Pieces) {
    forall i :: 0 <= i < |pieces| ==> pieces[i] != []
  }

  /** The positions of the stream where a piece ends, when `size` bytes have been read. */
  ghost function Cuts(size: nat, pieces: Pieces): iset<nat>
    decreases |pieces|
  {
    if pieces == [] then iset{}
    else iset{size + |pieces[0]|} + Cuts(size + |pieces[0]|, pieces[1..])
  }

  /** No piece ends inside the bytes from `at` to `end`. */
  ghost predicate Unbroken(cuts: iset<nat>, at: nat, end: nat) {
    forall p :: p in cuts ==> !(at < p < end)
  }

  lemma FlatAfter(pieces: Pieces, n: nat)
    ensures var k := Delivered(pieces, n);
      && k <= |Flat(pieces)| && k <= n
      && Flat(pieces) == Flat(pieces)[..k] + Flat(After(pieces, n))
      && (pieces != [] ==> Flat(pieces)[..k] == pieces[0][..k])
      && (Steady(pieces) ==> Steady(After(pieces, n)))
  {
    if pieces != [] && n < |pieces[0]| {
      FlatWithin(pieces, n);
    } else if pieces != [] {
      var p := pieces[0];
      assert (p + Flat(pieces[1..]))[..|p|] == p == p[..|p|];
    }
  }

  lemma FlatWithin(pieces: Pieces, n: nat)
    requires pieces != [] && n < |pieces[0]|
    ensures Flat(pieces)[..n] == pieces[0][..n] && Flat(pieces) == pieces[0][..n] + Flat(After(pieces, n))
    ensures Steady(pieces) ==> Steady(After(pieces, n))
  {
    var p, rest := pieces[0], After(pieces, n);
    assert rest[0] == p[n..] && rest[1..] == pieces[1..];
    assert p == p[..n] + p[n..];
    assert p[..n] + p[n..] + Flat(pieces[1..]) == p[..n] + (p[n..] + Flat(pieces[1..]));
  }

  lemma {:induction false} CutsBounds(size: nat, pieces: Pieces)
    requires Steady(pieces)
    ensures forall p :: p in Cuts(size, pieces) ==> size < p <= size + |Flat(pieces)|
    ensures pieces != [] ==> forall p :: p in Cuts(size, pieces) ==> p >= size + |pieces[0]|
    ensures pieces != [] ==> size + |pieces[0]| in Cuts(size, pieces) && size + |Flat(pieces)| in Cuts(size, pieces)
    decreases |pieces|
  {
    if pieces != [] {
      var n := size + |pieces[0]|;
      CutsBounds(n, pieces[1..]);
      if pieces[1..] == [] { assert Flat(pieces[1..]) == []; }
    }
  }

  /** Reading on only forgets the cuts it has passed. */
  lemma CutsAfter(size: nat, pieces: Pieces, n: nat)
    requires Steady(pieces) && n > 0
    ensures var k := Delivered(pieces, n);
      forall p :: p in Cuts(size + k, After(pieces, n)) <==> p in Cuts(size, pieces) && p > size + k
  {
    if pieces != [] {
      CutsBounds(size, pieces);
      CutsBounds(size + |pieces[0]|, pieces[1..]);
      if n < |pieces[0]| {
        var rest := After(pieces, n);
        assert rest[0] == pieces[0][n..] && rest[1..] == pieces[1..];
      }
    }
  }

  /** The bytes up to `end` are buffered or lie in the next piece. */
  predicate Supplied(size: nat, pieces: Pieces, end: nat) {
    end <= size || (pieces != [] && end <= size + |pieces[0]|)
  }

  lemma SuppliedIff(size: nat, pieces: Pieces, at: nat, end: nat)
    requires Steady(pieces) && at <= size && at <= end
    ensures Supplied(size, pieces, end) <==> Unbroken(Cuts(size, pieces), at, end) && end <= size + |Flat(pieces)|
    ensures !Supplied(size, pieces, end) && pieces != [] ==> !Unbroken(Cuts(size, pieces), at, end)
    ensures pieces == [] ==> Unbroken(Cuts(size, pieces), at, end)
  {
    CutsBounds(size, pieces);
  }

  // -------------------------------------------------------- what must come whole

  /** The bytes of the string, and the line end behind it. */
  ghost predicate WholeBulk(t: seq<Byte>, at: nat, cuts: iset<nat>) {
    at < |t| && t[at] == BULK && ParseNumber(t, at + 1).Parsed? ==>
      var Parsed(length, start) := ParseNumber(t, at + 1);
      && Unbroken(cuts, start, start + length)
      && (start + length <= |t| ==> Unbroken(cuts, start + length, start + length + 2))
  }

  ghost predicate WholeBulks(t: seq<Byte>, at: nat, n: nat, cuts: iset<nat>)
    decreases n
  {
    n > 0 ==>
      && WholeBulk(t, at, cuts)
      && (ParseBulk(t, at).Parsed? ==> WholeBulks(t, ParseBulk(t, at).at, n - 1, cuts))
  }

  ghost predicate WholeCommand(t: seq<Byte>, at: nat, cuts: iset<nat>) {
    ParseNumber(t, at).Parsed? && ParseNumber(t, at).value > 0 ==>
      var Parsed(count, start) := ParseNumber(t, at);
      && WholeBulk(t, start, cuts)
      && (ParseBulk(t, start).Parsed? ==> WholeBulks(t, ParseBulk(t, start).at, count - 1, cuts))
  }

  ghost predicate WholeAfter(t: seq<Byte>, at: nat, cuts: iset<nat>)
    requires 0 < at <= |t|
  {
    t[at - 1] == ARRAY ==> WholeCommand(t, at, cuts)
  }

  ghost predicate WholeRequest(t: seq<Byte>, at: nat, cuts: iset<nat>)
    decreases |t| - at
  {
    if at >= |t| then true
    else if t[at] != CR then WholeAfter(t, at + 1, cuts)
    else if at + 1 >= |t| || t[at + 1] != LF then true
    else WholeRequest(t, at + 2, cuts)
  }

  ghost predicate WholePipeline(t: seq<Byte>, at: nat, n: nat, cuts: iset<nat>)
    decreases n
  {
    n > 0 ==>
      && WholeRequest(t, at, cuts)
      && (ParseRequest(t, at).Parsed? && ParseRequest(t, at).value.ArrayRequest? ==>
            WholePipeline(t, ParseRequest(t, at).at, n - 1, cuts))
  }

  // ------------------------------------------------ only cuts still ahead matter

  ghost predicate SameAhead(c: iset<nat>, d: iset<nat>, at: nat) {
    forall p :: p > at ==> (p in c <==> p in d)
  }

  lemma UnbrokenAhead(c: iset<nat>, d: iset<nat>, at: nat, from: nat, end: nat)
    requires SameAhead(c, d, at) && at <= from
    ensures Unbroken(c, from, end) <==> Unbroken(d, from, end)
  {
  }

  lemma BulkAhead(t: seq<Byte>, at: nat, c: iset<nat>, d: iset<nat>)
    requires SameAhead(c, d, at)
    ensures WholeBulk(t, at, c) <==> WholeBulk(t, at, d)
  {
    hide Unbroken, SameAhead, ParseNumber;
    if at < |t| && ParseNumber(t, at + 1).Parsed? {
      var Parsed(length, start) := ParseNumber(t, at + 1);
      NumberForward(t, at + 1);
      UnbrokenAhead(c, d, at, start, start + length);
      UnbrokenAhead(c, d, at, start + length, start + length + 2);
    }
  }

  lemma NumberForward(t: seq<Byte>, at: nat)
    ensures ParseNumber(t, at).Parsed? ==> at < ParseNumber(t, at).at <= |t|
  {
    NumberBounds(t, at, 0);
  }

  lemma {:induction false} BulksAhead(t: seq<Byte>, at: nat, n: nat, c: iset<nat>, d: iset<nat>)
    requires SameAhead(c, d, at)
    ensures WholeBulks(t, at, n, c) <==> WholeBulks(t, at, n, d)
    decreases n
  {
    hide WholeBulk, ParseBulk;
    if n > 0 {
      BulkAhead(t, at, c, d);
      BulkForward(t, at);
      if ParseBulk(t, at).Parsed? { BulksAhead(t, ParseBulk(t, at).at, n - 1, c, d); }
    }
  }

  lemma CommandAhead(t: seq<Byte>, at: nat, c: iset<nat>, d: iset<nat>)
    requires SameAhead(c, d, at)
    ensures WholeCommand(t, at, c) <==> WholeCommand(t, at, d)
  {
    hide WholeBulk, WholeBulks, ParseBulk, ParseNumber;
    NumberForward(t, at);
    if ParseNumber(t, at).Parsed? && ParseNumber(t, at).value > 0 {
      var Parsed(count, start) := ParseNumber(t, at);
      BulkAhead(t, start, c, d);
      BulkForward(t, start);
      if ParseBulk(t, start).Parsed? { BulksAhead(t, ParseBulk(t, start).at, count - 1, c, d); }
    }
  }

  lemma {:induction false} RequestAhead(t: seq<Byte>, at: nat, c: iset<nat>, d: iset<nat>)
    requires SameAhead(c, d, at)
    ensures WholeRequest(t, at, c) <==> WholeRequest(t, at, d)
    decreases |t| - at
  {
    hide WholeCommand;
    if at < |t| {
      if t[at] != CR { CommandAhead(t, at + 1, c, d); }
      else if at + 1 < |t| && t[at + 1] == LF { RequestAhead(t, at + 2, c, d); }
    }
  }

  lemma {:induction false} PipelineAhead(t: seq<Byte>, at: nat, n: nat, c: iset<nat>, d: iset<nat>)
    requires SameAhead(c, d, at)
    ensures WholePipeline(t, at, n, c) <==> WholePipeline(t, at, n, d)
    decreases n
  {
    hide WholeRequest, ParseRequest;
    if n > 0 {
      RequestAhead(t, at, c, d);
      RequestForward(t, at);
      if ParseRequest(t, at).Parsed? { PipelineAhead(t, ParseRequest(t, at).at, n - 1, c, d); }
    }
  }

  lemma {:induction false} RequestForward(t: seq<Byte>, at: nat)
    ensures ParseRequest(t, at).Parsed? ==> at <= ParseRequest(t, at).at <= |t|
    decreases |t| - at
  {
    hide ParseCommand;
    if at < |t| {
      if t[at] != CR { CommandForward(t, at + 1); }
      else if at + 1 < |t| && t[at + 1] == LF { RequestForward(t, at + 2); }
    }
  }

  lemma CommandForward(t: seq<Byte>, at: nat)
    requires at <= |t|
    ensures ParseCommand(t, at).Parsed? ==> at <= ParseCommand(t, at).at <= |t|
  {
    hide ParseNumber, ParseBulk, ParseBulks;
    NumberForward(t, at);
    if ParseNumber(t, at).Parsed? && ParseNumber(t, at).value > 0 {
      var Parsed(count, start) := ParseNumber(t, at);
      BulkForward(t, start);
      BulkBounds(t, start);
      if ParseBulk(t, start).Parsed? { BulksBounds(t, ParseBulk(t, start).at, count - 1); }
    }
  }

  // ------------------------------------------------------------ one delivery

  ghost predicate OnlyAtEnd(t: seq<Byte>, cuts: iset<nat>) {
    forall p :: p in cuts ==> p >= |t|
  }

  lemma BulkInOne(t: seq<Byte>, at: nat, cuts: iset<nat>)
    requires OnlyAtEnd(t, cuts) && !ParseBulk(t, at).NeedMore?
    ensures WholeBulk(t, at, cuts)
  {
    hide ParseNumber;
  }

  lemma {:induction false} BulksInOne(t: seq<Byte>, at: nat, n: nat, cuts: iset<nat>)
    requires OnlyAtEnd(t, cuts) && !ParseBulks(t, at, n).NeedMore?
    ensures WholeBulks(t, at, n, cuts)
    decreases n
  {
    hide ParseBulk, WholeBulk, OnlyAtEnd;
    if n > 0 {
      BulkInOne(t, at, cuts);
      if ParseBulk(t, at).Parsed? { BulksInOne(t, ParseBulk(t, at).at, n - 1, cuts); }
    }
  }

  lemma {:induction false} RequestInOne(t: seq<Byte>, at: nat, cuts: iset<nat>)
    requires OnlyAtEnd(t, cuts) && !ParseRequest(t, at).NeedMore?
    ensures WholeRequest(t, at, cuts)
    decreases |t| - at
  {
    hide ParseNumber, ParseBulk, ParseBulks, WholeBulk, WholeBulks, OnlyAtEnd;
    if at < |t| && t[at] == ARRAY {
      var count := ParseNumber(t, at + 1);
      if count.Parsed? && count.value > 0 {
        BulkInOne(t, count.at, cuts);
        if ParseBulk(t, count.at).Parsed? { BulksInOne(t, ParseBulk(t, count.at).at, count.value - 1, cuts); }
      }
    } else if at + 1 < |t| && t[at] == CR && t[at + 1] == LF {
      RequestInOne(t, at + 2, cuts);
    }
  }

  /** A request the stream decides comes whole if what is not buffered of the stream is
      delivered in one piece. */
  lemma DeliveredInOne(t: seq<Byte>, at: nat, size: nat, pieces: Pieces)
    requires |pieces| <= 1 && |t| == size + |Flat(pieces)| && !ParseRequest(t, at).NeedMore?
    ensures WholeRequest(t, at, Cuts(size, pieces))
  {
    hide ParseRequest, WholeRequest;
    if |pieces| == 1 {
      assert pieces[1..] == [] && Flat(pieces) == pieces[0] + [];
      assert Cuts(size, pieces) == iset{|t|};
    }
    RequestInOne(t, at, Cuts(size, pieces));
  }
}
