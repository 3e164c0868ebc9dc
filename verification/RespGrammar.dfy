/** What the parser accepts, said without it: the grammar of numbers, bulk strings and
    commands, in which numbers count modulo 2^32. */
module RespGrammar {
  import opened Bytes
  import opened Bits
  import opened Number
  import opened Resp

  /** Digits, at least one, and a line end stand at `at`. */
  ghost predicate IsNumber(t: seq<Byte>, at: nat, d: seq<Byte>) {
    d != [] && AllDigits(d) && StandsAt(t, at, d + CRLF)
  }

  function Wrapped(d: seq<Byte>): nat {
    DigitsValue(d) % WIDTH
  }

  lemma WrapStep(d: seq<Byte>, i: nat)
    requires i < |d| && IsDigit(d[i])
    ensures Wrapped(d[..i + 1]) == (Wrapped(d[..i]) * 10 + (d[i] - 48)) % WIDTH
  {
    DigitsValueSnoc(d, i);
    var v, r := DigitsValue(d[..i]), Wrapped(d[..i]);
    var x := r * 10 + (d[i] - 48);
    var q := v / WIDTH * 10 + x / WIDTH;
    assert v == v / WIDTH * WIDTH + r;
    assert v * 10 + (d[i] - 48) == q * WIDTH + x % WIDTH;
    DivModUnique(v * 10 + (d[i] - 48), WIDTH, q, x % WIDTH);
  }

  lemma {:induction false} ScanAll(t: seq<Byte>, at: nat, d: seq<Byte>, i: nat)
    requires AllDigits(d) && i <= |d| && StandsAt(t, at, d + CRLF)
    ensures ScanNumber(t, at + i, Wrapped(d[..i])) == Parsed(Wrapped(d), at + |d| + 2)
    decreases |d| - i
  {
    hide ScanNumber, Wrapped, StandsAt, AllDigits;
    if i < |d| {
      DigitAt(t, at, d, i);
      WrapStep(d, i);
      ScanStep(t, at + i, Wrapped(d[..i]));
      ScanAll(t, at, d, i + 1);
    } else {
      ScanEnd(t, at + i, d, at);
      assert d[..i] == d;
    }
  }

  lemma MoreDigits(t: seq<Byte>, at: nat, i: nat)
    requires at + i < |t| && AllDigits(t[at..at + i]) && IsDigit(t[at + i])
    ensures AllDigits(t[at..at + (i + 1)])
    ensures Wrapped(t[at..at + (i + 1)]) == (Wrapped(t[at..at + i]) * 10 + (t[at + i] - 48)) % WIDTH
  {
    hide Wrapped;
    var d := t[at..at + (i + 1)];
    assert d[..i] == t[at..at + i] && d[i] == t[at + i] && d[..i + 1] == d;
    WrapStep(d, i);
    forall j | 0 <= j < |d| ensures IsDigit(d[j]) {
      if j < i { assert d[j] == t[at..at + i][j]; }
    }
  }

  /** If a scan that has passed i digits succeeds, digits and a line end stand there. */
  lemma {:induction false} ScanOnlyDigits(t: seq<Byte>, at: nat, i: nat, acc: nat) returns (k: nat)
    requires at + i <= |t| && AllDigits(t[at..at + i]) && acc == Wrapped(t[at..at + i])
    requires ScanNumber(t, at + i, acc).Parsed?
    ensures i <= k && at + k <= |t| && AllDigits(t[at..at + k]) && StandsAt(t, at, t[at..at + k] + CRLF)
    decreases |t| - i
  {
    hide Wrapped;
    var p := at + i;
    assert p < |t|;
    if IsDigit(t[p]) {
      MoreDigits(t, at, i);
      ScanStep(t, p, acc);
      k := ScanOnlyDigits(t, at, i + 1, (acc * 10 + (t[p] - 48)) % WIDTH);
    } else {
      k := i;
      assert t[at..p + 2] == t[at..p] + CRLF;
    }
  }

  /** A number is accepted if and only if digits and a line end stand there; its value is
      that of the digits modulo 2^32. */
  lemma NumberIff(t: seq<Byte>, at: nat, n: nat, next: nat)
    ensures ParseNumber(t, at) == Parsed(n, next) <==>
      exists d :: IsNumber(t, at, d) && next == at + |d| + 2 && n == Wrapped(d)
  {
    hide ScanNumber, Wrapped;
    if d :| IsNumber(t, at, d) && next == at + |d| + 2 && n == Wrapped(d) { NumberAccepted(t, at, d); }
    if ParseNumber(t, at) == Parsed(n, next) {
      assert t[at..at] == [] && Wrapped([]) == 0 by { EmptyWraps(); }
      var k := ScanOnlyDigits(t, at, 0, 0);
      var d := t[at..at + k];
      NumberAccepted(t, at, d);
      assert IsNumber(t, at, d);
    }
  }

  lemma EmptyWraps()
    ensures Wrapped([]) == 0
  {
  }

  lemma NumberAccepted(t: seq<Byte>, at: nat, d: seq<Byte>)
    requires IsNumber(t, at, d)
    ensures ParseNumber(t, at) == Parsed(Wrapped(d), at + |d| + 2)
  {
    hide ScanNumber, Wrapped, AllDigits, StandsAt;
    DigitAt(t, at, d, 0);
    ScanAll(t, at, d, 0);
    assert d[..0] == [];
    EmptyWraps();
  }

  /** So a length or count of 2^32 + 2 is taken for 2. */
  lemma WideNumber()
    ensures ParseNumber([52, 50, 57, 52, 57, 54, 55, 50, 57, 56, CR, LF], 0) == Parsed(2, 12)
  {
    hide DigitsValue, ScanNumber;
    var d: seq<Byte> := [52, 50, 57, 52, 57, 54, 55, 50, 57, 56];
    var t := d + CRLF;
    assert d[..0] == [] && DigitsValue([]) == 0 by { EmptyValue(); }
    DigitsValueSnoc(d, 0);
    DigitsValueSnoc(d, 1);
    DigitsValueSnoc(d, 2);
    DigitsValueSnoc(d, 3);
    DigitsValueSnoc(d, 4);
    DigitsValueSnoc(d, 5);
    DigitsValueSnoc(d, 6);
    DigitsValueSnoc(d, 7);
    DigitsValueSnoc(d, 8);
    DigitsValueSnoc(d, 9);
    assert d[..10] == d;
    assert Wrapped(d) == 2;
    assert t[0..|t|] == t;
    NumberAccepted(t, 0, d);
    assert t == [52, 50, 57, 52, 57, 54, 55, 50, 57, 56, CR, LF];
  }

  // ------------------------------------------------------ strings and commands

  ghost predicate LineEndAt(t: seq<Byte>, at: nat) {
    at + 2 <= |t| && t[at] == CR && t[at + 1] == LF
  }

  /** A bulk string: its length, as many bytes, a line end. */
  ghost predicate IsBulk(t: seq<Byte>, at: nat, s: Slice, next: nat) {
    && at < |t| && t[at] == BULK
    && next == s.offset + s.length + 2 && LineEndAt(t, s.offset + s.length)
    && exists d :: IsNumber(t, at + 1, d) && s.offset == at + 1 + |d| + 2 && s.length == Wrapped(d)
  }

  ghost predicate IsBulks(t: seq<Byte>, at: nat, args: seq<Slice>, next: nat)
    decreases |args|
  {
    if args == [] then next == at
    else exists middle: nat :: IsBulk(t, at, args[0], middle) && IsBulks(t, middle, args[1..], next)
  }

  /** The count of strings, not 0, and that many strings. */
  ghost predicate IsCommand(t: seq<Byte>, at: nat, c: Command, next: nat) {
    exists d :: IsNumber(t, at, d) && Wrapped(d) == 1 + |c.args| && IsBulks(t, at + |d| + 2, [c.name] + c.args, next)
  }

  lemma BulkIff(t: seq<Byte>, at: nat, s: Slice, next: nat)
    ensures ParseBulk(t, at) == Parsed(s, next) <==> IsBulk(t, at, s, next)
  {
    hide ParseNumber, IsNumber, Wrapped;
    NumberIff(t, at + 1, s.length, s.offset);
    if IsBulk(t, at, s, next) {
      var d :| IsNumber(t, at + 1, d) && s.offset == at + 1 + |d| + 2 && s.length == Wrapped(d);
    }
  }

  lemma {:induction false} BulksIff(t: seq<Byte>, at: nat, args: seq<Slice>, next: nat)
    ensures ParseBulks(t, at, |args|) == Parsed(args, next) <==> IsBulks(t, at, args, next)
    decreases |args|
  {
    hide ParseBulk, IsBulk;
    if args != [] {
      forall middle: nat ensures ParseBulk(t, at) == Parsed(args[0], middle) <==> IsBulk(t, at, args[0], middle) {
        BulkIff(t, at, args[0], middle);
      }
      var r := ParseBulk(t, at);
      if r.Parsed? {
        BulksIff(t, r.at, args[1..], next);
        BulksCount(t, r.at, |args| - 1);
        var rest := ParseBulks(t, r.at, |args| - 1);
        if rest.Parsed? {
          assert ([r.value] + rest.value)[0] == r.value && ([r.value] + rest.value)[1..] == rest.value;
        }
        assert args == [args[0]] + args[1..];
      }
    }
  }

  lemma {:induction false} BulksCount(t: seq<Byte>, at: nat, n: nat)
    ensures ParseBulks(t, at, n).Parsed? ==> |ParseBulks(t, at, n).value| == n
    decreases n
  {
    hide ParseBulk;
    if n > 0 && ParseBulk(t, at).Parsed? { BulksCount(t, ParseBulk(t, at).at, n - 1); }
  }

  /** The parser accepts a command if and only if one stands there. */
  lemma CommandIff(t: seq<Byte>, at: nat, c: Command, next: nat)
    ensures ParseCommand(t, at) == Parsed(c, next) <==> IsCommand(t, at, c, next)
  {
    hide ParseNumber, ParseBulks, ParseCommand, IsBulks, IsNumber, Wrapped;
    var words, n := [c.name] + c.args, 1 + |c.args|;
    assert |words| == n;
    CommandIsBulks(t, at, c, next);
    if IsCommand(t, at, c, next) {
      var d :| IsNumber(t, at, d) && Wrapped(d) == n && IsBulks(t, at + |d| + 2, words, next);
      NumberAccepted(t, at, d);
      BulksIff(t, at + |d| + 2, words, next);
    }
    if ParseCommand(t, at) == Parsed(c, next) {
      var start := ParseNumber(t, at).at;
      NumberIff(t, at, n, start);
      var d :| IsNumber(t, at, d) && start == at + |d| + 2 && n == Wrapped(d);
      BulksIff(t, start, words, next);
    }
  }

  lemma CommandIsBulks(t: seq<Byte>, at: nat, c: Command, next: nat)
    ensures var words := [c.name] + c.args;
      ParseCommand(t, at) == Parsed(c, next) <==>
        ParseNumber(t, at).Parsed? && ParseNumber(t, at).value == |words|
        && ParseBulks(t, ParseNumber(t, at).at, |words|) == Parsed(words, next)
  {
    hide ParseNumber, ParseBulk;
    var words := [c.name] + c.args;
    assert words[0] == c.name && words[1..] == c.args;
    if ParseNumber(t, at).Parsed? && ParseNumber(t, at).value > 0 {
      var Parsed(count, start) := ParseNumber(t, at);
      var name := ParseBulk(t, start);
      if name.Parsed? {
        BulksCount(t, name.at, count - 1);
        var args := ParseBulks(t, name.at, count - 1);
        if args.Parsed? {
          var all := [name.value] + args.value;
          assert all[0] == name.value && all[1..] == args.value;
        }
      }
    }
  }

  // ------------------------------------------------------------------ requests

  /** Behind any number of line ends the first byte decides: an asterisk starts an array, a
      letter or a digit an inline command, and anything else is refused. */
  lemma RequestByFirst(t: seq<Byte>, at: nat, n: nat)
    requires StandsAt(t, at, Crlfs(n)) && at + |Crlfs(n)| < |t| && t[at + |Crlfs(n)|] != 13
    ensures |Crlfs(n)| == 2 * n
    ensures var p := at + 2 * n; var b := t[p];
      && (b == 42 ==> ParseRequest(t, at) == match ParseCommand(t, p + 1)
            case Parsed(c, next) => Parsed(ArrayRequest(c), next)
            case Malformed => Malformed
            case NeedMore => NeedMore)
      && ((48 <= b <= 57 || 65 <= b <= 90 || 97 <= b <= 122) ==>
            ParseRequest(t, at) == Parsed(InlineRequest(p), p + 1))
      && (!(b == 42 || 48 <= b <= 57 || 65 <= b <= 90 || 97 <= b <= 122) ==> ParseRequest(t, at) == Malformed)
  {
    hide ParseCommand, Crlfs;
    CrlfsLength(n);
    CrlfsSkipped(t, at, n);
  }

  lemma {:induction false} CrlfsLength(n: nat)
    ensures |Crlfs(n)| == 2 * n
  {
    if n > 0 { CrlfsLength(n - 1); }
  }

  /** At position `first`, behind n line ends, stands a letter or a digit. */
  ghost predicate StandsBehind(t: seq<Byte>, at: nat, n: nat, first: nat) {
    && StandsAt(t, at, Crlfs(n)) && first == at + 2 * n && first < |t|
    && (48 <= t[first] <= 57 || 65 <= t[first] <= 90 || 97 <= t[first] <= 122)
  }

  /** A request is inline if and only if a letter or a digit stands behind line ends. */
  lemma InlineIff(t: seq<Byte>, at: nat, first: nat, next: nat)
    ensures ParseRequest(t, at) == Parsed(InlineRequest(first), next) <==>
      next == first + 1 && exists n: nat :: StandsBehind(t, at, n, first)
  {
    hide ParseCommand, Crlfs, ParseRequest, StandsAt;
    if n: nat :| StandsBehind(t, at, n, first) {
      CrlfsLength(n);
      RequestByFirst(t, at, n);
    }
    if ParseRequest(t, at) == Parsed(InlineRequest(first), next) {
      var n := InlineBehind(t, at);
    }
  }

  lemma {:induction false} InlineBehind(t: seq<Byte>, at: nat) returns (n: nat)
    requires ParseRequest(t, at).Parsed? && ParseRequest(t, at).value.InlineRequest?
    ensures StandsBehind(t, at, n, ParseRequest(t, at).value.first)
    ensures ParseRequest(t, at).at == ParseRequest(t, at).value.first + 1
    decreases |t| - at
  {
    hide ParseCommand;
    if t[at] != CR {
      n := 0;
      assert t[at..at] == [];
    } else {
      var m := InlineBehind(t, at + 2);
      n := m + 1;
      CrlfsLength(m);
      assert t[at..at + 2 * n] == [t[at], t[at + 1]] + t[at + 2..at + 2 + 2 * m];
    }
  }

  // ------------------------------------------------------------------- literals

  /** The bytes of `*1`, `$4` and `PING`, each with its line end. */
  lemma PingBytes()
    ensures PrintArray([[80, 73, 78, 71]]) == [42, 49, 13, 10, 36, 52, 13, 10, 80, 73, 78, 71, 13, 10]
  {
    var w: seq<Byte> := [80, 73, 78, 71];
    assert [w][1..] == [];
    assert PrintBulks([w]) == PrintBulk(w) + PrintBulks([]);
  }

  /** The signs: `+5` is accepted, and -12 is printed as `-12`. */
  lemma SignBytes()
    ensures Unsigned([43, 53]) == Some(5) && Unsigned([45, 53]) == None && Unsigned([43]) == None
    ensures SignedDecimal(-12) == [45, 49, 50] && SignedDecimal(0) == [48]
  {
    var s: seq<Byte> := [43, 53];
    assert s[1..] == [53] && [53][..0] == [];
    assert DigitsValue([53]) == 5;
    assert [43 as Byte][1..] == [];
    assert Decimal(12) == Decimal(1) + [50];
  }
}
