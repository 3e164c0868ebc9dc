/** The serialization protocol, sections "Bulk strings" and "Sending commands to a Redis
    server", over a whole stream of bytes: what the parser accepts at a position, and what
    the printer writes. A parsed string is a slice of the stream, as the server keeps
    offsets until the command is complete. */
module Resp {
  import opened Bytes
  import opened Number

  const CR: Byte := 13
  const LF: Byte := 10
  const ARRAY: Byte := 42
  const BULK: Byte := 36
  const INTEGER: Byte := 58

  /** Lengths and counts accumulate in 32 bits. */
  const WIDTH: nat := 0x1_0000_0000

  datatype Slice = Slice(offset: nat, length: nat)

  datatype Command = Command(name: Slice, args: seq<Slice>)

  /** `at` is the position after what was parsed. */
  datatype Outcome<+T> = Parsed(value: T, at: nat) | Malformed | NeedMore

  function ScanNumber(t: seq<Byte>, at: nat, acc: nat): Outcome<nat>
    decreases |t| - at
  {
    if at >= |t| then NeedMore
    else if IsDigit(t[at]) then ScanNumber(t, at + 1, (acc * 10 + (t[at] - 48)) % WIDTH)
    else if t[at] != CR then Malformed
    else if at + 1 >= |t| then NeedMore
    else if t[at + 1] != LF then Malformed
    else Parsed(acc, at + 2)
  }

  /** At least one digit, then CRLF. */
  function ParseNumber(t: seq<Byte>, at: nat): Outcome<nat> {
    if at >= |t| then NeedMore else if !IsDigit(t[at]) then Malformed else ScanNumber(t, at, 0)
  }

  function ParseCrlf(t: seq<Byte>, at: nat): Outcome<()> {
    if at + 2 > |t| then NeedMore else if t[at] != CR || t[at + 1] != LF then Malformed else Parsed((), at + 2)
  }

  /** `$<length>CRLF<bytes>CRLF`. */
  function ParseBulk(t: seq<Byte>, at: nat): Outcome<Slice> {
    if at >= |t| then NeedMore else if t[at] != BULK then Malformed else
      match ParseNumber(t, at + 1)
      case Malformed => Malformed
      case NeedMore => NeedMore
      case Parsed(length, start) =>
        if start + length > |t| then NeedMore else
          match ParseCrlf(t, start + length)
          case Malformed => Malformed
          case NeedMore => NeedMore
          case Parsed(_, next) => Parsed(Slice(start, length), next)
  }

  function ParseBulks(t: seq<Byte>, at: nat, n: nat): Outcome<seq<Slice>>
    decreases n
  {
    if n == 0 then Parsed([], at) else
      match ParseBulk(t, at)
      case Malformed => Malformed
      case NeedMore => NeedMore
      case Parsed(s, next) =>
        match ParseBulks(t, next, n - 1)
        case Malformed => Malformed
        case NeedMore => NeedMore
        case Parsed(rest, end) => Parsed([s] + rest, end)
  }

  /** What follows the '*': the count, which must not be 0, the name and the arguments. */
  function ParseCommand(t: seq<Byte>, at: nat): Outcome<Command> {
    match ParseNumber(t, at)
    case Malformed => Malformed
    case NeedMore => NeedMore
    case Parsed(count, start) =>
      if count == 0 then Malformed else
        match ParseBulk(t, start)
        case Malformed => Malformed
        case NeedMore => NeedMore
        case Parsed(name, next) =>
          match ParseBulks(t, next, count - 1)
          case Malformed => Malformed
          case NeedMore => NeedMore
          case Parsed(args, end) => Parsed(Command(name, args), end)
  }

  datatype Request = ArrayRequest(command: Command) | InlineRequest(first: nat)

  predicate IsAlnum(b: Byte) {
    48 <= b <= 57 || 65 <= b <= 90 || 97 <= b <= 122
  }

  /** Dispatch on the byte just before `at`. */
  function ParseAfter(t: seq<Byte>, at: nat): Outcome<Request>
    requires 0 < at <= |t|
  {
    if t[at - 1] == ARRAY then
      match ParseCommand(t, at)
      case Malformed => Malformed
      case NeedMore => NeedMore
      case Parsed(c, end) => Parsed(ArrayRequest(c), end)
    else if IsAlnum(t[at - 1]) then Parsed(InlineRequest(at - 1), at)
    else Malformed
  }

  /** Skips pairs of CR and LF, then dispatches. */
  function ParseRequest(t: seq<Byte>, at: nat): Outcome<Request>
    decreases |t| - at
  {
    if at >= |t| then NeedMore
    else if t[at] != CR then ParseAfter(t, at + 1)
    else if at + 1 >= |t| then NeedMore
    else if t[at + 1] != LF then Malformed
    else ParseRequest(t, at + 2)
  }

  // ----------------------------------------------------------------- printing

  const CRLF: seq<Byte> := [CR, LF]

  function PrintBulk(s: seq<Byte>): seq<Byte> {
    [BULK] + Decimal(|s|) + CRLF + s + CRLF
  }

  function PrintBulks(words: seq<seq<Byte>>): seq<Byte> {
    if words == [] then [] else PrintBulk(words[0]) + PrintBulks(words[1..])
  }

  function PrintArray(words: seq<seq<Byte>>): seq<Byte> {
    [ARRAY] + Decimal(|words|) + CRLF + PrintBulks(words)
  }

  // ------------------------------------------------- parsing undoes printing

  /** The words a slice or a command stands for in a buffer. */
  function Resolve(t: seq<Byte>, s: Slice): seq<Byte>
    requires s.offset + s.length <= |t|
  {
    t[s.offset..s.offset + s.length]
  }

  predicate InBounds(t: seq<Byte>, c: Command) {
    && c.name.offset + c.name.length <= |t|
    && forall i :: 0 <= i < |c.args| ==> c.args[i].offset + c.args[i].length <= |t|
  }

  function Words(t: seq<Byte>, c: Command): (w: seq<seq<Byte>>)
    requires InBounds(t, c)
  {
    [Resolve(t, c.name)] + seq(|c.args|, i requires 0 <= i < |c.args| => Resolve(t, c.args[i]))
  }

  /** s stands at position `at` of the stream. */
  ghost predicate StandsAt(t: seq<Byte>, at: nat, s: seq<Byte>) {
    at + |s| <= |t| && t[at..at + |s|] == s
  }

  lemma StandsSplit(t: seq<Byte>, at: nat, a: seq<Byte>, b: seq<Byte>)
    requires StandsAt(t, at, a + b)
    ensures StandsAt(t, at, a) && StandsAt(t, at + |a|, b)
  {
    assert t[at..at + |a|] == t[at..at + |a + b|][..|a|];
    assert t[at + |a|..at + |a| + |b|] == t[at..at + |a + b|][|a|..];
  }

  lemma {:induction false} ScanDigits(t: seq<Byte>, at: nat, d: seq<Byte>, i: nat)
    requires AllDigits(d) && 0 <= DigitsValue(d) < WIDTH && i <= |d| && StandsAt(t, at, d + CRLF)
    ensures 0 <= DigitsValue(d[..i]) < WIDTH
    ensures ScanNumber(t, at + i, DigitsValue(d[..i])) == Parsed(DigitsValue(d), at + |d| + 2)
    decreases |d| - i
  {
    hide DigitsValue, ScanNumber, AllDigits, StandsAt;
    DigitsValueGrows(d, i);
    if i < |d| {
      ScanDigits(t, at, d, i + 1);
      DigitsValueSnoc(d, i);
      DigitAt(t, at, d, i);
      ScanStep(t, at + i, DigitsValue(d[..i]));
    } else {
      ScanEnd(t, at + i, d, at);
      assert d[..i] == d;
    }
  }

  lemma ScanStep(t: seq<Byte>, at: nat, acc: nat)
    requires at < |t| && IsDigit(t[at])
    ensures ScanNumber(t, at, acc) == ScanNumber(t, at + 1, (acc * 10 + (t[at] - 48)) % WIDTH)
  {
  }

  lemma ScanEnd(t: seq<Byte>, end: nat, d: seq<Byte>, at: nat)
    requires end == at + |d| && StandsAt(t, at, d + CRLF)
    ensures forall acc: nat :: ScanNumber(t, end, acc) == Parsed(acc, end + 2)
  {
    StandsSplit(t, at, d, CRLF);
    assert t[end] == t[end..end + 2][0] && t[end + 1] == t[end..end + 2][1];
  }

  lemma DigitAt(t: seq<Byte>, at: nat, d: seq<Byte>, i: nat)
    requires AllDigits(d) && i < |d| && StandsAt(t, at, d + CRLF)
    ensures at + i < |t| && t[at + i] == d[i] && IsDigit(t[at + i])
  {
    assert t[at..at + |d + CRLF|][i] == (d + CRLF)[i];
  }

  lemma NumberInverse(t: seq<Byte>, at: nat, n: nat)
    requires n < WIDTH && StandsAt(t, at, Decimal(n) + CRLF)
    ensures ParseNumber(t, at) == Parsed(n, at + |Decimal(n)| + 2)
  {
    hide ScanNumber, Decimal, DigitsValue;
    var d := Decimal(n);
    DecimalParses(n);
    ScanDigits(t, at, d, 0);
    assert DigitsValue(d[..0]) == 0 by { EmptyValue(); assert d[..0] == []; }
    DigitAt(t, at, d, 0);
  }

  /** A printed bulk string is read back, and every byte of it consumed. */
  lemma BulkInverse(t: seq<Byte>, at: nat, s: seq<Byte>)
    requires |s| < WIDTH && StandsAt(t, at, PrintBulk(s))
    ensures var r := ParseBulk(t, at);
      && r.Parsed? && r.at == at + |PrintBulk(s)|
      && r.value.offset + r.value.length <= |t| && Resolve(t, r.value) == s
  {
    hide Decimal, ParseNumber;
    var d := Decimal(|s|);
    assert PrintBulk(s) == [BULK] + ((d + CRLF) + (s + CRLF));
    StandsSplit(t, at, [BULK], (d + CRLF) + (s + CRLF));
    StandsSplit(t, at + 1, d + CRLF, s + CRLF);
    StandsSplit(t, at + 1 + |d| + 2, s, CRLF);
    NumberInverse(t, at + 1, |s|);
    assert t[at] == t[at..at + 1][0];
    var end := at + 1 + |d| + 2 + |s|;
    assert t[end] == t[end..end + 2][0] && t[end + 1] == t[end..end + 2][1];
  }

  lemma {:induction false} BulksInverse(t: seq<Byte>, at: nat, words: seq<seq<Byte>>)
    requires StandsAt(t, at, PrintBulks(words)) && forall i :: 0 <= i < |words| ==> |words[i]| < WIDTH
    ensures var r := ParseBulks(t, at, |words|);
      && r.Parsed? && r.at == at + |PrintBulks(words)| && |r.value| == |words|
      && forall i :: 0 <= i < |words| ==>
           r.value[i].offset + r.value[i].length <= |t| && Resolve(t, r.value[i]) == words[i]
    decreases |words|
  {
    hide PrintBulk, ParseBulk, Resolve;
    if words != [] {
      StandsSplit(t, at, PrintBulk(words[0]), PrintBulks(words[1..]));
      BulkInverse(t, at, words[0]);
      BulksInverse(t, at + |PrintBulk(words[0])|, words[1..]);
    }
  }

  /** A printed array of at least one word is read back as that command. */
  lemma CommandInverse(t: seq<Byte>, at: nat, words: seq<seq<Byte>>)
    requires 0 < |words| < WIDTH && forall i :: 0 <= i < |words| ==> |words[i]| < WIDTH
    requires StandsAt(t, at, PrintArray(words))
    ensures var r := ParseRequest(t, at);
      && r.Parsed? && r.at == at + |PrintArray(words)| && r.value.ArrayRequest?
      && InBounds(t, r.value.command) && Words(t, r.value.command) == words
  {
    hide Decimal, ParseNumber, ParseBulk, PrintBulk;
    var d := Decimal(|words|);
    var bulks := PrintBulk(words[0]) + PrintBulks(words[1..]);
    assert PrintArray(words) == [ARRAY] + ((d + CRLF) + bulks);
    StandsSplit(t, at, [ARRAY], (d + CRLF) + bulks);
    StandsSplit(t, at + 1, d + CRLF, bulks);
    var start := at + 1 + |d| + 2;
    StandsSplit(t, start, PrintBulk(words[0]), PrintBulks(words[1..]));
    assert t[at] == t[at..at + 1][0];
    NumberInverse(t, at + 1, |words|);
    BulkInverse(t, start, words[0]);
    BulksInverse(t, start + |PrintBulk(words[0])|, words[1..]);
    assert Words(t, ParseRequest(t, at).value.command) == words;
  }

  // ------------------------------------------------------------------- bounds

  lemma {:induction false} NumberBounds(t: seq<Byte>, at: nat, acc: nat)
    ensures ScanNumber(t, at, acc).Parsed? ==> at < ScanNumber(t, at, acc).at <= |t|
    decreases |t| - at
  {
    if at < |t| && IsDigit(t[at]) { NumberBounds(t, at + 1, (acc * 10 + (t[at] - 48)) % WIDTH); }
  }

  lemma BulkBounds(t: seq<Byte>, at: nat)
    ensures var r := ParseBulk(t, at);
      r.Parsed? ==> r.value.offset + r.value.length <= r.at <= |t|
  {
    NumberBounds(t, at + 1, 0);
  }

  lemma {:induction false} BulksBounds(t: seq<Byte>, at: nat, n: nat)
    requires at <= |t|
    ensures var r := ParseBulks(t, at, n);
      r.Parsed? ==> at <= r.at <= |t| && forall i :: 0 <= i < |r.value| ==> r.value[i].offset + r.value[i].length <= r.at
    decreases n
  {
    hide ParseBulk;
    BulkBounds(t, at);
    BulkForward(t, at);
    if n > 0 && ParseBulk(t, at).Parsed? { BulksBounds(t, ParseBulk(t, at).at, n - 1); }
  }

  lemma BulkForward(t: seq<Byte>, at: nat)
    ensures ParseBulk(t, at).Parsed? ==> at <= ParseBulk(t, at).at
  {
    NumberBounds(t, at + 1, 0);
  }

  /** Every slice of a parsed command ends before the position after it. */
  lemma CommandBounds(t: seq<Byte>, at: nat)
    requires at <= |t|
    ensures var r := ParseCommand(t, at); r.Parsed? ==> r.at <= |t| && InBounds(t[..r.at], r.value)
  {
    hide ParseBulk, ParseBulks;
    NumberBounds(t, at, 0);
    if ParseNumber(t, at).Parsed? {
      var Parsed(count, start) := ParseNumber(t, at);
      BulkBounds(t, start);
      if count > 0 && ParseBulk(t, start).Parsed? { BulksBounds(t, ParseBulk(t, start).at, count - 1); }
    }
  }

  /** A command reads the same in two buffers that agree up to where it ends. */
  lemma SameWords(t: seq<Byte>, u: seq<Byte>, c: Command, end: nat)
    requires end <= |t| && end <= |u| && t[..end] == u[..end] && InBounds(t[..end], c)
    ensures InBounds(t, c) && InBounds(u, c) && Words(t, c) == Words(u, c)
  {
    SameSlice(t, u, c.name, end);
    forall i | 0 <= i < |c.args| ensures Resolve(t, c.args[i]) == Resolve(u, c.args[i]) {
      SameSlice(t, u, c.args[i], end);
    }
  }

  lemma SameSlice(t: seq<Byte>, u: seq<Byte>, s: Slice, end: nat)
    requires end <= |t| && end <= |u| && t[..end] == u[..end] && s.offset + s.length <= end
    ensures Resolve(t, s) == Resolve(u, s)
  {
    assert t[s.offset..s.offset + s.length] == t[..end][s.offset..s.offset + s.length];
    assert u[s.offset..s.offset + s.length] == u[..end][s.offset..s.offset + s.length];
  }

  // ---------------------------------------------------------------- pipelines

  function Crlfs(n: nat): seq<Byte> {
    if n == 0 then [] else CRLF + Crlfs(n - 1)
  }

  /** Commands one after the other, each behind some number of line ends. */
  function PrintPipeline(lines: seq<nat>, commands: seq<seq<seq<Byte>>>): seq<Byte>
    requires |lines| == |commands|
  {
    if commands == [] then [] else
      Crlfs(lines[0]) + PrintArray(commands[0]) + PrintPipeline(lines[1..], commands[1..])
  }

  lemma {:induction false} CrlfsSkipped(t: seq<Byte>, at: nat, n: nat)
    requires StandsAt(t, at, Crlfs(n))
    ensures ParseRequest(t, at) == ParseRequest(t, at + |Crlfs(n)|)
    decreases n
  {
    hide ParseAfter;
    if n > 0 {
      StandsSplit(t, at, CRLF, Crlfs(n - 1));
      assert t[at] == t[at..at + 2][0] && t[at + 1] == t[at..at + 2][1];
      CrlfsSkipped(t, at + 2, n - 1);
    }
  }

  /** The words of n requests parsed one after the other, and where the last one ends;
      nothing if one of them is not a complete array. */
  function ParsePipeline(t: seq<Byte>, at: nat, n: nat): Option<(seq<seq<seq<Byte>>>, nat)>
    decreases n
  {
    if n == 0 then Some(([], at)) else
      match ParseRequest(t, at)
      case Parsed(ArrayRequest(c), next) =>
        if !InBounds(t, c) then None else
          (match ParsePipeline(t, next, n - 1)
           case None => None
           case Some((rest, end)) => Some(([Words(t, c)] + rest, end)))
      case _ => None
  }

  ghost predicate Printable(words: seq<seq<Byte>>) {
    0 < |words| < WIDTH && forall i :: 0 <= i < |words| ==> |words[i]| < WIDTH
  }

  /** A pipeline of k commands, each with any number of leading line ends, parses to those
      k commands in order, consuming every byte. */
  lemma {:induction false} PipelineInverse(t: seq<Byte>, at: nat, lines: seq<nat>, commands: seq<seq<seq<Byte>>>)
    requires |lines| == |commands| && forall i :: 0 <= i < |commands| ==> Printable(commands[i])
    requires StandsAt(t, at, PrintPipeline(lines, commands))
    ensures ParsePipeline(t, at, |commands|) == Some((commands, at + |PrintPipeline(lines, commands)|))
    decreases |commands|
  {
    hide ParseRequest, PrintArray, Crlfs, Words, InBounds;
    if commands != [] {
      var c, a, rest := Crlfs(lines[0]), PrintArray(commands[0]), PrintPipeline(lines[1..], commands[1..]);
      assert PrintPipeline(lines, commands) == c + (a + rest);
      StandsSplit(t, at, c, a + rest);
      StandsSplit(t, at + |c|, a, rest);
      CrlfsSkipped(t, at, lines[0]);
      CommandInverse(t, at + |c|, commands[0]);
      PipelineInverse(t, at + |c| + |a|, lines[1..], commands[1..]);
      assert [commands[0]] + commands[1..] == commands;
    }
  }
}
