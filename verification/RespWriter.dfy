/** The reply printers, and the reply of HKEYS, which walks the hash table. */
module RespWriter {
  import opened Bytes
  import opened Number
  import opened Probing
  import opened HashTables
  import opened Resp

  /** Writes the decimal text of a length or count at buf[at..]. */
  method PutDecimal(buf: array<Byte>, at: nat, n: nat) returns (next: nat)
    requires n < 0x8000_0000_0000_0000 && at + |Decimal(n)| < buf.Length
    modifies buf
    ensures next == at + |Decimal(n)| && buf[..next] == old(buf[..at]) + Decimal(n)
  {
    hide Decimal;
    ghost var before := buf[..at];
    var nbytes := Ltoa(n, buf, at);
    next := at + nbytes;
    assert buf[..][..next] == before + Decimal(n);
  }

  /** `:<value>CRLF`. The value arrives unsigned and is printed as a signed 64-bit number. */
  method CreateRespInteger(buf: array<Byte>, value: nat) returns (length: nat)
    requires value <= UINT64_MAX && value != 0x8000_0000_0000_0000
    requires |SignedDecimal(Signed64(value))| + 3 <= buf.Length
    modifies buf
    ensures length == |SignedDecimal(Signed64(value))| + 3
    ensures buf[..length] == [58] + SignedDecimal(Signed64(value)) + [13, 10]
  {
    hide SignedDecimal;
    var start := Append(buf, 0, [INTEGER]);
    var nbytes := Ltoa(Signed64(value), buf, 1);
    assert buf[..][..1 + nbytes] == [INTEGER] + SignedDecimal(Signed64(value));
    length := Append(buf, 1 + nbytes, CRLF);
  }

  /** The conversion from uint64_t to int64_t. */
  function Signed64(v: nat): (r: int)
    requires v <= UINT64_MAX
    ensures -0x8000_0000_0000_0000 <= r < 0x8000_0000_0000_0000 && (r == v || r == v - 0x1_0000_0000_0000_0000)
  {
    if v < 0x8000_0000_0000_0000 then v else v - 0x1_0000_0000_0000_0000
  }

  /** `$<length>CRLF<bytes>CRLF` at buf[at..]. */
  method PutBulk(buf: array<Byte>, at: nat, s: seq<Byte>) returns (next: nat)
    requires |s| < WIDTH && at + |PrintBulk(s)| <= buf.Length
    modifies buf
    ensures next == at + |PrintBulk(s)| && buf[..next] == old(buf[..at]) + PrintBulk(s)
  {
    hide Decimal;
    ghost var before := buf[..at];
    next := Append(buf, at, [BULK]);
    next := PutDecimal(buf, next, |s|);
    next := Append(buf, next, CRLF);
    next := Append(buf, next, s);
    next := Append(buf, next, CRLF);
    assert before + [BULK] + Decimal(|s|) + CRLF + s + CRLF == before + PrintBulk(s);
  }

  method CreateRespString(buf: array<Byte>, s: seq<Byte>) returns (length: nat)
    requires |s| < WIDTH && |PrintBulk(s)| <= buf.Length
    modifies buf
    ensures length == |PrintBulk(s)| && buf[..length] == PrintBulk(s)
  {
    hide PrintBulk;
    length := PutBulk(buf, 0, s);
  }

  function Keys<V>(es: seq<Entry<seq<Byte>, V>>): (ks: seq<seq<Byte>>)
    ensures |ks| == |es| && forall i :: 0 <= i < |es| ==> ks[i] == es[i].key
  {
    if es == [] then [] else [es[0].key] + Keys(es[1..])
  }

  /** The walk over the table that appends one bulk string a key. */
  method DumpKeys<V>(buf: array<Byte>, at: nat, es: seq<Entry<seq<Byte>, V>>) returns (next: nat)
    requires forall i :: 0 <= i < |es| ==> |es[i].key| < WIDTH
    requires at + |PrintBulks(Keys(es))| <= buf.Length
    modifies buf
    ensures next == at + |PrintBulks(Keys(es))| && buf[..next] == old(buf[..at]) + PrintBulks(Keys(es))
  {
    hide PrintBulk;
    next := at;
    ghost var before, all := buf[..at], PrintBulks(Keys(es));
    ghost var done: seq<Byte> := [];
    assert es[0..] == es;
    for i := 0 to |es|
      invariant all == done + PrintBulks(Keys(es[i..]))
      invariant next == at + |done| && buf[..next] == before + done
    {
      assert es[i..][0] == es[i] && es[i..][1..] == es[i + 1..];
      ghost var b, rest := PrintBulk(es[i].key), PrintBulks(Keys(es[i + 1..]));
      KeysHead(es[i..]);
      next := PutBulk(buf, next, es[i].key);
      assert done + (b + rest) == done + b + rest && before + done + b == before + (done + b);
      done := done + b;
    }
    assert done == all;
  }

  lemma KeysHead<V>(es: seq<Entry<seq<Byte>, V>>)
    requires es != []
    ensures PrintBulks(Keys(es)) == PrintBulk(es[0].key) + PrintBulks(Keys(es[1..]))
  {
    assert Keys(es)[1..] == Keys(es[1..]);
  }

  /** The count, then every key in the order of the walk. */
  method PutKeys<V>(buf: array<Byte>, count: nat, es: seq<Entry<seq<Byte>, V>>) returns (length: nat)
    requires count == |es| < WIDTH && forall i :: 0 <= i < |es| ==> |es[i].key| < WIDTH
    requires |PrintArray(Keys(es))| < buf.Length
    modifies buf
    ensures length == |PrintArray(Keys(es))| && buf[..length] == PrintArray(Keys(es))
  {
    hide Decimal, PrintBulks, Keys;
    length := Append(buf, 0, [ARRAY]);
    length := PutDecimal(buf, length, count);
    length := Append(buf, length, CRLF);
    length := DumpKeys(buf, length, es);
  }

  /** HKEYS on a hash table. */
  method Hkeys<V>(table: HashTable<seq<Byte>, V>, buf: array<Byte>) returns (length: nat)
    requires table.Valid() && table.count < WIDTH && forall k :: k in table.Contents() ==> |k| < WIDTH
    requires |PrintArray(Keys(Listed(table.elements[..])))| < buf.Length
    modifies buf
    ensures length <= buf.Length && buf[..length] == PrintArray(Keys(Listed(old(table.elements[..]))))
  {
    hide Decimal, PrintArray, NoHoles, Listed, AsMap, Keys;
    var entries := table.Foreach();
    ListedRebuilds(table.elements[..]);
    ListedOnce(table.elements[..]);
    length := PutKeys(buf, table.count, entries);
  }

  /** The reply to HKEYS on a non-empty table parses to an array with each key of the
      table exactly once and nothing else. */
  lemma HkeysReplyParses<V>(s: Slots<seq<Byte>, V>)
    requires UniqueKeys(s) && 0 < |AsMap(s)| < WIDTH && forall k :: k in AsMap(s) ==> |k| < WIDTH
    ensures var t := PrintArray(Keys(Listed(s)));
      var r := ParseRequest(t, 0);
      && r.Parsed? && r.at == |t| && r.value.ArrayRequest? && InBounds(t, r.value.command)
      && var words := Words(t, r.value.command);
         && (forall i, j :: 0 <= i < j < |words| ==> words[i] != words[j])
         && (forall k :: k in AsMap(s) <==> k in words)
  {
    hide ParseRequest, PrintArray, Words, Listed, AsMap, Keys;
    ListedRebuilds(s);
    ListedOnce(s);
    var words := Keys(Listed(s));
    KeysAre(Listed(s));
    var t := PrintArray(words);
    assert t[0..0 + |t|] == t;
    CommandInverse(t, 0, words);
    forall k | k in AsMap(s) ensures k in words {
      var i :| 0 <= i < |Listed(s)| && Listed(s)[i].key == k;
      assert words[i] == k;
    }
  }

  lemma KeysAre<V>(es: seq<Entry<seq<Byte>, V>>)
    ensures |Keys(es)| == |es| && forall i :: 0 <= i < |es| ==> Keys(es)[i] == es[i].key
  {
  }

  /** HKEYS on an empty table, or on no table, replies with the empty array, which is
      not a command. */
  lemma EmptyReply()
    ensures PrintArray([]) == [ARRAY, 48] + CRLF
    ensures ParseRequest([ARRAY, 48] + CRLF, 0) == Malformed
  {
    var t: seq<Byte> := [ARRAY, 48] + CRLF;
    assert ScanNumber(t, 2, 0) == Parsed(0, 4);
    assert ScanNumber(t, 1, 0) == ScanNumber(t, 2, 0);
  }
}
