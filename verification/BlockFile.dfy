/** The database file as a sequence of bytes with a file offset, read and written in
    whole blocks. A read near the end delivers fewer bytes, and past the end none. */
module BlockFiles {
  import opened Bytes

  /** The byte at position p of a file that is padded with zeros for ever. */
  function ByteAt(content: seq<Byte>, p: nat): Byte {
    if p < |content| then content[p] else 0
  }

  /** n bytes of the padded file from position p. */
  function Window(content: seq<Byte>, p: nat, n: nat): (s: seq<Byte>)
    ensures |s| == n
  {
    seq<Byte>(n, i requires 0 <= i => ByteAt(content, p + i))
  }

  lemma WindowSplit(content: seq<Byte>, p: nat, m: nat, n: nat)
    ensures Window(content, p, m + n) == Window(content, p, m) + Window(content, p + m, n)
  {
  }

  lemma WindowInside(content: seq<Byte>, p: nat, n: nat)
    requires p + n <= |content|
    ensures Window(content, p, n) == content[p..p + n]
  {
    var w, c := Window(content, p, n), content[p..p + n];
    forall i | 0 <= i < n ensures w[i] == c[i] { }
  }

  class BlockFile {
    var content: seq<Byte>
    var pos: nat

    constructor (content: seq<Byte>)
      ensures this.content == content && pos == 0
    {
      this.content, pos := content, 0;
    }

    method Seek()
      modifies this
      ensures pos == 0 && content == old(content)
    {
      pos := 0;
    }

    /** Reads as much of a block as the file still holds, and leaves the rest of it alone. */
    method ReadBlock(block: array<Byte>) returns (count: nat)
      modifies this`pos, block
      ensures count == if old(pos) >= |content| then 0
                       else if old(pos) + block.Length <= |content| then block.Length else |content| - old(pos)
      ensures pos == old(pos) + count
      ensures count > 0 ==> block[..count] == content[old(pos)..pos]
      ensures block[count..] == old(block[count..])
    {
      count := if pos >= |content| then 0
               else if pos + block.Length <= |content| then block.Length else |content| - pos;
      if count > 0 {
        var next := Append(block, 0, content[pos..pos + count]);
        pos := pos + count;
      }
    }

    /** Overwrites a block in place; the file grows if it ends inside it. */
    method WriteBlock(block: array<Byte>)
      requires pos <= |content|
      modifies this
      ensures pos == old(pos) + block.Length <= |content| && |content| >= old(|content|)
      ensures content[..pos] == old(content[..pos]) + block[..]
      ensures content[pos..] == if pos <= old(|content|) then old(content)[pos..] else []
    {
      var next := pos + block.Length;
      content := content[..pos] + block[..] + (if next <= |content| then content[next..] else []);
      pos := next;
    }

    /** ftruncate: cuts the file, or extends it with zeros. */
    method Truncate(size: nat)
      modifies this`content
      ensures content == Window(old(content), 0, size)
    {
      content := Window(content, 0, size);
    }
  }
}
