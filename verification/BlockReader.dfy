/** Reading a stream of bytes through one block buffer. */
module BlockReaders {
  import opened Bytes
  import opened BlockFiles

  class BlockReader {
    const file: BlockFile
    const block: array<Byte>
    var at: nat
    /** Where in the stream the block starts. */
    ghost var base: nat
    /** An asserted read has delivered less than a block. With assertions compiled in, the
        process ends there; without them it goes on. */
    var short: bool

    /** The cursor is strictly inside the block, and the block is right as far as the file
        goes. Reads after the first one are asserted to deliver a whole block. */
    ghost predicate Valid()
      reads this, file, block
    {
      && at < block.Length && RightUpTo(block[..], base) && (base == 0 || base >= block.Length)
      && file.pos == (if base + block.Length <= |file.content| then base + block.Length else |file.content|)
      && (short <==> base > 0 && base + block.Length > |file.content|)
    }

    /** The bytes are those of the file from position p on, as far as it goes. */
    ghost predicate RightUpTo(data: seq<Byte>, p: nat)
      reads file`content
    {
      forall i :: 0 <= i < |data| && p + i < |file.content| ==> data[i] == file.content[p + i]
    }

    lemma RightPart(data: seq<Byte>, p: nat, a: nat, b: nat)
      requires RightUpTo(data, p) && a <= b <= |data|
      ensures RightUpTo(data[a..b], p + a)
    {
    }

    lemma RightJoin(data: seq<Byte>, more: seq<Byte>, p: nat)
      requires RightUpTo(data, p) && RightUpTo(more, p + |data|)
      ensures RightUpTo(data + more, p)
    {
    }

    /** How many bytes of the stream lie before the cursor. */
    ghost function Position(): nat
      reads this
    {
      base + at
    }

    /** Starts with the first block read and the cursor behind the file's header. */
    constructor (file: BlockFile, block: array<Byte>, filled: nat)
      requires filled < block.Length
      requires file.pos == if block.Length <= |file.content| then block.Length else |file.content|
      requires block[..file.pos] == file.content[..file.pos]
      ensures Valid() && this.file == file && this.block == block && at == filled && base == 0
    {
      this.file, this.block, at, base, short := file, block, filled, 0, false;
      new;
      forall i | 0 <= i < block.Length && i < |file.content| ensures block[..][i] == file.content[i] {
        assert block[..file.pos][i] == file.content[..file.pos][i];
      }
    }

    /** Reads the next block over the present one. */
    method NextBlock()
      requires Valid()
      modifies this`base, this`short, file`pos, block
      ensures Valid() && base == old(base) + block.Length
    {
      ghost var content := file.content;
      var count := file.ReadBlock(block);
      short := short || count != block.Length;
      base := base + block.Length;
      forall i | 0 <= i < block.Length && base + i < |content| ensures block[..][i] == content[base + i] {
        assert block[..count][i] == content[base..base + count][i];
      }
    }

    /** Takes the next `count` bytes. They are right as far as the file goes; an asserted read
        has come back short if and only if the cursor is then in a block after the first that
        the file does not fill. */
    method CollectBytes(count: nat) returns (data: seq<Byte>)
      requires Valid()
      modifies this, file`pos, block
      ensures Valid() && Position() == old(Position()) + count
      ensures |data| == count && RightUpTo(data, old(Position()))
    {
      hide RightUpTo;
      var remaining := count;
      var blockSize := block.Length;
      if at + remaining < blockSize {
        RightPart(block[..], base, at, at + remaining);
        data := block[at..at + remaining];
        assert block[..][at..at + remaining] == data;
        at := at + remaining;
        return;
      }
      ghost var start := Position();
      var available := blockSize - at;
      RightPart(block[..], base, at, blockSize);
      data := block[at..];
      assert block[..][at..blockSize] == data;
      NextBlock();
      remaining := remaining - available;
      while remaining >= blockSize
        invariant 0 <= remaining <= count && Valid() && base == start + (count - remaining)
        invariant |data| == count - remaining && RightUpTo(data, start)
      {
        RightJoin(data, block[..], start);
        data := data + block[..];
        NextBlock();
        remaining := remaining - blockSize;
      }
      RightPart(block[..], base, 0, remaining);
      assert block[..][0..remaining] == block[..remaining];
      RightJoin(data, block[..remaining], start);
      data := data + block[..remaining];
      at := remaining;
    }
  }
}
