/** FileChunker: pads a file to a whole number of blocks, streams it back as
    source blocks of k symbols, and truncates the padding away on close. */
module Chunker {
  import opened Wrappers
  import opened Geometry
  import opened Blocks

  /** The file on disk: its bytes, which the chunker grows and shrinks. */
  class File {
    var bytes: seq<bv8>

    constructor (bytes: seq<bv8>)
      ensures this.bytes == bytes
    {
      this.bytes := bytes;
    }
  }

  /** n zero bytes. */
  function Zeros(n: nat): (z: seq<bv8>)
    ensures |z| == n
  {
    seq(n, _ => 0)
  }

  /** A full block read from where the stream stood extends the stream by its bytes. */
  lemma ExtendStream(emitted: seq<SourceBlock>, b: SourceBlock, padded: seq<bv8>, start: nat, pos: nat, blockSize: nat)
    requires start == |emitted| * blockSize && pos == start + blockSize && pos <= |padded|
    requires Concat(emitted) == padded[..start] && Join(b.symbols) == padded[start..pos]
    ensures pos == |emitted + [b]| * blockSize
    ensures Concat(emitted + [b]) == padded[..pos]
  {
    ConcatAppend(emitted, b);
    MulSucc(|emitted|, blockSize);
    assert padded[..start] + padded[start..pos] == padded[..pos];
  }

  /** Adjacent slices join into one. */
  lemma SliceSplit(s: seq<bv8>, a: nat, b: nat, c: nat)
    requires a <= b <= c <= |s|
    ensures s[a..b] + s[b..c] == s[a..c]
  {
  }

  class FileChunker {
    // geometry, fixed at construction
    const k: nat
    const symbolSize: nat
    const blockSize: nat
    const fileSize: nat
    const totalBlocks: nat
    const wordsPerSymbol: nat
    const file: File
    // the file's bytes when the chunker was created
    ghost const original: seq<bv8>

    var padding: nat
    var blockId: nat
    // the read handle: its offset and whether it is closed
    var pos: nat
    var closed: bool
    // every block returned so far, in order
    ghost var emitted: seq<SourceBlock>

    /** The file's bytes while the chunker has it padded. */
    ghost function PaddedContents(): (p: seq<bv8>)
      reads this
      ensures |p| == |original| + padding
    {
      original + Zeros(padding)
    }

    /** The geometry is the one the constructor derives, the read offset is a
        whole number of symbols inside the padded file, and the file on disk is
        padded while the handle is open and restored once it is closed. */
    ghost predicate Valid()
      reads this, file
    {
      && blockSize == symbolSize * k && blockSize > 0
      && 8 * wordsPerSymbol == symbolSize
      && totalBlocks == CeilDiv(fileSize, blockSize)
      && |original| == fileSize
      && padding == PaddingFor(fileSize, blockSize)
      && pos % symbolSize == 0
      && pos <= fileSize + padding
      && (if closed then file.bytes == original else file.bytes == PaddedContents())
    }

    /** The geometry the chunker keeps is exactly the layout Configure derives
        for its file. */
    lemma LayoutIsConfigured()
      requires Valid()
      ensures Configure(k, symbolSize, Some(|original|)) ==
              Success(Layout(k, symbolSize, blockSize, fileSize, totalBlocks, wordsPerSymbol))
    {
      DivModUnique(symbolSize, 8, wordsPerSymbol, 0);
    }

    /** A block as chunk returns it: k symbols of symbolSize bytes each. */
    ghost predicate Full(b: SourceBlock) {
      && |b.symbols| == k
      && SymbolsOfSize(b.symbols, symbolSize)
    }

    /** The stream so far: blocks with ids 0, 1, ... that carry exactly the
        padded bytes read so far; only block totalBlocks - 1 records padding;
        one id more has been used only after the stream ran dry. */
    ghost predicate Streaming()
      reads this, file
    {
      && Valid()
      && pos == |emitted| * blockSize
      && Concat(emitted) == PaddedContents()[..pos]
      && (forall i :: 0 <= i < |emitted| ==> emitted[i].id == i && Full(emitted[i]))
      && (forall i :: 0 <= i < |emitted| ==>
            emitted[i].padding == if i == totalBlocks - 1 then padding else 0)
      && (blockId == |emitted| || (blockId == |emitted| + 1 && closed && pos == fileSize + padding))
    }

    /** The successful path of __init__: geometry, then padding, then the read handle at 0. */
    constructor (k: nat, symbolSize: nat, file: File)
      requires Configure(k, symbolSize, Some(|file.bytes|)).Success?
      modifies file
      ensures Streaming()
      ensures this.k == k && this.symbolSize == symbolSize && this.file == file
      ensures original == old(file.bytes) && fileSize == |original|
      ensures padding == PaddingFor(fileSize, blockSize)
      ensures file.bytes == old(file.bytes) + Zeros(padding)
      ensures blockId == 0 && pos == 0 && !closed && emitted == []
    {
      blockId := 0;
      this.k := k;
      this.symbolSize := symbolSize;
      blockSize := symbolSize * k;
      this.file := file;
      fileSize := |file.bytes|;
      original := file.bytes;
      totalBlocks := CeilDiv(|file.bytes|, symbolSize * k);
      wordsPerSymbol := symbolSize / 8;
      padding := 0;
      pos, closed := 0, false;
      emitted := [];
      new;
      padding := PadToEvenBlockSize();
      PaddingBounds(fileSize, blockSize);
      assert 0 % symbolSize == 0;
      assert file.bytes == PaddedContents();
      assert Valid();
      assert Concat(emitted) == PaddedContents()[..0];
    }

    /** Appends zero bytes, one at a time, until the file is a whole number of
        blocks; returns how many were appended. */
    method PadToEvenBlockSize() returns (p: nat)
      requires blockSize > 0
      modifies file`bytes
      ensures p == PaddingFor(fileSize, blockSize)
      ensures file.bytes == old(file.bytes) + Zeros(p)
    {
      p := blockSize - fileSize % blockSize;
      if p != 0 {
        var i := 0;
        while i < p
          invariant i <= p
          invariant file.bytes == old(file.bytes) + Zeros(i)
        {
          file.bytes := file.bytes + [0];
          i := i + 1;
        }
      }
    }

    /** Returns the next block of k symbols, or None once the handle is closed
        or the padded file is exhausted (closing the handle in that case). */
    method Chunk() returns (block: Option<SourceBlock>)
      requires Streaming()
      modifies this`blockId, this`pos, this`closed, this`emitted, file`bytes
      ensures Streaming()
      ensures old(closed) ==>
        block.None? && closed && blockId == old(blockId) && pos == old(pos) &&
        emitted == old(emitted) && file.bytes == old(file.bytes)
      ensures !old(closed) ==> blockId == old(blockId) + 1
      ensures block.None? <==> old(closed) || old(pos) == fileSize + padding
      ensures block.None? ==> closed && pos == old(pos) && emitted == old(emitted)
      ensures block.Some? ==>
        && !closed
        && block.value.id == old(blockId)
        && Full(block.value)
        && pos == old(pos) + blockSize
        && Join(block.value.symbols) == PaddedContents()[old(pos)..pos]
        && block.value.padding == (if block.value.id == totalBlocks - 1 then padding else 0)
        && emitted == old(emitted) + [block.value]
    {
      if closed {
        return None;
      }
      assert pos % blockSize == 0 by {
        DivModUnique(pos, blockSize, |emitted|, 0);
      }
      var id := GetBlockId();
      var b, eof := FillBlock(EmptyBlock(id));

      if |b.symbols| == 0 {
        return None;
      }

      if b.id == totalBlocks - 1 {
        b := b.(padding := padding);
      }
      ExtendStream(emitted, b, PaddedContents(), old(pos), pos, blockSize);
      emitted := emitted + [b];
      StreamingAfterBlock(old(emitted), b);
      block := Some(b);
    }

    /** The loop of chunk: appends symbols to an empty block until it holds k
        of them or a read finds no data, in which case the handle is closed. */
    method FillBlock(empty: SourceBlock) returns (b: SourceBlock, eof: bool)
      requires Valid() && !closed && empty.symbols == []
      requires pos % blockSize == 0
      modifies this`pos, this`closed, file`bytes
      ensures Valid()
      ensures b.id == empty.id && b.padding == empty.padding
      ensures eof <==> old(pos) == fileSize + padding
      ensures eof ==> closed && b.symbols == [] && pos == old(pos)
      ensures !eof ==>
        && !closed && Full(b) && pos == old(pos) + blockSize
        && Join(b.symbols) == PaddedContents()[old(pos)..pos]
    {
      PaddingBounds(fileSize, blockSize);
      ghost var start := pos;
      if start < fileSize + padding {
        AlignedStep(start, fileSize + padding, blockSize);
      }
      b := empty;
      var j := 0;
      eof := false;
      while j < k && !eof
        invariant Valid()
        invariant j <= k && |b.symbols| == j
        invariant b.id == empty.id && b.padding == empty.padding
        invariant start <= pos && pos == start + j * symbolSize
        invariant SymbolsOfSize(b.symbols, symbolSize)
        invariant Join(b.symbols) == PaddedContents()[start..pos]
        invariant eof ==> closed && j == 0 && start == fileSize + padding
        invariant !eof ==> !closed
        invariant start == fileSize + padding ==> j == 0
        decreases k - j, if eof then 0 else 1
      {
        MulStep(j, k, symbolSize);
        MulSucc(j, symbolSize);
        ghost var before := pos;
        var s := Read();
        if s.Some? {
          JoinAppend(b.symbols, s.value);
          SliceSplit(PaddedContents(), start, before, pos);
          SizedAppend(b.symbols, s.value, symbolSize);
          b := b.Append(s.value);
          j := j + 1;
        } else {
          eof := true;
          Close();
        }
      }
      if !eof {
        MulComm(k, symbolSize);
      }
    }

    /** Appending block b, numbered, full and tagged as chunk makes it, to a
        stream that satisfied Streaming keeps it. */
    lemma StreamingAfterBlock(prev: seq<SourceBlock>, b: SourceBlock)
      requires Valid()
      requires forall i :: 0 <= i < |prev| ==> prev[i].id == i && Full(prev[i])
      requires forall i :: 0 <= i < |prev| ==>
                 prev[i].padding == if i == totalBlocks - 1 then padding else 0
      requires b.id == |prev| && Full(b) && b.padding == (if b.id == totalBlocks - 1 then padding else 0)
      requires emitted == prev + [b] && blockId == |emitted|
      requires pos == |emitted| * blockSize && Concat(emitted) == PaddedContents()[..pos]
      ensures Streaming()
    {
    }

    /** Reads one symbol (wordsPerSymbol 64-bit words) at the handle's offset,
        or None when no unread bytes remain. */
    method Read() returns (symbol: Option<seq<bv8>>)
      requires Valid() && !closed
      modifies this`pos
      ensures Valid()
      ensures symbol.None? <==> old(pos) >= fileSize + padding
      ensures symbol.None? ==> pos == old(pos)
      ensures symbol.Some? ==>
        pos == old(pos) + symbolSize && symbol.value == PaddedContents()[old(pos)..pos]
    {
      var difference := fileSize + padding - pos;
      if difference > 0 {
        PaddingBounds(fileSize, blockSize);
        BlockMultipleIsSymbolMultiple(fileSize + padding, symbolSize, k);
        AlignedStep(pos, fileSize + padding, symbolSize);
        MultipleStep(pos, symbolSize);
        assert 8 * wordsPerSymbol == symbolSize;
        symbol := Some(file.bytes[pos..pos + 8 * wordsPerSymbol]);
        pos := pos + 8 * wordsPerSymbol;
      } else {
        symbol := None;
      }
    }

    /** Returns the current block id and advances the counter by one. */
    method GetBlockId() returns (id: nat)
      modifies this`blockId
      ensures id == old(blockId) && blockId == old(blockId) + 1
    {
      id := blockId;
      blockId := blockId + 1;
    }

    /** __exit__ of the context-manager protocol: closes the chunker. */
    method Exit()
      requires Valid()
      modifies this`closed, file`bytes
      ensures Valid() && closed
      ensures file.bytes == original
      ensures old(Streaming()) ==> Streaming()
    {
      Close();
    }

    /** Closes the read handle and truncates the file back to its original
        length; on a handle already closed nothing happens. */
    method Close()
      requires Valid()
      modifies this`closed, file`bytes
      ensures Valid() && closed
      ensures file.bytes == original
      ensures old(closed) ==> file.bytes == old(file.bytes)
      ensures !old(closed) ==> file.bytes == old(file.bytes)[..fileSize]
      ensures old(Streaming()) ==> Streaming()
    {
      if !closed {
        closed := true;
        if padding != 0 {
          file.bytes := file.bytes[..fileSize];
        }
      }
    }
  }

  /** FileChunker(k, symbolsize, filename): the file size is taken, the
      geometry computed and checked, and only then is the file padded. A
      missing file is a null reference. A failure leaves the file untouched. */
  method Create(k: nat, symbolSize: nat, file: File?) returns (r: Result<FileChunker, ChunkerError>)
    modifies file
    ensures var size := if file == null then None else Some(|old(file.bytes)|);
      && (r.Failure? ==> Configure(k, symbolSize, size) == Failure(r.error))
      && (r.Success? ==> Configure(k, symbolSize, size) == Success(Layout(k, symbolSize,
            r.value.blockSize, r.value.fileSize, r.value.totalBlocks, r.value.wordsPerSymbol)))
    ensures r.Failure? && file != null ==> file.bytes == old(file.bytes)
    ensures r.Success? ==>
      && file != null && fresh(r.value) && r.value.file == file
      && r.value.Streaming()
      && r.value.k == k && r.value.symbolSize == symbolSize
      && r.value.original == old(file.bytes)
      && r.value.padding == PaddingFor(r.value.fileSize, r.value.blockSize)
      && file.bytes == old(file.bytes) + Zeros(r.value.padding)
      && r.value.blockId == 0 && r.value.pos == 0 && !r.value.closed && r.value.emitted == []
  {
    var size := if file == null then None else Some(|file.bytes|);
    var layout := Configure(k, symbolSize, size);
    if layout.Failure? {
      return Failure(layout.error);
    }
    var c := new FileChunker(k, symbolSize, file);
    c.LayoutIsConfigured();
    return Success(c);
  }

  /** Once the read cursor reaches the end of the padded file, the blocks
      returned carry the original bytes followed by the padding, in order,
      and there are total_blocks of them, plus one when the original size
      was already a whole number of blocks. */
  lemma ExhaustedStream(c: FileChunker)
    requires c.Streaming() && c.pos == c.fileSize + c.padding
    ensures Concat(c.emitted) == c.original + Zeros(c.padding)
    ensures Concat(c.emitted)[..c.fileSize] == c.original
    ensures |c.emitted| == c.totalBlocks + (if c.fileSize % c.blockSize == 0 then 1 else 0)
  {
    assert |c.PaddedContents()| == c.pos;
    PaddedBlockCount(c.fileSize, c.blockSize);
    DivModUnique(c.pos, c.blockSize, |c.emitted|, 0);
  }

  /** Where the padding ends up and which block records it. When the
      original size is not a whole number of blocks, the last block is number
      total_blocks - 1, records the padding, and ends in that many zero bytes.
      When it is, the last block is an extra all-zero block numbered
      total_blocks that records no padding. */
  lemma LastBlock(c: FileChunker)
    requires c.Streaming() && c.pos == c.fileSize + c.padding
    ensures |c.emitted| > 0
    ensures var last := c.emitted[|c.emitted| - 1];
      && |Join(last.symbols)| == c.blockSize
      && Join(last.symbols)[c.blockSize - c.padding..] == Zeros(c.padding)
      && (c.fileSize % c.blockSize != 0 ==> last.id == c.totalBlocks - 1 && last.padding == c.padding)
      && (c.fileSize % c.blockSize == 0 ==> last.id == c.totalBlocks && last.padding == 0)
  {
    ExhaustedStream(c);
    PaddingBounds(c.fileSize, c.blockSize);
    var n := |c.emitted|;
    assert n > 0;
    var prefix := c.emitted[..n - 1];
    var last := c.emitted[n - 1];
    assert c.emitted == prefix + [last];
    ConcatAppend(prefix, last);
    MulComm(c.k, c.symbolSize);
    ConcatLength(prefix, c.k, c.symbolSize);
    MulSucc(n - 1, c.blockSize);
    var p := c.original + Zeros(c.padding);
    var lastStart := (n - 1) * c.blockSize;
    assert Join(last.symbols) == p[lastStart..];
    assert lastStart + c.blockSize == |p|;
    assert c.fileSize <= lastStart + c.blockSize - c.padding;
    assert Join(last.symbols)[c.blockSize - c.padding..] == p[|p| - c.padding..];
  }

  /** When the original size is a whole number of blocks, block
      total_blocks - 1 records a whole block of padding, yet its bytes are the
      last blocksize bytes of the original file: it holds no padding at all. */
  lemma AlignedPaddingTag(c: FileChunker)
    requires c.Streaming() && c.pos == c.fileSize + c.padding
    requires c.fileSize % c.blockSize == 0 && c.totalBlocks > 0
    ensures |c.emitted| == c.totalBlocks + 1
    ensures c.totalBlocks * c.blockSize == c.fileSize && c.blockSize <= c.fileSize
    ensures var tagged := c.emitted[c.totalBlocks - 1];
      && tagged.padding == c.blockSize
      && Join(tagged.symbols) == c.original[c.fileSize - c.blockSize..]
  {
    var n, b := c.totalBlocks - 1, c.blockSize;
    ExhaustedStream(c);
    PaddingBounds(c.fileSize, b);
    AlignedBlockCount(c.fileSize, b);
    var tagged := c.emitted[n];
    BlockSlice(c.emitted, n);
    assert |Concat(c.emitted[..n])| == n * b by {
      MulComm(c.k, c.symbolSize);
      ConcatLength(c.emitted[..n], c.k, c.symbolSize);
    }
    assert |Join(tagged.symbols)| == b by {
      MulComm(c.k, c.symbolSize);
      JoinLength(tagged.symbols, c.symbolSize);
    }
    MulSucc(n, b);
    assert Join(tagged.symbols) == Concat(c.emitted)[n * b..c.fileSize];
    assert Concat(c.emitted)[..c.fileSize][n * b..c.fileSize] == Concat(c.emitted)[n * b..c.fileSize];
  }
}
