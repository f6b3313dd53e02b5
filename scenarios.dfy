/** A session over a small file and a refused configuration, showing what a caller can conclude from
    the contracts of Create, Chunk and Close alone. */
module Scenarios {
  import opened Wrappers
  import opened Geometry
  import opened Blocks
  import opened Chunker

  /** A 10-byte file with k = 2 and 8-byte symbols: one block of two symbols
      recording 6 bytes of padding, then end of stream, then the file is
      back to its 10 bytes; a second close changes nothing. */
  method TenByteFile(data: seq<bv8>)
    requires |data| == 10
  {
    var f := new File(data);
    var r := Create(2, 8, f);
    assert r.Success?;
    var c := r.value;
    assert fresh(c) && c.file == f;
    assert c.blockSize == 16 && c.totalBlocks == 1 && c.padding == 6;
    assert |f.bytes| == 16;

    var first := c.Chunk();
    assert first.Some? && first.value.id == 0 && first.value.padding == 6;
    assert |first.value.symbols| == 2;
    assert Join(first.value.symbols) == data + Zeros(6);

    var second := c.Chunk();
    assert second.None? && c.closed;
    assert f.bytes == data;

    c.Close();
    assert f.bytes == data;
  }

  /** A symbol size of 7 is refused before the file is touched. */
  method SevenByteSymbols(data: seq<bv8>) {
    var f := new File(data);
    var r := Create(2, 7, f);
    assert r == Failure(InvalidSymbolSize);
    assert f.bytes == data;
  }
}
