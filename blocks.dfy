/** The source block the chunker hands to the encoder, and the byte stream
    that a sequence of blocks carries. */
module Blocks {
  import opened Geometry

  /** A source block: its position in the stream, the symbols appended to it
      so far (each a run of bytes), and the padding count recorded on it. */
  datatype SourceBlock = SourceBlock(id: nat, symbols: seq<seq<bv8>>, padding: nat) {

    /** Source.append: one more symbol at the end; id and padding are kept. */
    function Append(symbol: seq<bv8>): SourceBlock {
      this.(symbols := symbols + [symbol])
    }
  }

  /** A fresh, empty block with the given id and no padding recorded. */
  function EmptyBlock(id: nat): SourceBlock {
    SourceBlock(id, [], 0)
  }

  /** The bytes of a sequence of symbols, in order. */
  function Join(symbols: seq<seq<bv8>>): seq<bv8> {
    if symbols == [] then [] else symbols[0] + Join(symbols[1..])
  }

  /** The bytes carried by a sequence of blocks, in order. */
  function Concat(blocks: seq<SourceBlock>): seq<bv8> {
    if blocks == [] then [] else Join(blocks[0].symbols) + Concat(blocks[1..])
  }

  /** Every symbol is w bytes long. */
  predicate SymbolsOfSize(symbols: seq<seq<bv8>>, w: nat) {
    forall i :: 0 <= i < |symbols| ==> |symbols[i]| == w
  }

  lemma SizedAppend(symbols: seq<seq<bv8>>, symbol: seq<bv8>, w: nat)
    requires SymbolsOfSize(symbols, w) && |symbol| == w
    ensures SymbolsOfSize(symbols + [symbol], w)
  {
  }

  /** Appending a symbol appends its bytes. */
  lemma {:induction false} JoinAppend(symbols: seq<seq<bv8>>, symbol: seq<bv8>)
    ensures Join(symbols + [symbol]) == Join(symbols) + symbol
  {
    if symbols == [] {
      assert [] + [symbol] == [symbol];
    } else {
      assert (symbols + [symbol])[1..] == symbols[1..] + [symbol];
      JoinAppend(symbols[1..], symbol);
    }
  }

  /** n symbols of w bytes each join to n * w bytes. */
  lemma {:induction false} JoinLength(symbols: seq<seq<bv8>>, w: nat)
    requires SymbolsOfSize(symbols, w)
    ensures |Join(symbols)| == |symbols| * w
  {
    if symbols != [] {
      JoinLength(symbols[1..], w);
    }
  }

  /** Blocks of k symbols of w bytes each carry |blocks| * (k * w) bytes. */
  lemma {:induction false} ConcatLength(blocks: seq<SourceBlock>, k: nat, w: nat)
    requires forall i :: 0 <= i < |blocks| ==> |blocks[i].symbols| == k && SymbolsOfSize(blocks[i].symbols, w)
    ensures |Concat(blocks)| == |blocks| * (k * w)
  {
    if blocks != [] {
      JoinLength(blocks[0].symbols, w);
      ConcatLength(blocks[1..], k, w);
      MulSucc(|blocks| - 1, k * w);
    }
  }

  /** Appending a block appends the bytes of its symbols. */
  lemma {:induction false} ConcatAppend(blocks: seq<SourceBlock>, block: SourceBlock)
    ensures Concat(blocks + [block]) == Concat(blocks) + Join(block.symbols)
  {
    if blocks == [] {
      assert [] + [block] == [block];
      assert [block][1..] == [];
    } else {
      assert (blocks + [block])[1..] == blocks[1..] + [block];
      ConcatAppend(blocks[1..], block);
    }
  }

  /** The bytes of a stream split where its blocks do. */
  lemma {:induction false} ConcatSplit(blocks: seq<SourceBlock>, i: nat)
    requires i <= |blocks|
    ensures Concat(blocks) == Concat(blocks[..i]) + Concat(blocks[i..])
    decreases i
  {
    if i == 0 {
      assert blocks[..0] == [] && blocks[0..] == blocks;
    } else {
      ConcatSplit(blocks[1..], i - 1);
      assert blocks[1..][..i - 1] == blocks[..i][1..];
      assert blocks[1..][i - 1..] == blocks[i..];
      assert blocks[..i][0] == blocks[0];
    }
  }

  /** Block i carries the bytes of the stream that follow those of blocks 0 .. i - 1. */
  lemma BlockSlice(blocks: seq<SourceBlock>, i: nat)
    requires i < |blocks|
    ensures |Concat(blocks[..i])| + |Join(blocks[i].symbols)| <= |Concat(blocks)|
    ensures var start := |Concat(blocks[..i])|;
      Join(blocks[i].symbols) == Concat(blocks)[start..start + |Join(blocks[i].symbols)|]
  {
    ConcatSplit(blocks, i);
    assert blocks[i..][1..] == blocks[i + 1..];
    assert Concat(blocks[i..]) == Join(blocks[i].symbols) + Concat(blocks[i + 1..]);
  }
}
