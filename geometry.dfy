/** The pure arithmetic of the chunker: block size, block count, padding
    size, and the validation the constructor performs before touching the file. */
module Geometry {
  import opened Wrappers

  /** The exceptions FileChunker's constructor can raise before any padding is written. */
  datatype ChunkerError =
    | FileAccess          // os.path.getsize fails: the file does not exist
    | DivisionByZero      // blocksize == 0 makes the block-count division fail
    | InvalidSymbolSize   // the symbol size is not a multiple of 8 bytes

  /** The fields FileChunker.__init__ derives from its arguments and the file size. */
  datatype Layout = Layout(
    k: nat,               // symbols per block
    symbolSize: nat,      // bytes per symbol
    blockSize: nat,       // bytes per block
    fileSize: nat,        // original length of the file in bytes
    totalBlocks: nat,     // blocks needed to cover the original bytes
    wordsPerSymbol: nat   // 64-bit words read per symbol
  )

  /** Integer ceiling of n / d. */
  function CeilDiv(n: nat, d: nat): nat
    requires d > 0
  {
    (n + d - 1) / d
  }

  /** The number of zero bytes the chunker appends to the file, as written:
      a file that is already a whole number of blocks still gets a whole block. */
  function PaddingFor(fileSize: nat, blockSize: nat): nat
    requires blockSize > 0
  {
    blockSize - fileSize % blockSize
  }

  /** True when appending p zero bytes makes the file a whole number of blocks. */
  predicate CompletesBlock(fileSize: nat, p: nat, blockSize: nat)
    requires blockSize > 0
  {
    (fileSize + p) % blockSize == 0
  }

  /** Reference definition: the least number of zero bytes that makes the
      file a whole number of blocks (see MinimalPaddingIsLeast). */
  function MinimalPadding(fileSize: nat, blockSize: nat): nat
    requires blockSize > 0
  {
    if fileSize % blockSize == 0 then 0 else blockSize - fileSize % blockSize
  }

  lemma MinimalPaddingIsLeast(fileSize: nat, blockSize: nat)
    requires blockSize > 0
    ensures MinimalPadding(fileSize, blockSize) < blockSize
    ensures CompletesBlock(fileSize, MinimalPadding(fileSize, blockSize), blockSize)
    ensures forall q: nat :: q < MinimalPadding(fileSize, blockSize) ==> !CompletesBlock(fileSize, q, blockSize)
  {
    var r := fileSize % blockSize;
    if r != 0 {
      PaddingBounds(fileSize, blockSize);
      forall q: nat | q < blockSize - r ensures !CompletesBlock(fileSize, q, blockSize) {
        ModOfShift(fileSize, q, blockSize);
      }
    }
  }

  /** Adding q to n, with n % d + q still below d, adds q to the remainder. */
  lemma ModOfShift(n: nat, q: nat, d: nat)
    requires d > 0 && n % d + q < d
    ensures (n + q) % d == n % d + q
  {
    var m := n / d;
    assert n == m * d + n % d;
    assert n + q == m * d + (n % d + q);
    DivModUnique(n + q, d, m, n % d + q);
  }

  /** n == m * d + r with 0 <= r < d determines quotient and remainder. */
  lemma DivModUnique(n: nat, d: nat, m: nat, r: nat)
    requires d > 0 && r < d && n == m * d + r
    ensures n / d == m && n % d == r
  {
    MulStep(n / d, m, d);
    MulStep(m, n / d, d);
  }

  /** A larger multiplier gives a product at least one d larger. */
  lemma {:induction false} MulStep(a: nat, b: nat, d: nat)
    ensures a < b ==> a * d + d <= b * d
    decreases b
  {
    if a + 1 < b {
      MulStep(a, b - 1, d);
      assert (b - 1) * d + d == b * d;
    } else if a + 1 == b {
      assert (a + 1) * d == a * d + d;
    }
  }

  /** total_blocks is the least n with n * blockSize >= fileSize. */
  lemma CeilDivIsLeast(n: nat, d: nat)
    requires d > 0
    ensures CeilDiv(n, d) * d >= n
    ensures CeilDiv(n, d) == 0 || (CeilDiv(n, d) - 1) * d < n
  {
    var q, r := (n + d - 1) / d, (n + d - 1) % d;
    assert n + d - 1 == q * d + r;
    assert q * d == n + d - 1 - r;
    if q > 0 {
      assert (q - 1) * d == q * d - d;
    }
  }

  /** Padding as written lies in (0, blockSize], completes a whole number of
      blocks, and is a whole block exactly when the file already was one. */
  lemma PaddingBounds(fileSize: nat, blockSize: nat)
    requires blockSize > 0
    ensures 0 < PaddingFor(fileSize, blockSize) <= blockSize
    ensures (fileSize + PaddingFor(fileSize, blockSize)) % blockSize == 0
    ensures PaddingFor(fileSize, blockSize) == blockSize <==> fileSize % blockSize == 0
  {
    var m, r := fileSize / blockSize, fileSize % blockSize;
    assert fileSize + PaddingFor(fileSize, blockSize) == (m + 1) * blockSize + 0;
    DivModUnique(fileSize + PaddingFor(fileSize, blockSize), blockSize, m + 1, 0);
  }

  /** Padding as written exceeds the minimal padding by one whole block when the
      file is already block-aligned, and equals it otherwise. */
  lemma PaddingVersusMinimal(fileSize: nat, blockSize: nat)
    requires blockSize > 0
    ensures PaddingFor(fileSize, blockSize) ==
            MinimalPadding(fileSize, blockSize) + (if fileSize % blockSize == 0 then blockSize else 0)
  {
  }

  /** Number of whole blocks in the padded file: total_blocks, plus one
      all-zero block when the original file is already block-aligned. */
  lemma PaddedBlockCount(fileSize: nat, blockSize: nat)
    requires blockSize > 0
    ensures (fileSize + PaddingFor(fileSize, blockSize)) / blockSize ==
            CeilDiv(fileSize, blockSize) + (if fileSize % blockSize == 0 then 1 else 0)
  {
    var m, r := fileSize / blockSize, fileSize % blockSize;
    DivModUnique(fileSize + PaddingFor(fileSize, blockSize), blockSize, m + 1, 0);
    if r == 0 {
      DivModUnique(fileSize + blockSize - 1, blockSize, m, blockSize - 1);
    } else {
      DivModUnique(fileSize + blockSize - 1, blockSize, m + 1, r - 1);
    }
  }

  /** A block-aligned file is exactly total_blocks blocks long. */
  lemma AlignedBlockCount(fileSize: nat, blockSize: nat)
    requires blockSize > 0 && fileSize % blockSize == 0
    ensures CeilDiv(fileSize, blockSize) * blockSize == fileSize
  {
    var m := fileSize / blockSize;
    assert fileSize == m * blockSize;
    DivModUnique(fileSize + blockSize - 1, blockSize, m, blockSize - 1);
  }

  /** A multiple of the block size is a multiple of the symbol size. */
  lemma BlockMultipleIsSymbolMultiple(n: nat, symbolSize: nat, k: nat)
    requires symbolSize * k > 0 && n % (symbolSize * k) == 0
    ensures n % symbolSize == 0
  {
    var m := n / (symbolSize * k);
    assert n == m * (symbolSize * k);
    assert n == (m * k) * symbolSize + 0;
    DivModUnique(n, symbolSize, m * k, 0);
  }

  /** Below a multiple b of d, the next multiple of d after a still fits. */
  lemma AlignedStep(a: nat, b: nat, d: nat)
    requires d > 0 && a % d == 0 && b % d == 0 && a < b
    ensures a + d <= b
  {
    assert a == (a / d) * d;
    assert b == (b / d) * d;
    MulStep(a / d, b / d, d);
    MulStep(b / d, a / d, d);
  }

  /** One more d keeps a multiple of d a multiple of d. */
  lemma MultipleStep(a: nat, d: nat)
    requires d > 0 && a % d == 0
    ensures (a + d) % d == 0
  {
    assert a == (a / d) * d;
    assert a + d == (a / d + 1) * d + 0;
    DivModUnique(a + d, d, a / d + 1, 0);
  }

  /** (a + 1) * d == a * d + d. */
  lemma MulSucc(a: nat, d: nat)
    ensures (a + 1) * d == a * d + d
  {
  }

  lemma MulComm(a: nat, b: nat)
    ensures a * b == b * a
  {
  }

  /** The constructor's validation and derived fields, in the order the source
      evaluates them: the file size is read first, then the block count is
      divided out (failing on a zero block size), then the symbol size is checked. */
  function Configure(k: nat, symbolSize: nat, fileSize: Option<nat>): (r: Result<Layout, ChunkerError>)
    ensures fileSize.None? ==> r == Failure(FileAccess)
    ensures fileSize.Some? && symbolSize * k == 0 ==> r == Failure(DivisionByZero)
    ensures fileSize.Some? && symbolSize * k > 0 && symbolSize % 8 != 0 ==> r == Failure(InvalidSymbolSize)
    ensures r.Success? <==> fileSize.Some? && symbolSize * k > 0 && symbolSize % 8 == 0
    ensures r.Success? ==>
      && r.value.k == k && r.value.symbolSize == symbolSize
      && r.value.blockSize == symbolSize * k
      && r.value.fileSize == fileSize.value
      && r.value.totalBlocks * r.value.blockSize >= fileSize.value
      && (r.value.totalBlocks == 0 || (r.value.totalBlocks - 1) * r.value.blockSize < fileSize.value)
      && 8 * r.value.wordsPerSymbol == symbolSize
  {
    match fileSize
    case None => Failure(FileAccess)
    case Some(size) =>
      var blockSize := symbolSize * k;
      if blockSize == 0 then Failure(DivisionByZero)
      else if symbolSize % 8 != 0 then Failure(InvalidSymbolSize)
      else
        CeilDivIsLeast(size, blockSize);
        Success(Layout(k, symbolSize, blockSize, size, CeilDiv(size, blockSize), symbolSize / 8))
  }
}
