# FileChunker, modelled in Dafny

velopyraptor's `FileChunker` prepares a file for an erasure encoder. It cuts the
file into source blocks of `k` symbols of `symbolsize` bytes each. On
construction it derives the geometry and rejects a symbol size that is not a
multiple of 8. It then appends zero bytes so that the file becomes a whole number
of blocks. `chunk` streams the padded file back one block at a time. Each
block gets the next id from a counter. The block numbered `total_blocks - 1`
records the padding count. When the data runs out, the read handle is closed and
`chunk` returns `None`. `close` truncates the file back to its original length.

The model has four modules:

- `Wrappers`: `Option` and `Result`.
- `Geometry`: the pure arithmetic. It defines the block count (`CeilDiv`), the
  padding as the source computes it (`PaddingFor`), and the constructor's
  validation in the order the source performs it (`Configure`). A reference
  definition of the least padding (`MinimalPadding`) sits beside them.
- `Blocks`: the `SourceBlock` value (id, symbols, padding) and the bytes that a
  list of blocks carries (`Join`, `Concat`).
- `Chunker`: two classes. `File` is the file on disk, holding its bytes.
  `FileChunker` holds the geometry as constants and the mutable state as fields:
  the block-id counter, the read offset, the closed flag and the padding. A
  ghost `original` records the file's bytes at construction. A ghost `emitted`
  lists every block returned so far. `Valid()` is the object invariant. It
  covers the geometry, the symbol-aligned offset, and the file being padded
  while open and restored once closed. `Streaming()` adds the stream invariant:
  the blocks so far are numbered 0, 1, …, are full, carry exactly the padded
  bytes read so far, and only block `total_blocks - 1` records padding.
  `Create` plays the constructor call, including its exceptions.

`scenarios.dfy` holds one session over a 10-byte file (k = 2, 8-byte symbols)
and one refused symbol size of 7. Both are stated as a caller would see them
through the contracts.

### Block-aligned files

One might expect a file whose size is already a whole number of blocks to get
no padding, and its stream to end at id `total_blocks - 1`. Line 65 instead
computes `blocksize - filesize % blocksize`, which is a whole block for an
aligned file. The model follows the code.

- `PaddingBounds` proves that the padding lies in `(0, blocksize]`. It equals
  `blocksize` exactly when the file is aligned.
- `PaddingVersusMinimal` proves that it exceeds the least padding by one block
  in that case, and equals it otherwise.
- `ExhaustedStream` and `LastBlock` prove that an aligned file's stream carries
  `total_blocks + 1` blocks. The last one is all zeros, has id `total_blocks`
  and records padding 0.
- `AlignedPaddingTag` proves that block `total_blocks - 1` of an aligned,
  non-empty file records `blocksize` bytes of padding. Its bytes are the last
  `blocksize` bytes of the original file, so it holds no padding.
- A 16-byte file with k = 2 and 8-byte symbols gets 16 bytes of padding, not 0. After `close` the file is back to 16 bytes.
- For an empty file, `total_blocks` is 0 and a single all-zero block with id 0
  and padding 0 is produced.

## Model

| member | source | states |
|---|---|---|
| `Geometry.Configure` | chunker.py:34-45 | Construction fails with FileAccess when the file size cannot be read. Otherwise it fails with DivisionByZero when `symbolsize * k == 0`, since the block-count division comes first. Otherwise it fails with InvalidSymbolSize when `symbolsize % 8 != 0`. It succeeds exactly when none of these holds. On success, `blocksize == symbolsize * k`, `total_blocks` is the least n with `n * blocksize >= filesize`, and `8 * ints_to_read == symbolsize`. |
| `Geometry.CeilDivIsLeast` | chunker.py:40 | The integer ceiling of `filesize / blocksize` is the least n with `n * blocksize >= filesize`. |
| `Geometry.PaddingBounds` | chunker.py:65 | `0 < padding <= blocksize`. `(filesize + padding) % blocksize == 0`. `padding == blocksize` iff `filesize % blocksize == 0`. |
| `Geometry.MinimalPaddingIsLeast` | chunker.py:65 | Reference definition: the least non-negative count of zero bytes that completes a block is below `blocksize` and completes a block, and no smaller count does. |
| `Geometry.PaddingVersusMinimal` | chunker.py:65 | The source's padding equals the least padding, plus one whole block when the file is already aligned. |
| `Geometry.PaddedBlockCount` | chunker.py:40-65 | The padded file holds `total_blocks` blocks, plus one when the original size is a multiple of `blocksize`. |
| `Geometry.AlignedBlockCount` | chunker.py:40 | For a block-aligned file, `total_blocks * blocksize == filesize`. |
| `Blocks.JoinAppend` | chunker.py:92 | Appending a symbol to a block appends its bytes to the block's contents. |
| `Blocks.ConcatAppend` | chunker.py:84-105 | Returning one more block appends its bytes to the stream. |
| `Blocks.ConcatLength` | chunker.py:89-93 | Blocks of k symbols of `symbolsize` bytes carry `k * symbolsize` bytes each. |
| `Blocks.ConcatSplit` | chunker.py:84-105 | The stream's bytes are the bytes of its first i blocks followed by those of the rest. |
| `Blocks.BlockSlice` | chunker.py:84-105 | Block i carries the stream's bytes that directly follow the bytes of blocks 0 to i - 1. |
| `Chunker.ExtendStream` | chunker.py:86-105 | A full block read at the current offset extends the stream's bytes by exactly that block and advances the offset by one block. |
| `Chunker.Create` | chunker.py:25-55 | The outcome is Configure's outcome. On failure, the file is untouched. On success, the new chunker is fresh, its geometry is the layout Configure returns, and it satisfies the stream invariant. The file then holds `padding` zero bytes after the unchanged original bytes. The counter is 0, the offset is 0, the handle is open and no block has been produced. |
| `Chunker.FileChunker.constructor` | chunker.py:34-55 | The success path of `__init__`. The fields are set in source order, the file is padded, and the handle starts open at offset 0 with `block_id == 0`. |
| `Chunker.FileChunker.LayoutIsConfigured` | chunker.py:34-45 | Under the object invariant, the chunker's geometry (`k`, `symbolsize`, `blocksize`, `filesize`, `total_blocks`, `ints_to_read`) is exactly the layout `Configure` derives for the original file. |
| `Chunker.FileChunker.PadToEvenBlockSize` | chunker.py:63-72 | Whatever the file's current length, writes zero bytes one at a time. Returns `blocksize - filesize % blocksize` and leaves the file as its previous bytes followed by that many zeros. |
| `Chunker.FileChunker.Read` | chunker.py:107-117 | Returns no data iff `offset >= filesize + padding`, and then leaves the offset unchanged. Otherwise it returns the `ints_to_read` words at the offset, which are exactly `symbolsize` bytes of the padded file, and advances the offset by `symbolsize`. It keeps the offset a multiple of `symbolsize` and within the padded file. |
| `Chunker.FileChunker.GetBlockId` | chunker.py:119-126 | Returns the counter and increments it by exactly 1. |
| `Chunker.FileChunker.FillBlock` | chunker.py:86-96 | The `while j < k and not EOF` loop. From a block-aligned offset it either reads k full symbols, which are the next block of the padded file, or finds no data at once. In that second case the offset was at the end, the handle is now closed and the block is still empty. |
| `Chunker.FileChunker.Chunk` | chunker.py:74-105 | Keeps the stream invariant. On a closed handle it returns None and changes nothing, not even the counter. Otherwise it uses exactly one id. It returns None iff the offset was at the end of the padded file, and then the handle is closed. A returned block has the next id and k symbols of `symbolsize` bytes, and those symbols are the next `blocksize` bytes of the padded file. It records `padding` iff its id is `total_blocks - 1`, and 0 otherwise. |
| `Chunker.FileChunker.Close` | chunker.py:128-140 | Marks the handle closed and truncates the file to `filesize`, so the file holds exactly its original bytes. On a handle already closed, `fsync` fails, the error is swallowed and the file is unchanged. Keeps the stream invariant. |
| `Chunker.FileChunker.Exit` | chunker.py:60-61 | `__exit__` closes the chunker: the file is back to its original bytes and the invariant holds. |
| `Chunker.ExhaustedStream` | chunker.py:74-117 | Once the offset reaches the end of the padded file, the returned blocks carry the original bytes followed by the padding zeros, in order. Their first `filesize` bytes are the original file. There are `total_blocks` of them, plus one when the file was block-aligned. |
| `Chunker.LastBlock` | chunker.py:101-103 | The last block is `blocksize` bytes ending in `padding` zeros. For an unaligned file it has id `total_blocks - 1` and records the padding. For an aligned file it has id `total_blocks` and records 0. |
| `Chunker.AlignedPaddingTag` | chunker.py:101-103 | For a non-empty, block-aligned file, `total_blocks * blocksize == filesize` and the stream has `total_blocks + 1` blocks. Block `total_blocks - 1` records `padding == blocksize`, although its bytes are exactly the last `blocksize` bytes of the original file. |

## Left out

- File-system I/O is not modelled: `os.path.getsize`, `io.open`, `open`, `os.fsync`, `write`, `truncate` and `close` on real handles. The file is a `File` object whose `bytes` the chunker grows and shrinks. A missing file is a null `File?` passed to `Create`. Durability and flushing have no counterpart.
- `numpy.fromfile` decoding and host byte order are not modelled. A symbol is the `symbolsize` bytes that the `ints_to_read` 64-bit words occupy.
- The block count is computed by integer ceiling division. Float rounding of `filesize / (blocksize * 1.0)` on very large files is out of scope.
- `k` and `symbolsize` are natural numbers. The source's behaviour with negative arguments is not modelled.
- The failure to open the read handle after padding (chunker.py:51-55) is not modelled. The source would raise and leave the file padded.
- Exceptions in `close` other than the already-closed handle are not modelled, for example a failing `fsync` or `truncate` on an open handle. The model takes these operations to succeed.
- `SourceBlock` internals are not modelled: block.py is not part of this model. A block keeps only `id`, its symbols (`append`) and `padding`.
- The stream properties of `Chunk` (`Streaming()`) assume that `get_block_id` and `_read` are called only from `chunk`. A direct outside call to either, which Python allows, shifts the ids or the offset, and the model makes no promise about the stream after it.
- Concurrent changes to the file by other processes are not modelled. `Valid()` assumes the chunker has exclusive use of the file for the session.
- The Python 2 `xrange` loop, the unused `bitarray` import, the commented-out 32-bit branch and `__enter__` (which returns the object itself) are not modelled.
