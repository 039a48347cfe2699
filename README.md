# fvecs reader and sign-bit packers, modelled in Dafny

This project models two pieces of the CodeHub sources.

- `FvecsReader` (FvecsReader.h) reads `.fvecs` files. Such a file is a
  sequence of records. Each record is a 4-byte unsigned dimension `dim`
  followed by `dim` 4-byte float components. The reader learns `dim` from
  the header of record 0 and the file size when it opens. It then keeps a
  cursor `_cur_pos` (in points) beside the byte position of its file stream,
  and serves:
  - counted reads `read(n)`;
  - range reads `read(a, b)`;
  - read-the-rest `read()`;
  - `rewind()`.
  Every read strips the per-record headers and returns `dim` components per
  point.
- `gen64_bitset` and `gen64` (bitop.cc) pack the signs of a float vector
  into 64-bit words. Bit `i` of word `k` is set when input `64k + i` is
  positive. The two functions do this in two different ways.

Files:

- `wrappers.dfy`: `Option` and `Result`.
- `arith.dfy` (module `Arith`): the unsigned products, quotients and
  remainders of byte offsets and counts, defined by repeated addition and
  subtraction. Their
  algebra is proved once here. `MulIsProduct` and `QuotientIsDivision` tie
  them to `*`, `/` and `%`.
- `vec_file.dfy` (module `VecFile`): the file layout. It defines:
  - the header dimension, the record size and the point count;
  - `Points`, what the points of a file are, read straight from its bytes;
  - `Decode`, what the header-dropping loop of `read` computes from the
    words it has read.
  It also proves that the decoding of the bytes of whole records is exactly
  those points.
- `fvecs_reader.dfy` (module `FvecsReading`):
  - `CountedRead`, the specification of `read(n)` as a function of the file,
    the cursor and the stream position, with its properties as lemmas;
  - the `FvecsReader` class, whose methods update the cursor and the stream
    position and are proved against `CountedRead`;
  - the call sequence of the demo program.
- `bitop.dfy` (module `BitOp`): a reference packing `Pack` and the two
  packers as loops, each proved equal to `Pack`.

The class keeps an invariant `Valid()`:
- the metadata is what the file determines;
- `curPos <= n`;
- the stream is either at the start of record `curPos` (`Synced()`) or at
  the end of the file.

The second state arises only after a read that failed with
`MisalignedRead`. Every error the source throws (`FR_REQUIRED`) is a `Failure` of
`ReaderError`.

## Model

| member | source | states |
|---|---|---|
| Arith.Quotient | FvecsReader.h:41 | `x / m` on unsigned values: `q` whole `m`s fit in `x` and `q + 1` do not |
| Arith.Remainder | FvecsReader.h:123 | `x % m` is below `m` and makes up `x` together with the whole `m`s |
| Arith.QuotientIsDivision | FvecsReader.h:41 | the quotient and remainder are exactly `/` and `%` |
| Arith.MulIsProduct | FvecsReader.h:40 | the product of offsets is exactly `*` |
| VecFile.HeaderDim | FvecsReader.h:116-118 | the dimension is the unsigned 32-bit value in the first 4 bytes (below 2^32) |
| VecFile.RecordSize | FvecsReader.h:40 | `_sz_each` computed without wrap-around is at least 4, so the point count is always defined |
| VecFile.RecordSizeAsWrittenAgrees | FvecsReader.h:40 | the source's 32-bit `(1 + _dim) * sizeof(float)` equals the exact record size for every header below 0xFFFFFFFF |
| VecFile.RecordSizeAsWrittenVanishes | FvecsReader.h:40-41 | for the header 0xFFFFFFFF the source's record size is 0, which `_size / _sz_each` then divides by, while the exact size is 2^34 |
| VecFile.NumRecords | FvecsReader.h:41 | `_n` whole records fit in the file and `_n + 1` do not: trailing bytes are not counted |
| VecFile.RecordsFit | FvecsReader.h:41 | record `j` starts within the file exactly when `j <= _n` |
| VecFile.WholeRecords | FvecsReader.h:41 | a file of exactly `count` records has `_n == count` and no trailing bytes |
| VecFile.SeekGuardHolds | FvecsReader.h:92-95 | the offset `a * _sz_each` of an existing point passes `_seekTo`'s guard and maps back to point `a` |
| VecFile.AlignedOffset | FvecsReader.h:122-127 | an in-file offset passing `_seekTo`'s guard is the start of record `pos / _sz_each`, which is at most `_n` |
| VecFile.TrailingBytes | FvecsReader.h:66-69 | the bytes after `c` whole records hold `_n - c` records and leave the file's own remainder: a short read from a record boundary is misaligned exactly when the file has trailing bytes |
| VecFile.Words | FvecsReader.h:57-68 | the bytes a read delivers, viewed as the floats of `buf`, are whole words only, as many as the byte count divided by 4: a final partial word is dropped, as `buf.resize(read_sz / sizeof(float))` drops it |
| VecFile.RequestBytes | FvecsReader.h:56-58 | `read(n)` asks for exactly the bytes of `n` records |
| VecFile.Points | FvecsReader.h:72-78 | `count` points are `count * dim` components |
| VecFile.PointsOne | FvecsReader.h:84-101 | a range of one point is that point |
| VecFile.PointsTwo | FvecsReader.h:84-101 | a range of two points is the first followed by the second |
| VecFile.PointsAt | FvecsReader.h:72-78 | component `k` of the `q`-th point of a range is at index `q * dim + k` and comes from byte `4 + 4k` of its record |
| VecFile.Decode | FvecsReader.h:72-78 | decoding `count` records yields `count * dim` components |
| VecFile.DecodeNext | FvecsReader.h:74-77 | while components remain, one more record remains, and decoding it appends the `dim` words after its header |
| VecFile.DecodeDone | FvecsReader.h:74 | once `count * dim` components are decoded, the decoding is complete |
| VecFile.DecodeAt | FvecsReader.h:73-78 | decoding drops each header: output `i * dim + k` is buffer word `i * (1 + dim) + 1 + k` |
| VecFile.DecodeRecords | FvecsReader.h:55-78 | decoding the bytes of `count` whole records from record `lo` gives exactly the points `lo .. lo + count - 1` |
| VecFile.ReadPastEnd | FvecsReader.h:58-69 | asking for more records than remain runs into the end of the file; what was read holds the remaining records and the file's trailing bytes |
| VecFile.ReadToEnd | FvecsReader.h:58-78 | without trailing bytes, the bytes from record `c` to the end decode to every point from `c` on |
| FvecsReading.DecodeBuffer | FvecsReader.h:72-78 | the nested copy loop computes `Decode`, headers dropped |
| FvecsReading.ReadInside | FvecsReader.h:55-81 | a counted read whose records all exist reads every byte it asks for, ends at record `c + count`, and returns those points |
| FvecsReading.ReadOverrun | FvecsReader.h:58-70 | a counted read past the last record stops at the end of the file, reads `_n - c` records (`true_n = gcount / _sz_each`) and is aligned exactly when the file is |
| FvecsReading.ReadAtEnd | FvecsReader.h:56-70 | a read at the end of the file reads no bytes and counts no records |
| FvecsReading.CountedRead | FvecsReader.h:55-81 | the functional model of `read(n)`: the result, the new `_cur_pos` and the new stream position. It has no `ensures` of its own; its promises are proved in CountedReadAdvances, CountedReadFromRecord, CountedReadAtEnd and CountedReadKeeps |
| FvecsReading.CountedReadAdvances | FvecsReader.h:60-72 | a counted read moves the cursor forward by at most the count, returns `dim` components per point it passes, and a misaligned read moves no point |
| FvecsReading.CountedReadFromRecord | FvecsReader.h:55-81 | from record `c`: all requested points when they exist; otherwise a misaligned-read error when the file has trailing bytes, else every point from `c` on with the cursor at `_n` |
| FvecsReading.CountedReadAtEnd | FvecsReader.h:56-72 | from the end of the file a read returns nothing and moves neither the cursor nor the stream |
| FvecsReading.CountedReadKeeps | FvecsReader.h:55-81 | a counted read keeps the reader's invariant: cursor at most `_n`, stream at the cursor's record or the end of the file |
| FvecsReading.ReadAt | FvecsReader.h:55-81 | the body of `read(n)` (short read, misaligned check, `true_n`, decoding loop) computes `CountedRead` |
| FvecsReading.FvecsReader.constructor | FvecsReader.h:35 | the member initialisers: the stream at byte 0 and `_cur_pos == 0` |
| FvecsReading.FvecsReader.Open | FvecsReader.h:35-42 | an unopenable file and one too short for the header fail; otherwise cursor 0, `_sz_each == (1 + dim) * 4` and `_n` whole records, `_n + 1` not |
| FvecsReading.FvecsReader.GetSize | FvecsReader.h:132-136 | `_size` is the file length and the stream is back at byte 0 |
| FvecsReading.FvecsReader.GetDim | FvecsReader.h:116-120 | the header is read exactly when the file has 4 bytes, and the stream returns to byte 0 |
| FvecsReading.FvecsReader.PointDimension | FvecsReader.h:48 | the dimension is the header of record 0 |
| FvecsReading.FvecsReader.NumPoints | FvecsReader.h:52 | `numPoints()` whole records fit and one more does not |
| FvecsReading.FvecsReader.ReadCount | FvecsReader.h:55-81 | `read(n)` moves the cursor and stream as `CountedRead` does and keeps the invariant; from a synced reader whose points exist it returns them and advances the cursor by `n` |
| FvecsReading.FvecsReader.ReadRange | FvecsReader.h:84-101 | `b <= a` throws; `a >= _n` returns nothing and changes nothing; otherwise it returns the points `a .. min(b, _n) - 1` and the cursor ends at `min(b, _n)` |
| FvecsReading.FvecsReader.SeekToPoint | FvecsReader.h:92-96 | the seek to an existing point always succeeds, so the `return {}` after a failed seek is unreachable |
| FvecsReading.FvecsReader.ReadAll | FvecsReader.h:104-107 | `numPoints() - _cur_pos` never underflows; a synced reader returns every remaining point and ends at `_n` |
| FvecsReading.FvecsReader.Rewind | FvecsReader.h:109-112 | the stream is at byte 0 and the cursor at 0 |
| FvecsReading.FvecsReader.SeekTo | FvecsReader.h:122-129 | succeeds exactly when the offset is in the file and on a record boundary, then sets `_cur_pos = pos / _sz_each`; otherwise changes nothing |
| FvecsReading.DemoScenario | FvecsReaderDemo.cc:16-70 | on a file of `N >= 2` points without trailing bytes, every result the demo prints or asserts is what its comments expect |
| FvecsReading.DemoFirstReads | FvecsReaderDemo.cc:20-42 | the first two single reads are points 0 and 1, and `read(0, 2)` is both of them |
| FvecsReading.DemoRangeReads | FvecsReaderDemo.cc:43-55 | `read(N + 1, N + 2)` is empty, the next single read is point 1, and `read(N - 1, 10N - 10)` is clamped to one point |
| FvecsReading.DemoTailReads | FvecsReaderDemo.cc:57-70 | after `rewind()` the next point is point 0; `read(100)` from the last point returns exactly one point |
| BitOp.Pack | bitop.cc:53-56 | the packing has `|x| / 64` words; a tail shorter than 64 is dropped |
| BitOp.PackBit | bitop.cc:57-65 | bit `t` of word `k` is set exactly when input `64k + t` is positive |
| BitOp.PackBlock | bitop.cc:56-66 | word `k` depends on block `x[64k .. 64k + 63]` and on nothing else |
| BitOp.Gen64Bitset | bitop.cc:53-69 | `gen64_bitset`, setting bit `i` directly, computes `Pack` |
| BitOp.Gen64 | bitop.cc:71-89 | `gen64`, ORing in bit 63 and shifting right after all but the last input, computes `Pack` |
| BitOp.PackersAgree | bitop.cc:91-115 | the two packers' outputs, which the program writes to two files for comparison, are equal on every input |

## Left out

- I/O is modelled by the file's contents. An unopenable file is an `Option` that is `None`. The stream is its byte position; `gcount()` is the number of bytes a read delivers.
- The stream's sticky error state is not modelled. A read that runs past the end of the file sets `failbit`, and the source never clears it, so in the source every later `seekg` (including `rewind()` and `_seekTo`) is ignored. The model instead lets a later seek or rewind reposition the stream. The model's other reads from the end of the file return nothing, as the source's do.
- Components are kept as their raw 4 bytes (`VecFile.Word`). Their IEEE-754 value and the `static_cast<T>` to the caller's type are not modelled.
- The header is read in little-endian byte order, the order of the machines the source targets. A big-endian host is not modelled.
- `size_t` arithmetic is modelled without wrap-around. For `a * _sz_each` in `read(a, b)` this loses nothing, because `a < _n` there and the product is at most the file size.
- FvecsReading.CountedRead: a caller-supplied count `n` in `read(n)` is not bounded. In the source, `n * (1 + _dim)` (FvecsReader.h:56) wraps once that product itself reaches 2^64; after that, `true_n * _dim` (:73) can wrap too, and a read that succeeds sets `true_n = n` and moves `_cur_pos` past `_n`. For smaller requests whose buffer cannot be allocated, `std::vector<float> buf(sz)` (:57) throws `std::length_error` or `std::bad_alloc`, so `sz * sizeof(float)` (:58) is never reached with a wrapped size. The model computes the exact request and returns the short read of the remaining points in all of these cases.
- Zero-length reads (`read(0)` indexes `&buf[0]` of an empty vector) are modelled as returning nothing.
- The messages carried by `FvecsReaderException` are not modelled; the error cases are the `ReaderError` values.
- BitOp.Gen64Bitset: `gid` is a 32-bit `unsigned` in the source; the model does not wrap it, which matters only for inputs of 2^32 elements or more.
- BitOp.Gen64: same 32-bit `gid` caveat as Gen64Bitset.
- BitOp: an input is modelled by the truth of `x[i] > 0`. The float values, NaN included (for which `> 0` is false), play no other part.
- BvecsReader.h is not part of this model. BvecsReaderDemo.cc:41-44, 53-54 and 68-69 run the same call sequence (with N = 10000) against it; `DemoScenario` states that sequence for `FvecsReader`.
- Not modelled, because they are outside the reader and the packers: `genUniformData` (random data), benchEigen.cc, the timing in bitop.cc's `main`, and the demo programs' printing.

## Findings

| source | as written | input that shows it | evidently intended | confidence | as-written member | corrected member |
|---|---|---|---|---|---|---|
| FvecsReader.h:40-41 | `(1 + _dim)` is a 32-bit `unsigned` sum, so `_sz_each` wraps to 0 and `_n = _size / _sz_each` divides by zero | a file whose first 4 bytes are FF FF FF FF | the record size `4 * (1 + dim)` computed in `size_t`, which is never 0 | not executed | VecFile.RecordSizeAsWrittenVanishes | VecFile.RecordSize |
