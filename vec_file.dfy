/** The on-disk layout of an `.fvecs` file and what reading it means.

    A file is a sequence of records; record `i` is a 4-byte header holding
    the dimension `dim`, followed by `dim` components of 4 bytes each. Only
    the header of record 0 is ever consulted. Components are kept as their
    raw 4 bytes (`Word`): their IEEE-754 meaning plays no part in the
    reader's logic. */
module VecFile {
  import opened Arith

  newtype Byte = x: int | 0 <= x < 256

  /** One 4-byte unit of the file (a header or a component), as stored. */
  datatype Word = Word(b0: Byte, b1: Byte, b2: Byte, b3: Byte)

  function Min(a: nat, b: nat): nat
  {
    if a <= b then a else b
  }

  function WordAt(bytes: seq<Byte>, off: nat): Word
    requires off + 4 <= |bytes|
  {
    Word(bytes[off], bytes[off + 1], bytes[off + 2], bytes[off + 3])
  }

  /** A byte buffer viewed as consecutive 4-byte words, as `read` sees it by
      reading into a `std::vector<float>`; a final partial word is dropped,
      as `buf.resize(read_sz / sizeof(float))` drops it. */
  function Words(bytes: seq<Byte>): (ws: seq<Word>)
    ensures |ws| == |bytes| / 4
  {
    seq(|bytes| / 4, w requires 0 <= w < |bytes| / 4 => WordAt(bytes, 4 * w))
  }

  /** `_dim`: the header of record 0, an unsigned 32-bit value, read in
      little-endian byte order. */
  function HeaderDim(file: seq<Byte>): (d: nat)
    requires |file| >= 4
    ensures d < 0x1_0000_0000
  {
    file[0] as nat + 0x100 * file[1] as nat + 0x1_0000 * file[2] as nat
      + 0x100_0000 * file[3] as nat
  }

  /** `_sz_each`: the bytes of one record, computed without wrap-around
      (the corrected form of the source's 32-bit sum, see RecordSizeAsWritten).
      It is never zero, so the point count is always defined. */
  function RecordSize(dim: nat): (sz: nat)
    ensures sz >= 4
  {
    4 * (1 + dim)
  }

  /** `(1 + _dim) * sizeof(float)` as the source evaluates it: `1 + _dim` is
      a sum of two 32-bit `unsigned` values and wraps before it is widened. */
  function RecordSizeAsWritten(dim: nat): nat
    requires dim < 0x1_0000_0000
  {
    ((1 + dim) % 0x1_0000_0000) * 4
  }

  /** The two agree on every header except the largest one. */
  lemma RecordSizeAsWrittenAgrees(dim: nat)
    requires dim < 0xFFFF_FFFF
    ensures RecordSizeAsWritten(dim) == RecordSize(dim)
  {
  }

  /** For the header 0xFFFFFFFF the record size as written is 0, so the
      point count `_size / _sz_each` divides by zero. */
  lemma RecordSizeAsWrittenVanishes()
    ensures RecordSizeAsWritten(0xFFFF_FFFF) == 0
    ensures RecordSize(0xFFFF_FFFF) == 0x4_0000_0000
  {
  }

  /** `_n`: the number of whole records; trailing bytes that do not form a
      whole record are not counted. */
  function NumRecords(file: seq<Byte>, dim: nat): (n: nat)
    ensures Mul(n, RecordSize(dim)) <= |file| < Mul(n, RecordSize(dim)) + RecordSize(dim)
  {
    Quotient(|file|, RecordSize(dim))
  }

  /** A buffer of `m` whole words. */
  lemma WordCount(bytes: seq<Byte>, m: nat)
    requires |bytes| == 4 * m
    ensures |Words(bytes)| == m
  {
  }

  // ---------------------------------------------------------------------
  // Record arithmetic

  /** Record `j` starts inside the file (or at its end) exactly when at most
      `j` whole records precede it. */
  lemma RecordsFit(file: seq<Byte>, dim: nat, j: nat)
    ensures j <= NumRecords(file, dim) <==> Mul(j, RecordSize(dim)) <= |file|
  {
    MulFits(j, |file|, RecordSize(dim));
  }

  /** A file of exactly `count` records and no trailing bytes. */
  lemma WholeRecords(file: seq<Byte>, dim: nat, count: nat)
    requires |file| == Mul(count, RecordSize(dim))
    ensures NumRecords(file, dim) == count && Remainder(|file|, RecordSize(dim)) == 0
  {
    MulMultiple(count, RecordSize(dim));
  }

  /** The offset of a record that exists passes `_seekTo`'s guard, and the
      guard maps it back to that record. */
  lemma SeekGuardHolds(file: seq<Byte>, dim: nat, a: nat)
    requires a < NumRecords(file, dim)
    ensures Mul(a, RecordSize(dim)) <= |file|
    ensures Remainder(Mul(a, RecordSize(dim)), RecordSize(dim)) == 0
    ensures Quotient(Mul(a, RecordSize(dim)), RecordSize(dim)) == a
  {
    RecordsFit(file, dim, a);
    MulMultiple(a, RecordSize(dim));
  }

  /** An in-file offset that passes `_seekTo`'s guard is the start of a
      record that exists, or the end of the last whole record. */
  lemma AlignedOffset(file: seq<Byte>, dim: nat, p: nat)
    requires p <= |file| && Remainder(p, RecordSize(dim)) == 0
    ensures p == Mul(Quotient(p, RecordSize(dim)), RecordSize(dim))
    ensures Quotient(p, RecordSize(dim)) <= NumRecords(file, dim)
  {
    RecordsFit(file, dim, Quotient(p, RecordSize(dim)));
  }

  /** The bytes left after `c` whole records leave the same remainder as the
      whole file, and hold the records after `c`: a read from a record
      boundary ends misaligned exactly when the file has trailing bytes. */
  lemma TrailingBytes(file: seq<Byte>, dim: nat, c: nat)
    requires c <= NumRecords(file, dim)
    ensures Mul(c, RecordSize(dim)) <= |file|
    ensures Quotient(|file| - Mul(c, RecordSize(dim)), RecordSize(dim)) == NumRecords(file, dim) - c
    ensures Remainder(|file| - Mul(c, RecordSize(dim)), RecordSize(dim))
            == Remainder(|file|, RecordSize(dim))
  {
    RemainderAfter(|file|, RecordSize(dim), c);
  }

  /** `read(n)` asks for `n * (1 + dim)` words: the bytes of `n` records. */
  lemma RequestBytes(count: nat, dim: nat)
    ensures Mul(count, 1 + dim) * 4 == Mul(count, RecordSize(dim))
  {
    MulFour(count, 1 + dim);
  }

  // ---------------------------------------------------------------------
  // What a point is, read straight from the bytes

  /** Component `k` of point `i`: the word `4 + 4k` bytes into record `i`. */
  function Component(file: seq<Byte>, dim: nat, i: nat, k: nat): Word
    requires k < dim && i < NumRecords(file, dim)
  {
    MulNext(i, NumRecords(file, dim), RecordSize(dim));
    WordAt(file, Mul(i, RecordSize(dim)) + 4 + 4 * k)
  }

  /** The components of point `i`, its header dropped. */
  function Point(file: seq<Byte>, dim: nat, i: nat): seq<Word>
    requires i < NumRecords(file, dim)
  {
    seq(dim, k requires 0 <= k < dim => Component(file, dim, i, k))
  }

  /** The components of the `count` points from point `from` on, point
      after point: `dim` words per point, nothing in between. */
  function Points(file: seq<Byte>, dim: nat, from: nat, count: nat): (ps: seq<Word>)
    requires from + count <= NumRecords(file, dim)
    ensures |ps| == Mul(count, dim)
  {
    if count == 0 then [] else Points(file, dim, from, count - 1) + Point(file, dim, from + count - 1)
  }

  /** A range of one point is that point. */
  lemma PointsOne(file: seq<Byte>, dim: nat, i: nat)
    requires i < NumRecords(file, dim)
    ensures Points(file, dim, i, 1) == Point(file, dim, i)
  {
    assert Points(file, dim, i, 0) == [];
  }

  /** A range of two points is the one followed by the other. */
  lemma PointsTwo(file: seq<Byte>, dim: nat, i: nat)
    requires i + 2 <= NumRecords(file, dim)
    ensures Points(file, dim, i, 2) == Point(file, dim, i) + Point(file, dim, i + 1)
  {
    PointsOne(file, dim, i);
  }

  /** Component `k` of the `q`-th point of a range sits at `q * dim + k`. */
  lemma {:induction false} PointsAt(file: seq<Byte>, dim: nat, from: nat, count: nat, q: nat, k: nat)
    requires from + count <= NumRecords(file, dim) && q < count && k < dim
    ensures Mul(q, dim) + k < Mul(count, dim)
    ensures Points(file, dim, from, count)[Mul(q, dim) + k] == Component(file, dim, from + q, k)
  {
    MulNext(q, count, dim);
    if q < count - 1 {
      PointsAt(file, dim, from, count - 1, q, k);
    }
  }

  // ---------------------------------------------------------------------
  // What `read` computes from the words it has read

  /** The decoding loop of `read` (FvecsReader.h:73-78): the words of `count`
      records, each a header followed by `dim` components, with every header
      dropped. */
  function Decode(buf: seq<Word>, dim: nat, count: nat): (data: seq<Word>)
    requires Mul(count, 1 + dim) <= |buf|
    ensures |data| == Mul(count, dim)
  {
    if count == 0 then []
    else
      Decode(buf, dim, count - 1) + buf[Mul(count - 1, 1 + dim) + 1 .. Mul(count, 1 + dim)]
  }

  /** While fewer than `count * dim` components are decoded, one more of the
      `count` records remains, and decoding it appends its `dim` components:
      the words after its header, which starts at word
      `p + |Decode(buf, dim, p)|` of the buffer. */
  lemma DecodeNext(buf: seq<Word>, dim: nat, count: nat, p: nat)
    requires Mul(count, 1 + dim) <= |buf| && p <= count && Mul(p, 1 + dim) <= |buf|
    requires |Decode(buf, dim, p)| < Mul(count, dim)
    ensures p < count
    ensures |Decode(buf, dim, p)| + dim <= Mul(count, dim)
    ensures p + |Decode(buf, dim, p)| + 1 + dim == Mul(p + 1, 1 + dim) <= |buf|
    ensures Decode(buf, dim, p + 1)
            == Decode(buf, dim, p) + buf[p + |Decode(buf, dim, p)| + 1 .. p + |Decode(buf, dim, p)| + 1 + dim]
  {
    MulLtCancel(p, count, dim);
    MulNext(p, count, dim);
    MulNext(p, count, 1 + dim);
    MulSuccRight(p, dim);
  }

  /** Once `count * dim` components are decoded, the decoding is complete. */
  lemma DecodeDone(buf: seq<Word>, dim: nat, count: nat, p: nat)
    requires Mul(count, 1 + dim) <= |buf| && p <= count && Mul(p, 1 + dim) <= |buf|
    requires Mul(count, dim) <= |Decode(buf, dim, p)|
    ensures Decode(buf, dim, p) == Decode(buf, dim, count)
  {
    MulMono(p, count, dim);
    if dim > 0 {
      MulCancel(count, p, dim);
    } else {
      MulZeroRight(count);
    }
  }

  /** Decoding drops each record's header: component `k` of point `i` comes
      from word `i * (1 + dim) + 1 + k` of the buffer. */
  lemma {:induction false} DecodeAt(buf: seq<Word>, dim: nat, count: nat, i: nat, k: nat)
    requires Mul(count, 1 + dim) <= |buf| && i < count && k < dim
    ensures Mul(i, dim) + k < Mul(count, dim) && Mul(i, 1 + dim) + 1 + k < |buf|
    ensures Decode(buf, dim, count)[Mul(i, dim) + k] == buf[Mul(i, 1 + dim) + 1 + k]
  {
    MulNext(i, count, dim);
    MulNext(i, count, 1 + dim);
    if i < count - 1 {
      MulMono(count - 1, count, 1 + dim);
      MulNext(i, count - 1, dim);
      DecodeAt(buf, dim, count - 1, i, k);
    } else {
      assert i == count - 1;
    }
  }

  /** Where component `k` of the `q`-th of `count` records from record `lo`
      lies: word `q * (1 + dim) + 1 + k` of their bytes, which is byte
      `4 + 4k` of record `lo + q` of the file. */
  lemma ComponentOffset(dim: nat, lo: nat, count: nat, q: nat, k: nat)
    requires q < count && k < dim
    ensures Mul(count, RecordSize(dim)) == 4 * Mul(count, 1 + dim)
    ensures Mul(q, 1 + dim) + 1 + k < Mul(count, 1 + dim)
    ensures Mul(lo, RecordSize(dim)) + 4 * (Mul(q, 1 + dim) + 1 + k)
            == Mul(lo + q, RecordSize(dim)) + 4 + 4 * k
  {
    MulFour(count, 1 + dim);
    MulNext(q, count, 1 + dim);
    MulAdd(lo, q, RecordSize(dim));
    MulFour(q, 1 + dim);
  }

  /** A word of a slice of the file is the word at the same place in the file. */
  lemma WordOfSlice(file: seq<Byte>, a: nat, b: nat, w: nat)
    requires a <= b <= |file| && 4 * w + 4 <= b - a
    ensures w < |Words(file[a .. b])|
    ensures Words(file[a .. b])[w] == WordAt(file, a + 4 * w)
  {
  }

  /** The bytes of `count` whole records from record `lo`, which end at byte
      `end`, are `1 + dim` words per record. */
  lemma RecordsBytes(file: seq<Byte>, dim: nat, lo: nat, count: nat, end: nat)
    requires lo + count <= NumRecords(file, dim)
    requires end == Mul(lo, RecordSize(dim)) + Mul(count, RecordSize(dim))
    ensures end == Mul(lo + count, RecordSize(dim)) <= |file|
    ensures |Words(file[Mul(lo, RecordSize(dim)) .. end])| == Mul(count, 1 + dim)
  {
    RecordsFit(file, dim, lo + count);
    MulAdd(lo, count, RecordSize(dim));
    MulFour(count, 1 + dim);
    WordCount(file[Mul(lo, RecordSize(dim)) .. end], Mul(count, 1 + dim));
  }

  /** Word `q * (1 + dim) + 1 + k` of the bytes of `count` records from
      record `lo` is component `k` of point `lo + q`. */
  lemma WordOfRecords(file: seq<Byte>, dim: nat, lo: nat, count: nat, end: nat, q: nat, k: nat)
    requires lo + count <= NumRecords(file, dim) && q < count && k < dim
    requires end == Mul(lo, RecordSize(dim)) + Mul(count, RecordSize(dim))
    ensures end <= |file| && Mul(q, 1 + dim) + 1 + k < Mul(count, 1 + dim)
    ensures |Words(file[Mul(lo, RecordSize(dim)) .. end])| == Mul(count, 1 + dim)
    ensures Words(file[Mul(lo, RecordSize(dim)) .. end])[Mul(q, 1 + dim) + 1 + k]
            == Component(file, dim, lo + q, k)
  {
    RecordsBytes(file, dim, lo, count, end);
    ComponentOffset(dim, lo, count, q, k);
    WordOfSlice(file, Mul(lo, RecordSize(dim)), end, Mul(q, 1 + dim) + 1 + k);
  }

  /** One component of DecodeRecords. */
  lemma DecodeRecordsAt(file: seq<Byte>, dim: nat, lo: nat, count: nat, end: nat, idx: nat)
    requires lo + count <= NumRecords(file, dim) && idx < Mul(count, dim)
    requires end == Mul(lo, RecordSize(dim)) + Mul(count, RecordSize(dim))
    ensures end <= |file|
    ensures |Words(file[Mul(lo, RecordSize(dim)) .. end])| == Mul(count, 1 + dim)
    ensures Decode(Words(file[Mul(lo, RecordSize(dim)) .. end]), dim, count)[idx]
            == Points(file, dim, lo, count)[idx]
  {
    MulZeroRight(count);
    var q, k := Quotient(idx, dim), Remainder(idx, dim);
    MulLtCancel(q, count, dim);
    WordOfRecords(file, dim, lo, count, end, q, k);
    DecodeAt(Words(file[Mul(lo, RecordSize(dim)) .. end]), dim, count, q, k);
    PointsAt(file, dim, lo, count, q, k);
  }

  /** Reading the `count` records from the start of record `lo` to byte
      `end`, when they all exist, stays inside the file and decodes to
      exactly the `count` points from `lo` on. */
  lemma DecodeRecords(file: seq<Byte>, dim: nat, lo: nat, count: nat, end: nat)
    requires lo + count <= NumRecords(file, dim)
    requires end == Mul(lo, RecordSize(dim)) + Mul(count, RecordSize(dim))
    ensures end <= |file|
    ensures |Words(file[Mul(lo, RecordSize(dim)) .. end])| == Mul(count, 1 + dim)
    ensures Decode(Words(file[Mul(lo, RecordSize(dim)) .. end]), dim, count)
            == Points(file, dim, lo, count)
  {
    RecordsBytes(file, dim, lo, count, end);
    var d := Decode(Words(file[Mul(lo, RecordSize(dim)) .. end]), dim, count);
    var p := Points(file, dim, lo, count);
    forall idx | 0 <= idx < |d|
      ensures d[idx] == p[idx]
    {
      DecodeRecordsAt(file, dim, lo, count, end, idx);
    }
  }

  // ---------------------------------------------------------------------
  // A counted read from a record boundary

  /** Asking for more records than remain after record `c` runs into the end
      of the file; what is left is the records after `c`, and it is whole
      records exactly when the file has no trailing bytes. */
  lemma ReadPastEnd(file: seq<Byte>, dim: nat, c: nat, count: nat)
    requires c <= NumRecords(file, dim) < c + count
    ensures Mul(c, RecordSize(dim)) <= |file| < Mul(c, RecordSize(dim)) + Mul(count, RecordSize(dim))
    ensures Quotient(|file| - Mul(c, RecordSize(dim)), RecordSize(dim)) == NumRecords(file, dim) - c
    ensures Remainder(|file| - Mul(c, RecordSize(dim)), RecordSize(dim))
            == Remainder(|file|, RecordSize(dim))
  {
    Overrun(|file|, RecordSize(dim), c, count);
  }

  /** In a file without trailing bytes, the bytes from record `c` to the end
      are the `n - c` records that remain, and they decode to the points from
      `c` on. */
  lemma ReadToEnd(file: seq<Byte>, dim: nat, c: nat, n: nat)
    requires n == NumRecords(file, dim) && c <= n && Remainder(|file|, RecordSize(dim)) == 0
    ensures Mul(c, RecordSize(dim)) <= |file|
    ensures |Words(file[Mul(c, RecordSize(dim)) .. |file|])| == Mul(n - c, 1 + dim)
    ensures Decode(Words(file[Mul(c, RecordSize(dim)) .. |file|]), dim, n - c)
            == Points(file, dim, c, n - c)
  {
    ExactRest(|file|, RecordSize(dim), n, c);
    DecodeRecords(file, dim, c, n - c, |file|);
  }
}
