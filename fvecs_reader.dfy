/** The `.fvecs` reader (FvecsReader.h): a cursor over the points of a file,
    with counted, ranged and read-all reads and a rewind.

    The open file is its immutable contents `file`; the `std::ifstream` is
    the byte position `pos` it would read from next. */
module FvecsReading {
  import opened Wrappers
  import opened Arith
  import opened VecFile

  /** The conditions under which the reader throws `FvecsReaderException`. */
  datatype ReaderError =
    | OpenFailed           // the file cannot be opened (FvecsReader.h:37)
    | DimensionUnreadable  // fewer than 4 bytes for the header (FvecsReader.h:118)
    | MisalignedRead       // a short read left part of a record (FvecsReader.h:67)
    | EmptyRange           // a range read without `b > a` (FvecsReader.h:89)

  /** The decoding loop of `read(n)` (FvecsReader.h:73-78): for each of
      `count` records, skip the header word `j` points at, then copy its
      `dim` component words. */
  method DecodeBuffer(buf: seq<Word>, dim: nat, count: nat) returns (data: seq<Word>)
    requires Mul(count, 1 + dim) <= |buf|
    ensures data == Decode(buf, dim, count)
  {
    var out := new Word[Mul(count, dim)](_ => Word(0, 0, 0, 0));
    var i, j := 0, 0;
    ghost var p := 0;
    while i < out.Length
      invariant p <= count && Mul(p, 1 + dim) <= |buf| && i <= out.Length
      invariant out[..i] == Decode(buf, dim, p) && j == p + i
      decreases count - p
    {
      DecodeNext(buf, dim, count, p);
      ghost var i0, j0, done := i, j, out[..i];
      j := j + 1;  // skip the header
      var k := 0;
      while k < dim
        invariant k <= dim && i == i0 + k && j == j0 + 1 + k
        invariant out[..i] == done + buf[j0 + 1 .. j]
      {
        out[i] := buf[j];
        i, j, k := i + 1, j + 1, k + 1;
      }
      p := p + 1;
    }
    DecodeDone(buf, dim, count, p);
    data := out[..];
  }

  /** A counted read of `count` records from the start of record `c`, when
      they all exist, reads all the bytes it asks for, ends at the start of
      record `c + count`, and decodes to the `count` points from `c` on. */
  lemma ReadInside(file: seq<Byte>, dim: nat, n: nat, c: nat, count: nat, end: nat)
    requires n == NumRecords(file, dim) && c + count <= n
    requires end == Min(Mul(c, RecordSize(dim)) + Mul(count, 1 + dim) * 4, |file|)
    ensures end == Mul(c, RecordSize(dim)) + Mul(count, 1 + dim) * 4 == Mul(c + count, RecordSize(dim))
    ensures |Words(file[Mul(c, RecordSize(dim)) .. end])| == Mul(count, 1 + dim)
    ensures Decode(Words(file[Mul(c, RecordSize(dim)) .. end]), dim, count)
            == Points(file, dim, c, count)
  {
    RequestBytes(count, dim);
    RecordsBytes(file, dim, c, count, Mul(c, RecordSize(dim)) + Mul(count, RecordSize(dim)));
    DecodeRecords(file, dim, c, count, end);
  }

  /** A counted read of more records than remain after record `c` stops at
      the end of the file, short of what it asked for. What it read is the
      `n - c` remaining records and the file's trailing bytes; without
      trailing bytes it decodes to the points from `c` on. */
  lemma ReadOverrun(file: seq<Byte>, dim: nat, n: nat, c: nat, count: nat, end: nat)
    requires n == NumRecords(file, dim) && c <= n < c + count
    requires end == Min(Mul(c, RecordSize(dim)) + Mul(count, 1 + dim) * 4, |file|)
    ensures Mul(c, RecordSize(dim)) <= end == |file|
    ensures end - Mul(c, RecordSize(dim)) < Mul(count, 1 + dim) * 4
    ensures Quotient(end - Mul(c, RecordSize(dim)), RecordSize(dim)) == n - c
    ensures Remainder(end - Mul(c, RecordSize(dim)), RecordSize(dim)) == Remainder(|file|, RecordSize(dim))
    ensures Remainder(|file|, RecordSize(dim)) == 0 ==>
      && end == Mul(c + (n - c), RecordSize(dim))
      && |Words(file[Mul(c, RecordSize(dim)) .. end])| == Mul(n - c, 1 + dim)
      && Decode(Words(file[Mul(c, RecordSize(dim)) .. end]), dim, n - c) == Points(file, dim, c, n - c)
  {
    RequestBytes(count, dim);
    ReadPastEnd(file, dim, c, count);
    if Remainder(|file|, RecordSize(dim)) == 0 {
      ExactRest(|file|, RecordSize(dim), n, c);
      MulAdd(c, n - c, RecordSize(dim));
      ReadToEnd(file, dim, c, n);
    }
  }

  /** A read at the end of the file reads no bytes; a positive count asks
      for some. */
  lemma ReadAtEnd(file: seq<Byte>, dim: nat, count: nat, end: nat)
    requires end == Min(|file| + Mul(count, 1 + dim) * 4, |file|)
    ensures end == |file|
    ensures 0 < count ==> 0 < Mul(count, 1 + dim) * 4
    ensures Quotient(0, RecordSize(dim)) == 0 && Remainder(0, RecordSize(dim)) == 0
  {
    if 0 < count {
      MulMono(1, count, 1 + dim);
    }
    DivModUnique(0, RecordSize(dim), 0, 0);
  }

  /** The outcome of a counted read: its result, the cursor after it and
      the stream position after it. */
  datatype ReadOutcome = ReadOutcome(result: Result<seq<Word>, ReaderError>, cur: nat, pos: nat)

  /** What `read(n)` (FvecsReader.h:55-81) does with the stream at byte `p`
      and the cursor at `c`: ask for `count * (1 + dim)` words; the stream
      delivers as many of their bytes as the file still has. A short read
      must end on a record boundary, and then counts the records it got. */
  function CountedRead(file: seq<Byte>, dim: nat, c: nat, p: nat, count: nat): ReadOutcome
    requires p <= |file|
  {
    var sz := Mul(count, 1 + dim);
    var end := Min(p + sz * 4, |file|);
    var bytes := file[p .. end];
    if |bytes| < sz * 4 && Remainder(|bytes|, RecordSize(dim)) != 0 then
      ReadOutcome(Failure(MisalignedRead), c, end)
    else
      var trueN := if |bytes| < sz * 4 then Quotient(|bytes|, RecordSize(dim)) else count;
      MulFour(trueN, 1 + dim);
      ReadOutcome(Success(Decode(Words(bytes), dim, trueN)), c + trueN, end)
  }

  /** A counted read never moves the cursor back nor by more than it asked
      for, and returns `dim` components for each point the cursor passes. */
  lemma CountedReadAdvances(file: seq<Byte>, dim: nat, c: nat, p: nat, count: nat)
    requires p <= |file|
    ensures var o := CountedRead(file, dim, c, p, count);
      && c <= o.cur <= c + count
      && (o.result.Success? ==> |o.result.value| == Mul(o.cur - c, dim))
      && (o.result.Failure? ==> o.cur == c && o.pos == |file|)
  {
    var sz := Mul(count, 1 + dim);
    var end := Min(p + sz * 4, |file|);
    if end - p < sz * 4 && Remainder(end - p, RecordSize(dim)) == 0 {
      var q := Quotient(end - p, RecordSize(dim));
      MulFour(count, 1 + dim);
      MulFour(q, 1 + dim);
      MulLtCancel(q, count, RecordSize(dim));
    }
  }

  /** A counted read from the start of record `c` (the reader's normal
      state). When the `count` records exist it returns exactly those points
      and ends at the start of record `c + count`. Otherwise it runs into
      the end of the file: with trailing bytes it fails and leaves the stream
      at the end; without, it returns every point from `c` on. */
  lemma CountedReadFromRecord(file: seq<Byte>, dim: nat, n: nat, c: nat, count: nat)
    requires n == NumRecords(file, dim) && c <= n
    ensures Mul(c, RecordSize(dim)) <= |file|
    ensures var o := CountedRead(file, dim, c, Mul(c, RecordSize(dim)), count);
      if c + count <= n then
        o == ReadOutcome(Success(Points(file, dim, c, count)), c + count, Mul(c + count, RecordSize(dim)))
      else if Remainder(|file|, RecordSize(dim)) != 0 then
        o == ReadOutcome(Failure(MisalignedRead), c, |file|)
      else
        o == ReadOutcome(Success(Points(file, dim, c, n - c)), n, |file|)
        && |file| == Mul(n, RecordSize(dim))
  {
    RecordsFit(file, dim, c);
    var end := Min(Mul(c, RecordSize(dim)) + Mul(count, 1 + dim) * 4, |file|);
    if c + count <= n {
      ReadInside(file, dim, n, c, count, end);
    } else {
      ReadOverrun(file, dim, n, c, count, end);
    }
  }

  /** The body of `read(n)` (FvecsReader.h:55-81) with the stream at byte
      `p` and the cursor at `c`: the result, the new cursor and the new stream
      position. It repeats CountedRead step by step, with the copy loop of
      DecodeBuffer in place of Decode; keeping it apart from the object lets
      ReadCount's proof deal only with the fields it updates. */
  method ReadAt(file: seq<Byte>, dim: nat, szEach: nat, c: nat, p: nat, count: nat)
    returns (r: Result<seq<Word>, ReaderError>, cur: nat, pos: nat)
    requires p <= |file| && szEach == RecordSize(dim)
    ensures ReadOutcome(r, cur, pos) == CountedRead(file, dim, c, p, count)
  {
    var sz := Mul(count, 1 + dim);
    // the stream delivers as many of the `sz` words' bytes as remain
    var end := Min(p + sz * 4, |file|);
    var bytes := file[p .. end];
    pos := end;
    var trueN := count;
    if |bytes| < sz * 4 {
      var readSz := |bytes|;
      if Remainder(readSz, szEach) != 0 {
        return Failure(MisalignedRead), c, pos;
      }
      trueN := Quotient(readSz, szEach);
    }
    MulFour(trueN, 1 + dim);
    cur := c + trueN;
    var data := DecodeBuffer(Words(bytes), dim, trueN);
    r := Success(data);
  }

  /** A counted read from where the reader's invariant allows the stream to
      be keeps it there: the cursor stays within the points and the stream
      ends at the cursor's record or at the end of the file. From the
      cursor's record, a read that stays within the points returns them;
      from the end of the file, a read returns nothing and moves nothing. */
  lemma CountedReadKeeps(file: seq<Byte>, dim: nat, rs: nat, n: nat, c: nat, p: nat, count: nat)
    requires rs == RecordSize(dim) && n == NumRecords(file, dim) && c <= n && p <= |file|
    requires p == Mul(c, rs) || p == |file|
    ensures var o := CountedRead(file, dim, c, p, count);
      && o.cur <= n && o.pos <= |file|
      && (o.pos == Mul(o.cur, rs) || o.pos == |file|)
      && (p == Mul(c, rs) && c + count <= n ==>
            o == ReadOutcome(Success(Points(file, dim, c, count)), c + count, Mul(c + count, rs)))
      && (p != Mul(c, rs) ==> o == ReadOutcome(Success([]), c, p))
  {
    if p == Mul(c, rs) {
      CountedReadFromRecord(file, dim, n, c, count);
      if c + count <= n {
        RecordsFit(file, dim, c + count);
      }
    } else {
      CountedReadAtEnd(file, dim, c, count);
    }
  }

  /** A counted read with the stream at the end of the file reads nothing
      and leaves cursor and stream where they are. */
  lemma CountedReadAtEnd(file: seq<Byte>, dim: nat, c: nat, count: nat)
    ensures CountedRead(file, dim, c, |file|, count) == ReadOutcome(Success([]), c, |file|)
  {
    ReadAtEnd(file, dim, count, Min(|file| + Mul(count, 1 + dim) * 4, |file|));
  }

  class FvecsReader {
    /** The contents of the opened file. */
    const file: seq<Byte>
    /** The byte position of the file stream. */
    var pos: nat
    /** `_cur_pos`: the index of the next point a counted read returns. */
    var curPos: nat
    /** `_dim`: components per point, from the header of record 0. */
    var dim: nat
    /** `_size`: the file size in bytes. */
    var size: nat
    /** `_n`: the number of whole records. */
    var n: nat
    /** `_sz_each`: the bytes per record. */
    var szEach: nat

    /** The reader's invariant. The metadata is what the file determines;
        the cursor never passes the last point; and the stream is either at
        the cursor's record or, after a misaligned read, at the end of the
        file. */
    ghost predicate Valid()
      reads this
    {
      && |file| >= 4
      && size == |file|
      && dim == HeaderDim(file)
      && szEach == RecordSize(dim)
      && n == NumRecords(file, dim)
      && curPos <= n && pos <= |file|
      && (pos == Mul(curPos, szEach) || pos == |file|)
    }

    /** The stream is at the start of record `curPos`. Every operation that
        returns normally from a synced reader leaves it synced; only a
        misaligned read leaves it unsynced, and then counted reads, and range
        reads from the cursor, return nothing. */
    ghost predicate Synced()
      reads this
    {
      pos == Mul(curPos, szEach)
    }

    /** The member initialisers of the constructor (FvecsReader.h:35-36):
        the file is open with the stream at byte 0 and `_cur_pos(0)`. The
        object is not yet usable (`Valid()` does not hold) until `Open` has
        run the rest of the constructor body on it. */
    constructor (f: seq<Byte>)
      ensures file == f && pos == 0 && curPos == 0
    {
      file := f;
      pos := 0;
      curPos := 0;
    }

    /** The constructor `FvecsReader(filename)` (FvecsReader.h:35-42).
        `f` is the file's contents, or None when it cannot be opened. The
        point count is the number of whole records: `n * szEach` bytes fit in
        the file and `(n + 1) * szEach` do not. */
    static method Open(f: Option<seq<Byte>>) returns (r: Result<FvecsReader, ReaderError>)
      ensures f.None? ==> r == Failure(OpenFailed)
      ensures f.Some? && |f.value| < 4 ==> r == Failure(DimensionUnreadable)
      ensures f.Some? && |f.value| >= 4 ==>
        && r.Success? && fresh(r.value) && r.value.Valid() && r.value.Synced()
        && r.value.file == f.value && r.value.pos == 0 && r.value.curPos == 0
        && r.value.dim == HeaderDim(f.value)
        && r.value.szEach == (1 + r.value.dim) * 4
        && Mul(r.value.n, r.value.szEach) <= |f.value| < Mul(r.value.n, r.value.szEach) + r.value.szEach
    {
      if f.None? {
        return Failure(OpenFailed);
      }
      var rd := new FvecsReader(f.value);
      rd.GetSize();
      var ok := rd.GetDim();
      if !ok {
        return Failure(DimensionUnreadable);
      }
      rd.szEach := RecordSize(rd.dim);
      rd.n := Quotient(rd.size, rd.szEach);
      r := Success(rd);
    }

    /** `_getSize` (FvecsReader.h:132-136): seek to the end to learn the
        size, then back to byte 0. */
    method GetSize()
      modifies this`size, this`pos
      ensures size == |file| && pos == 0
    {
      pos := |file|;
      size := pos;
      pos := 0;
    }

    /** `_getDim` (FvecsReader.h:116-120): read the 4-byte header at the
        stream position (byte 0), then seek back to byte 0; a file too short
        for the header fails. */
    method GetDim() returns (ok: bool)
      requires pos == 0
      modifies this`dim, this`pos
      ensures ok == (|file| >= 4)
      ensures ok ==> dim == HeaderDim(file) && pos == 0
      ensures !ok ==> pos == |file|
    {
      if |file| < 4 {
        pos := |file|;
        return false;
      }
      dim := HeaderDim(file);
      pos := 0;
      ok := true;
    }

    /** `pointDimension()`. */
    function PointDimension(): (d: nat)
      reads this
      requires Valid()
      ensures d == HeaderDim(file) && d < 0x1_0000_0000
    {
      dim
    }

    /** `numPoints()`: the number of whole records in the file. */
    function NumPoints(): (np: nat)
      reads this
      requires Valid()
      ensures Mul(np, szEach) <= |file| < Mul(np, szEach) + szEach
    {
      n
    }

    /** `read(n)` (FvecsReader.h:55-81): read `count` records at the stream
        position, as CountedRead describes, and keep the reader's invariant. */
    method ReadCount(count: nat) returns (r: Result<seq<Word>, ReaderError>)
      requires Valid()
      modifies this`pos, this`curPos
      ensures ReadOutcome(r, curPos, pos) == CountedRead(file, dim, old(curPos), old(pos), count)
      ensures Valid()
      ensures old(Synced()) && old(curPos) + count <= n ==>
        r == Success(Points(file, dim, old(curPos), count)) && curPos == old(curPos) + count && Synced()
      ensures !old(Synced()) ==> r == Success([]) && curPos == old(curPos) && pos == old(pos)
    {
      CountedReadKeeps(file, dim, szEach, n, curPos, pos, count);
      r, curPos, pos := ReadAt(file, dim, szEach, curPos, pos, count);
    }

    /** `read(a, b)` (FvecsReader.h:84-101): the points from `a` up to, but
        not including, `b`. An empty or reversed range is an error; a start
        past the last point reads nothing and leaves the reader untouched; an
        end past the last point is clamped to it. The seek to a point that
        exists always succeeds. */
    method ReadRange(a: nat, b: nat) returns (r: Result<seq<Word>, ReaderError>)
      requires Valid()
      modifies this`pos, this`curPos
      ensures Valid()
      ensures b <= a ==> r == Failure(EmptyRange) && pos == old(pos) && curPos == old(curPos)
      ensures a < b && n <= a ==> r == Success([]) && pos == old(pos) && curPos == old(curPos)
      ensures a < b && a < n && (a != old(curPos) || old(Synced())) ==>
        r == Success(Points(file, dim, a, Min(b, n) - a)) && curPos == Min(b, n) && Synced()
      ensures a < b && a < n && a == old(curPos) && !old(Synced()) ==>
        r == Success([]) && pos == old(pos) && curPos == old(curPos)
    {
      if b <= a {
        return Failure(EmptyRange);
      }
      if a >= n {
        return Success([]);
      }
      var last := Min(b, n);
      if a != curPos {
        SeekToPoint(a);
      }
      r := ReadCount(last - a);
    }

    /** The seek of `read(a, b)` (FvecsReader.h:92-94) to point `a`, which
        exists: `_seekTo(a * _sz_each)` passes its guard, so the source's
        `return {}` after a failed seek cannot be reached. */
    method SeekToPoint(a: nat)
      requires Valid() && a < n
      modifies this`pos, this`curPos
      ensures Valid() && Synced() && curPos == a
    {
      SeekGuardHolds(file, dim, a);
      var ok := SeekTo(Mul(a, szEach));
      assert ok;
    }

    /** `read()` (FvecsReader.h:104-107): every point from the cursor on.
        The count `numPoints() - _cur_pos` never underflows. */
    method ReadAll() returns (r: Result<seq<Word>, ReaderError>)
      requires Valid()
      modifies this`pos, this`curPos
      ensures Valid()
      ensures old(Synced()) ==>
        r == Success(Points(file, dim, old(curPos), n - old(curPos))) && curPos == n && Synced()
      ensures !old(Synced()) ==> r == Success([]) && pos == old(pos) && curPos == old(curPos)
    {
      var count: nat := n - curPos;
      r := ReadCount(count);
    }

    /** `rewind()` (FvecsReader.h:109-112). */
    method Rewind()
      requires Valid()
      modifies this`pos, this`curPos
      ensures Valid() && Synced() && pos == 0 && curPos == 0
    {
      pos := 0;
      curPos := 0;
    }

    /** `_seekTo(pos)` (FvecsReader.h:122-129): move to byte `p` if it lies in
        the file and on a record boundary; otherwise change nothing. */
    method SeekTo(p: nat) returns (ok: bool)
      requires Valid()
      modifies this`pos, this`curPos
      ensures Valid()
      ensures ok == (p <= size && Remainder(p, szEach) == 0)
      ensures ok ==> pos == p && curPos == Quotient(p, szEach) && Synced()
      ensures !ok ==> pos == old(pos) && curPos == old(curPos)
    {
      if p > size || Remainder(p, szEach) != 0 {
        return false;
      }
      AlignedOffset(file, dim, p);
      Rewind();
      pos := p;
      curPos := Quotient(p, szEach);
      ok := true;
    }
  }

  /** The calls of the demo program (FvecsReaderDemo.cc:16-70) on a file of
      `N` points and no trailing bytes (the demo's constants 1001, 999 and 998
      assume N = 1000), with what its assertions and comments expect of each
      result. */
  method DemoScenario(f: seq<Byte>, N: nat)
    returns (first: Result<seq<Word>, ReaderError>, second: Result<seq<Word>, ReaderError>,
             batch: Result<seq<Word>, ReaderError>, failed: Result<seq<Word>, ReaderError>,
             tmp: Result<seq<Word>, ReaderError>, shouldResize: Result<seq<Word>, ReaderError>,
             again: Result<seq<Word>, ReaderError>, last: Result<seq<Word>, ReaderError>)
    requires |f| >= 4 && N >= 2
    requires N == NumRecords(f, HeaderDim(f)) && Remainder(|f|, RecordSize(HeaderDim(f))) == 0
    ensures first == Success(Point(f, HeaderDim(f), 0))
    ensures second == Success(Point(f, HeaderDim(f), 1))
    ensures batch == Success(first.value + second.value)
    ensures failed == Success([])
    ensures tmp == second
    ensures shouldResize.Success? && |shouldResize.value| == HeaderDim(f)
    ensures again == first
    ensures last.Success? && |last.value| == HeaderDim(f)
  {
    var made := FvecsReader.Open(Some(f));
    var reader := made.value;
    first, second, batch := DemoFirstReads(reader);
    failed, tmp, shouldResize := DemoRangeReads(reader);
    again, last := DemoTailReads(reader);
  }

  /** FvecsReaderDemo.cc:20-21, 33 and 42: the first two points one at a
      time, both again as a range, then a range that leaves the cursor at
      point 1. */
  method DemoFirstReads(reader: FvecsReader)
    returns (first: Result<seq<Word>, ReaderError>, second: Result<seq<Word>, ReaderError>,
             batch: Result<seq<Word>, ReaderError>)
    requires reader.Valid() && reader.Synced() && reader.curPos == 0 && reader.n >= 2
    modifies reader`pos, reader`curPos
    ensures reader.Valid() && reader.Synced() && reader.curPos == 1
    ensures first == Success(Point(reader.file, reader.dim, 0))
    ensures second == Success(Point(reader.file, reader.dim, 1))
    ensures batch == Success(first.value + second.value)
  {
    PointsOne(reader.file, reader.dim, 0);
    PointsOne(reader.file, reader.dim, 1);
    first := reader.ReadCount(1);
    second := reader.ReadCount(1);
    PointsTwo(reader.file, reader.dim, 0);
    batch := reader.ReadRange(0, 2);
    var _ := reader.ReadRange(0, 1);
  }

  /** FvecsReaderDemo.cc:43-45 and 54-55: a range past the last point reads
      nothing, the next point is point 1, and a range running past the last
      point is clamped to the one point left. */
  method DemoRangeReads(reader: FvecsReader)
    returns (failed: Result<seq<Word>, ReaderError>, tmp: Result<seq<Word>, ReaderError>,
             shouldResize: Result<seq<Word>, ReaderError>)
    requires reader.Valid() && reader.Synced() && reader.curPos == 1 && reader.n >= 2
    modifies reader`pos, reader`curPos
    ensures reader.Valid() && reader.Synced()
    ensures failed == Success([])
    ensures tmp == Success(Point(reader.file, reader.dim, 1))
    ensures shouldResize.Success? && |shouldResize.value| == reader.dim
  {
    var N := reader.n;
    PointsOne(reader.file, reader.dim, 1);
    PointsOne(reader.file, reader.dim, N - 1);
    failed := reader.ReadRange(N + 1, N + 2);
    tmp := reader.ReadCount(1);
    shouldResize := reader.ReadRange(N - 1, 10 * N - 10);
  }

  /** FvecsReaderDemo.cc:57-58 and 68-70: after a rewind the first point
      comes back; from the last point, a read of 100 points returns the one
      point that is left. */
  method DemoTailReads(reader: FvecsReader)
    returns (again: Result<seq<Word>, ReaderError>, last: Result<seq<Word>, ReaderError>)
    requires reader.Valid() && reader.n >= 2
    requires Remainder(|reader.file|, RecordSize(reader.dim)) == 0
    modifies reader`pos, reader`curPos
    ensures again == Success(Point(reader.file, reader.dim, 0))
    ensures last.Success? && |last.value| == reader.dim
  {
    var N := reader.n;
    PointsOne(reader.file, reader.dim, 0);
    reader.Rewind();
    again := reader.ReadCount(1);
    var _ := reader.ReadRange(N - 2, N - 1);
    CountedReadFromRecord(reader.file, reader.dim, N, N - 1, 100);
    last := reader.ReadCount(100);
  }
}
