/** Loading into PostgreSQL and export to CSV (python-etl/src/load.py): the
    chunked COPY FROM loop of insert_records and the partition boundaries,
    file names and COPY TO queries of generate_csv_files. The database is an
    abstract sink: the model returns the log of what is handed to it. */
module Load {
  import opened PyText

  function Abs(n: int): nat { if n < 0 then -n else n }

  // ---------------------------------------------------------------------------
  // Integer facts used by the chunk and range arithmetic.
  // ---------------------------------------------------------------------------

  /** Division of `q * c + r` by c, for a remainder below c. */
  lemma DivMod(q: nat, c: nat, r: nat)
    requires c > 0 && r < c
    ensures (q * c + r) / c == q && (q * c + r) % c == r
  {
    var i := q * c + r;
    assert c * (i / c - q) == r - i % c;
    MulUnit(c, i / c - q);
  }

  lemma MulUnit(c: int, x: int)
    requires c > 0
    ensures x >= 1 ==> c * x >= c
    ensures x <= -1 ==> c * x <= -c
  {
  }

  // ---------------------------------------------------------------------------
  // insert_records
  // ---------------------------------------------------------------------------

  /** One `cur.copy_from(f, table)` call: the records written to the buffer
      `f`, and whether `f.seek(0)` rewound it first. */
  datatype Flush = Flush(rewound: bool, buffer: seq<string>)

  /** The rows copy_from reads: it reads from the buffer's position, which
      after writing is the end of the buffer unless it was rewound. */
  function Loaded(fl: Flush): seq<string> { if fl.rewound then fl.buffer else [] }

  function Concat(chunks: seq<seq<string>>): seq<string> {
    if chunks == [] then [] else chunks[0] + Concat(chunks[1..])
  }

  /** Everything written to the buffers of a sequence of flushes, in order. */
  function Buffered(flushes: seq<Flush>): seq<string> {
    if flushes == [] then [] else flushes[0].buffer + Buffered(flushes[1..])
  }

  /** Everything the flushes load into the table, in order. */
  function LoadedRows(flushes: seq<Flush>): seq<string> {
    if flushes == [] then [] else Loaded(flushes[0]) + LoadedRows(flushes[1..])
  }

  /** Consecutive runs of c records, the last one possibly shorter. */
  function Chunks(records: seq<string>, c: nat): seq<seq<string>>
    requires c > 0 || records == []
    decreases |records|
  {
    if records == [] then []
    else if |records| <= c then [records]
    else [records[..c]] + Chunks(records[c..], c)
  }

  /** Each chunk flushed after a rewind. */
  function Rewound(chunks: seq<seq<string>>): seq<Flush> {
    if chunks == [] then [] else [Flush(true, chunks[0])] + Rewound(chunks[1..])
  }

  /** All chunks but the last: those flushed inside the loop. */
  function FullChunks(records: seq<string>, c: nat): seq<seq<string>>
    requires c > 0 || records == []
  {
    var chunks := Chunks(records, c);
    if chunks == [] then [] else chunks[..|chunks| - 1]
  }

  /** The flushes inside the loop: one before record 0, whose buffer is still
      empty, then one per full chunk, each after a rewind. */
  function InLoopFlushes(records: seq<string>, c: nat): seq<Flush>
    requires c > 0 || records == []
  {
    if records == [] then [] else [Flush(true, [])] + Rewound(FullChunks(records, c))
  }

  /** The buffer left when the loop ends: the last chunk, or nothing. */
  function FinalBuffer(records: seq<string>, c: nat): seq<string>
    requires c > 0 || records == []
  {
    var chunks := Chunks(records, c);
    if chunks == [] then [] else chunks[|chunks| - 1]
  }

  /** All flushes: those inside the loop, then the one after it, rewound or not. */
  function Flushes(records: seq<string>, c: nat, rewindLast: bool): seq<Flush>
    requires c > 0 || records == []
  {
    InLoopFlushes(records, c) + [Flush(rewindLast, FinalBuffer(records, c))]
  }

  /** The chunks hold every record once, in order. */
  lemma {:induction false} ChunksConcat(records: seq<string>, c: nat)
    requires c > 0 || records == []
    ensures Concat(Chunks(records, c)) == records
    decreases |records|
  {
    if records != [] && |records| > c {
      ChunksConcat(records[c..], c);
      assert records == records[..c] + records[c..];
    }
  }

  /** Every chunk but the last holds exactly c records; the last one holds
      between 1 and c. */
  predicate SizedChunks(chunks: seq<seq<string>>, c: nat) {
    && (forall j | 0 <= j < |chunks| :: 0 < |chunks[j]| <= c)
    && (forall j | 0 <= j < |chunks| - 1 :: |chunks[j]| == c)
  }

  lemma {:induction false} ChunkSizes(records: seq<string>, c: nat)
    requires c > 0
    ensures SizedChunks(Chunks(records, c), c)
    decreases |records|
  {
    var chunks := Chunks(records, c);
    if |records| > c {
      var rest := Chunks(records[c..], c);
      ChunkSizes(records[c..], c);
      assert chunks == [records[..c]] + rest;
      forall j | 0 <= j < |chunks| ensures 0 < |chunks[j]| <= c && (j < |chunks| - 1 ==> |chunks[j]| == c) {
        if j > 0 {
          assert chunks[j] == rest[j - 1];
        } else {
          assert chunks[0] == records[..c];
        }
      }
    }
  }

  /** n chunks hold more than (n - 1) * c and at most n * c records. */
  lemma {:induction false} ChunkBounds(records: seq<string>, c: nat)
    requires c > 0
    ensures var n := |Chunks(records, c)|;
      n * c >= |records| && (records != [] ==> n >= 1 && (n - 1) * c < |records|)
    decreases |records|
  {
    if |records| > c {
      ChunkBounds(records[c..], c);
      var n := |Chunks(records[c..], c)|;
      assert |Chunks(records, c)| == n + 1;
      assert (n + 1) * c == n * c + c;
      assert n * c == (n - 1) * c + c;
    }
  }

  /** There are ceil(N / c) chunks. */
  lemma ChunkCount(records: seq<string>, c: nat)
    requires c > 0
    ensures |Chunks(records, c)| == (|records| + c - 1) / c
  {
    ChunkBounds(records, c);
    var n := |Chunks(records, c)|;
    if records == [] {
      DivMod(0, c, c - 1);
    } else {
      assert n * c == (n - 1) * c + c;
      DivMod(n, c, |records| - 1 - (n - 1) * c);
    }
  }

  /** Appending a chunk of at most c records to a whole number of chunks adds
      exactly that chunk. */
  lemma {:induction false} ChunksSnoc(a: seq<string>, b: seq<string>, c: nat, m: nat)
    requires c > 0 && |a| == m * c && 0 < |b| <= c
    ensures Chunks(a + b, c) == Chunks(a, c) + [b]
    decreases m
  {
    if m == 0 {
      assert a + b == b;
    } else {
      MulUnit(c, m);
      assert (a + b)[..c] == a[..c];
      assert (a + b)[c..] == a[c..] + b;
      ChunksSnoc(a[c..], b, c, m - 1);
    }
  }

  lemma RewoundSnoc(chunks: seq<seq<string>>, b: seq<string>)
    ensures Rewound(chunks + [b]) == Rewound(chunks) + [Flush(true, b)]
  {
    if chunks != [] {
      assert (chunks + [b])[1..] == chunks[1..] + [b];
    }
  }

  lemma {:induction false} BufferedAppend(a: seq<Flush>, b: seq<Flush>)
    ensures Buffered(a + b) == Buffered(a) + Buffered(b)
  {
    if a == [] {
      assert a + b == b;
    } else {
      assert (a + b)[1..] == a[1..] + b;
      BufferedAppend(a[1..], b);
    }
  }

  lemma {:induction false} LoadedAppend(a: seq<Flush>, b: seq<Flush>)
    ensures LoadedRows(a + b) == LoadedRows(a) + LoadedRows(b)
  {
    if a == [] {
      assert a + b == b;
    } else {
      assert (a + b)[1..] == a[1..] + b;
      LoadedAppend(a[1..], b);
    }
  }

  /** Rewound chunks load all their records. */
  lemma {:induction false} RewoundRows(chunks: seq<seq<string>>)
    ensures Buffered(Rewound(chunks)) == Concat(chunks)
    ensures LoadedRows(Rewound(chunks)) == Concat(chunks)
  {
    if chunks != [] {
      RewoundRows(chunks[1..]);
    }
  }

  lemma ConcatSnoc(chunks: seq<seq<string>>, b: seq<string>)
    ensures Concat(chunks + [b]) == Concat(chunks) + b
  {
    if chunks != [] {
      assert (chunks + [b])[1..] == chunks[1..] + [b];
      ConcatSnoc(chunks[1..], b);
    }
  }

  /** The full chunks followed by the final buffer are the records. */
  lemma ChunksSplitLast(records: seq<string>, c: nat)
    requires c > 0 || records == []
    ensures Concat(FullChunks(records, c)) + FinalBuffer(records, c) == records
  {
    var chunks := Chunks(records, c);
    ChunksConcat(records, c);
    if chunks != [] {
      assert chunks == FullChunks(records, c) + [FinalBuffer(records, c)];
      ConcatSnoc(FullChunks(records, c), FinalBuffer(records, c));
    }
  }

  /** The in-loop flushes hold and load exactly the full chunks. */
  lemma InLoopRows(records: seq<string>, c: nat)
    requires c > 0 || records == []
    ensures Buffered(InLoopFlushes(records, c)) == Concat(FullChunks(records, c))
    ensures LoadedRows(InLoopFlushes(records, c)) == Concat(FullChunks(records, c))
  {
    var full := FullChunks(records, c);
    RewoundRows(full);
    if records != [] {
      BufferedAppend([Flush(true, [])], Rewound(full));
      LoadedAppend([Flush(true, [])], Rewound(full));
    } else {
      assert full == [];
    }
  }

  /** What the flushes hold and what they load: the full chunks, then the
      final buffer, which loads only when rewound. */
  lemma FlushRows(records: seq<string>, c: nat, rewindLast: bool)
    requires c > 0 || records == []
    ensures Buffered(Flushes(records, c, rewindLast)) == Concat(FullChunks(records, c)) + FinalBuffer(records, c)
    ensures LoadedRows(Flushes(records, c, rewindLast)) ==
      Concat(FullChunks(records, c)) + if rewindLast then FinalBuffer(records, c) else []
  {
    var final := [Flush(rewindLast, FinalBuffer(records, c))];
    InLoopRows(records, c);
    BufferedAppend(InLoopFlushes(records, c), final);
    LoadedAppend(InLoopFlushes(records, c), final);
  }

  /** Every record is written to exactly one buffer, in input order; the
      first buffer is empty, every other in-loop buffer holds exactly c
      records, and the buffer flushed after the loop holds between 1 and c
      records, or none when there are no records. There are ceil(N / c)
      flushes inside the loop and one after it. */
  lemma FlushLayout(records: seq<string>, c: nat, rewindLast: bool)
    requires c > 0
    ensures var fls := Flushes(records, c, rewindLast);
      && Buffered(fls) == records
      && |fls| == (|records| + c - 1) / c + 1
      && (records == [] ==> fls == [Flush(rewindLast, [])])
      && (records != [] ==>
            && fls[0] == Flush(true, [])
            && (forall j | 1 <= j < |fls| - 1 :: fls[j].rewound && |fls[j].buffer| == c)
            && fls[|fls| - 1] == Flush(rewindLast, FinalBuffer(records, c))
            && 1 <= |FinalBuffer(records, c)| <= c)
  {
    ChunkCount(records, c);
    FlushRows(records, c, rewindLast);
    ChunksSplitLast(records, c);
    if records != [] {
      ChunkSizes(records, c);
      var full := FullChunks(records, c);
      var fls := Flushes(records, c, rewindLast);
      RewoundShape(full);
      assert |fls| == |full| + 2;
      forall j | 1 <= j < |fls| - 1 ensures fls[j].rewound && |fls[j].buffer| == c {
        assert fls[j] == Rewound(full)[j - 1];
      }
    }
  }

  lemma {:induction false} RewoundShape(chunks: seq<seq<string>>)
    ensures |Rewound(chunks)| == |chunks|
    ensures forall j | 0 <= j < |chunks| :: Rewound(chunks)[j] == Flush(true, chunks[j])
  {
    if chunks != [] {
      RewoundShape(chunks[1..]);
    }
  }

  /** As written, the flush after the loop is not rewound, so the records of
      the last chunk never reach the table: what is loaded is a strict prefix
      of the input whenever there is input. */
  lemma LastChunkLost(records: seq<string>, c: nat)
    requires c > 0 && records != []
    ensures 1 <= |FinalBuffer(records, c)| <= |records|
    ensures var loaded := LoadedRows(Flushes(records, c, false));
      loaded == records[..|records| - |FinalBuffer(records, c)|] && |loaded| < |records|
  {
    FlushRows(records, c, false);
    ChunksSplitLast(records, c);
    ChunkSizes(records, c);
    var chunks := Chunks(records, c);
    assert chunks != [] && FinalBuffer(records, c) == chunks[|chunks| - 1];
    assert 0 < |chunks[|chunks| - 1]|;
    var full := Concat(FullChunks(records, c));
    assert full + [] == full;
    assert records[..|full|] == full;
  }

  /** A single record with a chunk size of 2 is never loaded. */
  lemma SingleRecordNeverLoaded(r: string)
    ensures LoadedRows(Flushes([r], 2, false)) == []
  {
    LastChunkLost([r], 2);
  }

  /** Rewinding before the last flush too, every record is loaded exactly
      once, in input order. */
  lemma RewoundLoadsAll(records: seq<string>, c: nat)
    requires c > 0
    ensures LoadedRows(Flushes(records, c, true)) == records
  {
    FlushRows(records, c, true);
    ChunksSplitLast(records, c);
  }

  /** A flush point: inside a run of c records that starts at a multiple of
      c, only its end is a multiple of c. */
  lemma FlushPoint(m: nat, c: nat, i: nat)
    requires c > 0 && m * c < i <= m * c + c
    ensures i % c == 0 <==> i == m * c + c
  {
    if i < m * c + c {
      DivMod(m, c, i - m * c);
    } else {
      DivMod(m + 1, c, 0);
    }
  }

  /** The state of the loop of insert_records after i records: the flushes
      so far, and the buffer holding the records since the last flush, which
      happened at `start`, the m-th multiple of c. */
  ghost predicate Progress(records: seq<string>, c: nat, i: nat, start: nat, m: nat,
                           flushes: seq<Flush>, f: seq<string>)
  {
    && i <= |records| && start == m * c
    && (i == 0 ==> flushes == [] && f == [] && start == 0)
    && (i > 0 ==>
          && c > 0 && start < i <= start + c && f == records[start..i]
          && flushes == [Flush(true, [])] + Rewound(Chunks(records[..start], c)))
  }

  /** A flush before record i, then the write of record i. */
  lemma FlushStep(records: seq<string>, c: nat, i: nat, start: nat, m: nat, flushes: seq<Flush>, f: seq<string>)
    requires Progress(records, c, i, start, m, flushes, f) && i < |records| && c > 0 && i % c == 0
    ensures i > 0 ==> Progress(records, c, i + 1, i, m + 1, flushes + [Flush(true, f)], [records[i]])
    ensures i == 0 ==> Progress(records, c, i + 1, 0, 0, flushes + [Flush(true, f)], [records[i]])
  {
    if i > 0 {
      FlushPoint(m, c, i);
      assert records[..i] == records[..start] + f;
      ChunksSnoc(records[..start], f, c, m);
      RewoundSnoc(Chunks(records[..start], c), f);
      assert records[i..i + 1] == [records[i]];
    } else {
      assert records[..0] == [];
    }
  }

  /** The write of record i with no flush before it. */
  lemma WriteStep(records: seq<string>, c: nat, i: nat, start: nat, m: nat, flushes: seq<Flush>, f: seq<string>)
    requires Progress(records, c, i, start, m, flushes, f) && i < |records| && c > 0 && i % c != 0
    ensures Progress(records, c, i + 1, start, m, flushes, f + [records[i]])
  {
    FlushPoint(m, c, i);
    assert records[start..i + 1] == records[start..i] + [records[i]];
  }

  /** When the records are exhausted the flushes so far are the in-loop
      flushes and the buffer is the final one. */
  lemma LoopDone(records: seq<string>, c: nat, start: nat, m: nat, flushes: seq<Flush>, f: seq<string>)
    requires Progress(records, c, |records|, start, m, flushes, f) && (c > 0 || records == [])
    ensures flushes == InLoopFlushes(records, c) && f == FinalBuffer(records, c)
  {
    if records != [] {
      assert records == records[..start] + f;
      ChunksSnoc(records[..start], f, c, m);
    }
  }

  /** The loop of insert_records: before record i, when i % chunksize == 0,
      the buffer is flushed (rewound first) and replaced by a fresh one; then
      the record is written to the buffer. Python's `%` is zero exactly when
      |chunksize| divides i, also for a negative chunksize; with chunksize 0
      the first record raises ZeroDivisionError. Returns the in-loop flushes
      and the buffer left at the end. */
  method CopyChunks(records: seq<string>, chunksize: int) returns (flushes: seq<Flush>, f: seq<string>, failed: bool)
    ensures failed <==> chunksize == 0 && records != []
    ensures failed ==> flushes == []
    ensures !failed ==> flushes == InLoopFlushes(records, Abs(chunksize)) && f == FinalBuffer(records, Abs(chunksize))
  {
    var c := Abs(chunksize);
    flushes, f, failed := [], [], false;
    var i := 0;
    ghost var start, m := 0, 0;
    while i < |records|
      invariant Progress(records, c, i, start, m, flushes, f)
    {
      if c == 0 {
        failed := true;
        return;
      }
      if i % c == 0 {
        FlushStep(records, c, i, start, m, flushes, f);
        if i > 0 {
          start, m := i, m + 1;
        }
        flushes := flushes + [Flush(true, f)];
        f := [];
      } else {
        WriteStep(records, c, i, start, m, flushes, f);
      }
      f := f + [records[i]];
      i := i + 1;
    }
    LoopDone(records, c, start, m, flushes, f);
  }

  /** insert_records as written: the buffer left after the loop is handed to
      copy_from without a rewind. */
  method InsertRecords(records: seq<string>, chunksize: int) returns (flushes: seq<Flush>, failed: bool)
    ensures failed <==> chunksize == 0 && records != []
    ensures failed ==> flushes == []
    ensures !failed ==> flushes == Flushes(records, Abs(chunksize), false)
  {
    var f;
    flushes, f, failed := CopyChunks(records, chunksize);
    if failed {
      return;
    }
    flushes := flushes + [Flush(false, f)];
  }

  /** insert_records with `f.seek(0)` before the last copy_from as well. */
  method InsertRecordsRewound(records: seq<string>, chunksize: int) returns (flushes: seq<Flush>, failed: bool)
    ensures failed <==> chunksize == 0 && records != []
    ensures failed ==> flushes == []
    ensures !failed ==> flushes == Flushes(records, Abs(chunksize), true)
  {
    var f;
    flushes, f, failed := CopyChunks(records, chunksize);
    if failed {
      return;
    }
    flushes := flushes + [Flush(true, f)];
  }

  // ---------------------------------------------------------------------------
  // generate_csv_files
  // ---------------------------------------------------------------------------

  /** Python `range(start, stop, step)` for a nonzero step. */
  function PyRange(start: int, stop: int, step: int): seq<int>
    requires step != 0
    decreases if step > 0 then stop - start else start - stop
  {
    if (step > 0 && start < stop) || (step < 0 && start > stop) then [start] + PyRange(start + step, stop, step)
    else []
  }

  /** With a positive step the range starts at start, climbs by step and
      stops at the first value not below stop. */
  lemma {:induction false} PyRangeUp(start: int, stop: int, step: int)
    requires step > 0
    ensures var r := PyRange(start, stop, step);
      && (r == [] <==> start >= stop)
      && (r != [] ==> r[0] == start && r[|r| - 1] < stop <= r[|r| - 1] + step)
      && (forall k | 0 <= k < |r| - 1 :: r[k + 1] == r[k] + step)
    decreases stop - start
  {
    if start < stop {
      var rest := PyRange(start + step, stop, step);
      PyRangeUp(start + step, stop, step);
      assert PyRange(start, stop, step) == [start] + rest;
    }
  }

  /** The k-th element of r is start + k * step. */
  predicate Arithmetic(r: seq<int>, start: int, step: int) {
    forall k | 0 <= k < |r| :: r[k] == start + k * step
  }

  /** The k-th value of an upward range is start + k * step. */
  lemma {:induction false} PyRangeValues(start: int, stop: int, step: int)
    requires step > 0
    ensures Arithmetic(PyRange(start, stop, step), start, step)
    decreases stop - start
  {
    if start < stop {
      var r := PyRange(start, stop, step);
      var rest := PyRange(start + step, stop, step);
      PyRangeValues(start + step, stop, step);
      assert r == [start] + rest;
      forall k | 0 <= k < |r| ensures r[k] == start + k * step {
        if k > 0 {
          assert Arithmetic(rest, start + step, step);
          assert r[k] == rest[k - 1] == start + step + (k - 1) * step;
          MulStep(k, step);
        }
      }
    }
  }

  lemma MulStep(k: int, step: int)
    ensures (k - 1) * step + step == k * step
  {
  }

  /** The boundary list of generate_csv_files: `range(0, M + S, S)`. */
  function Boundaries(maxValue: int, size: int): seq<int>
    requires size != 0
  {
    PyRange(0, maxValue + size, size)
  }

  /** The boundary list that covers the maximum: `range(0, M + S + 1, S)`. */
  function CoveringBoundaries(maxValue: int, size: int): seq<int>
    requires size != 0
  {
    PyRange(0, maxValue + size + 1, size)
  }

  /** Some range [b[i], b[i + 1]) of consecutive boundaries holds v. */
  predicate Covered(b: seq<int>, v: int) {
    exists i | 0 <= i < |b| - 1 :: b[i] <= v < b[i + 1]
  }

  /** Consecutive values climb by a positive step. */
  predicate Climbs(b: seq<int>, step: int) {
    step > 0 && forall k | 0 <= k < |b| - 1 :: b[k + 1] == b[k] + step
  }

  /** A climbing list is ascending. */
  lemma {:induction false} ClimbsAscending(b: seq<int>, step: int, i: nat, j: nat)
    requires Climbs(b, step) && i < j < |b|
    ensures b[i] < b[j]
    decreases j - i
  {
    if i + 1 < j {
      ClimbsAscending(b, step, i + 1, j);
    }
  }

  /** A value from the first boundary up to but not including the last lies
      in some range. */
  lemma {:induction false} Locate(b: seq<int>, step: int, v: int)
    requires Climbs(b, step) && |b| >= 1 && b[0] <= v < b[|b| - 1]
    ensures Covered(b, v)
  {
    var n := |b| - 1;
    if v < b[n - 1] {
      Locate(b[..n], step, v);
      var i :| 0 <= i < n - 1 && b[..n][i] <= v < b[..n][i + 1];
      assert b[i] <= v < b[i + 1];
    } else {
      assert b[n - 1] <= v < b[n];
    }
  }

  /** The ranges of a climbing list are disjoint: a value lies in at most one. */
  lemma RangesDisjoint(b: seq<int>, step: int, v: int, i: nat, j: nat)
    requires Climbs(b, step) && i < |b| - 1 && j < |b| - 1
    requires b[i] <= v < b[i + 1] && b[j] <= v < b[j + 1]
    ensures i == j
  {
    if i < j {
      ClimbsAscending(b, step, i + 1, j + 1);
      if i + 1 < j { ClimbsAscending(b, step, i + 1, j); }
    } else if j < i {
      ClimbsAscending(b, step, j + 1, i + 1);
      if j + 1 < i { ClimbsAscending(b, step, j + 1, i); }
    }
  }

  /** No range holds a value at or above the last boundary. */
  lemma NotCoveredAbove(b: seq<int>, step: int, v: int)
    requires Climbs(b, step) && |b| >= 1 && v >= b[|b| - 1]
    ensures !Covered(b, v)
  {
    forall i | 0 <= i < |b| - 1 ensures !(b[i] <= v < b[i + 1]) {
      if i + 1 < |b| - 1 {
        ClimbsAscending(b, step, i + 1, |b| - 1);
      }
    }
  }

  /** The boundaries are 0, S, 2S, ...: ascending, S apart, so the ranges are
      contiguous and disjoint. There are ceil(M / S) ranges and the last bound
      is S * ceil(M / S), the least multiple of S not below M. */
  lemma BoundariesShape(maxValue: int, size: int)
    requires maxValue >= 0 && size > 0
    ensures var b := Boundaries(maxValue, size);
      && |b| >= 1 && b[0] == 0 && Climbs(b, size)
      && (forall k | 0 <= k < |b| :: b[k] == k * size)
      && |b| - 1 == (maxValue + size - 1) / size
      && b[|b| - 1] == size * ((maxValue + size - 1) / size)
      && maxValue <= b[|b| - 1] < maxValue + size
  {
    var b := Boundaries(maxValue, size);
    PyRangeUp(0, maxValue + size, size);
    PyRangeValues(0, maxValue + size, size);
    var n := |b| - 1;
    assert b[n] == n * size;
    DivMod(n, size, maxValue + size - 1 - n * size);
  }

  /** With M = 0 there is one boundary and no query. */
  lemma ZeroMaxNoExport(size: int)
    requires size > 0
    ensures Boundaries(0, size) == [0]
  {
    assert PyRange(size, size, size) == [];
  }

  /** Every value from 0 up to but not including M is in a range. */
  lemma CoversBelowMax(maxValue: int, size: int, v: int)
    requires maxValue >= 0 && size > 0 && 0 <= v < maxValue
    ensures Covered(Boundaries(maxValue, size), v)
  {
    PyRangeUp(0, maxValue + size, size);
    Locate(Boundaries(maxValue, size), size, v);
  }

  /** The maximum itself is exported exactly when S does not divide M. */
  lemma MaxCoveredIff(maxValue: int, size: int)
    requires maxValue >= 0 && size > 0
    ensures Covered(Boundaries(maxValue, size), maxValue) <==> maxValue % size != 0
  {
    var b := Boundaries(maxValue, size);
    PyRangeUp(0, maxValue + size, size);
    LastBoundary(maxValue, size);
    if b[|b| - 1] == maxValue {
      NotCoveredAbove(b, size, maxValue);
    } else {
      Locate(b, size, maxValue);
    }
  }

  /** The last boundary equals M exactly when S divides M. */
  lemma LastBoundary(maxValue: int, size: int)
    requires maxValue >= 0 && size > 0
    ensures var b := Boundaries(maxValue, size);
      |b| >= 1 && maxValue <= b[|b| - 1] && (b[|b| - 1] == maxValue <==> maxValue % size == 0)
  {
    BoundariesShape(maxValue, size);
    var b := Boundaries(maxValue, size);
    var n := |b| - 1;
    assert b[n] == n * size;
    if b[n] == maxValue {
      DivMod(n, size, 0);
    } else {
      NotMultiple(maxValue, size, n);
    }
  }

  /** A value strictly between two consecutive multiples of S is not a multiple of S. */
  lemma NotMultiple(v: int, size: int, n: int)
    requires size > 0 && v >= 0 && n * size - size < v < n * size
    ensures v % size != 0
  {
    var q := v / size;
    assert size * (n - q) == n * size - q * size;
    MulUnit(size, n - q);
    assert size * (n - 1 - q) == n * size - size - q * size;
    MulUnit(size, n - 1 - q);
  }

  /** M = 2000 with S = 1000 gives the ranges [0, 1000) and [1000, 2000):
      rows whose partition value is 2000 go to no file. */
  lemma MaxExcludedExample()
    ensures Boundaries(2000, 1000) == [0, 1000, 2000]
    ensures !Covered(Boundaries(2000, 1000), 2000)
  {
    assert PyRange(3000, 3000, 1000) == [];
    assert PyRange(2000, 3000, 1000) == [2000];
    assert PyRange(1000, 3000, 1000) == [1000, 2000];
    MaxCoveredIff(2000, 1000);
  }

  /** With stop M + S + 1 every value from 0 to M, M included, is in a range. */
  lemma CoveringCoversAll(maxValue: int, size: int, v: int)
    requires maxValue >= 0 && size > 0 && 0 <= v <= maxValue
    ensures Covered(CoveringBoundaries(maxValue, size), v)
    ensures Climbs(CoveringBoundaries(maxValue, size), size)
  {
    PyRangeUp(0, maxValue + size + 1, size);
    Locate(CoveringBoundaries(maxValue, size), size, v);
  }

  /** One COPY TO query and the file it writes. */
  datatype Export = Export(outfile: string, query: string)

  /** `f"/tmp/{prefix}_{lo}_{hi}.csv"`. */
  function FileName(prefix: string, lo: int, hi: int): string {
    "/tmp/" + prefix + "_" + IntToStr(lo) + "_" + IntToStr(hi) + ".csv"
  }

  /** The COPY TO query for the rows whose partition column lies in [lo, hi). */
  function Query(schema: string, table: string, column: string, lo: int, hi: int,
                 outfile: string, delimiter: string, header: bool): string
  {
    "COPY (SELECT * FROM " + schema + "." + table + " WHERE "
    + column + " >= " + IntToStr(lo) + " AND " + column + " < " + IntToStr(hi) + ") "
    + "TO '" + outfile + "' CSV DELIMITER '" + delimiter + "' " + (if header then "HEADER" else "") + ";"
  }

  /** The query asks for a CSV header exactly when `header` is set. */
  lemma QueryHeader(schema: string, table: string, column: string, lo: int, hi: int,
                    outfile: string, delimiter: string, header: bool)
    ensures var q := Query(schema, table, column, lo, hi, outfile, delimiter, header);
      |q| >= 7 && (header <==> q[|q| - 7..] == "HEADER;")
  {
    var q := Query(schema, table, column, lo, hi, outfile, delimiter, header);
    if !header {
      assert q[|q| - 2] == ' ';
    }
  }

  lemma IntToStrInjective(a: int, b: int)
    requires IntToStr(a) == IntToStr(b)
    ensures a == b
  {
    IntToStrRoundTrip(a);
    IntToStrRoundTrip(b);
  }

  /** A separator absent from both heads splits equal strings equally. */
  lemma SplitAtSeparator(a1: string, b1: string, a2: string, b2: string, sep: char)
    requires sep !in a1 && sep !in a2 && a1 + [sep] + b1 == a2 + [sep] + b2
    ensures a1 == a2 && b1 == b2
  {
    var s := a1 + [sep] + b1;
    assert forall k | 0 <= k < |a1| :: s[k] == a1[k];
    assert forall k | 0 <= k < |a2| :: s[k] == a2[k];
    assert s[|a1|] == sep && s[|a2|] == sep;
    assert |a1| == |a2|;
    assert a1 == s[..|a1|] && a2 == s[..|a2|];
    assert b1 == s[|a1| + 1..] && b2 == s[|a2| + 1..];
  }

  /** Different ranges write different files: the bounds can be read back
      from the file name. */
  lemma FileNamesDistinct(prefix: string, lo1: int, hi1: int, lo2: int, hi2: int)
    requires FileName(prefix, lo1, hi1) == FileName(prefix, lo2, hi2)
    ensures lo1 == lo2 && hi1 == hi2
  {
    IntToStrChars(lo1);
    IntToStrChars(lo2);
    NameParts("/tmp/" + prefix + "_", IntToStr(lo1), IntToStr(hi1), IntToStr(lo2), IntToStr(hi2));
    IntToStrInjective(lo1, lo2);
    IntToStrInjective(hi1, hi2);
  }

  /** `{head}{a}_{b}.csv` determines a and b when a holds no underscore. */
  lemma NameParts(head: string, a1: string, b1: string, a2: string, b2: string)
    requires '_' !in a1 && '_' !in a2
    requires head + a1 + "_" + b1 + ".csv" == head + a2 + "_" + b2 + ".csv"
    ensures a1 == a2 && b1 == b2
  {
    var t1 := a1 + "_" + (b1 + ".csv");
    var t2 := a2 + "_" + (b2 + ".csv");
    assert head + a1 + "_" + b1 + ".csv" == head + t1;
    assert head + a2 + "_" + b2 + ".csv" == head + t2;
    DropHead(head, t1, t2);
    SplitAtSeparator(a1, b1 + ".csv", a2, b2 + ".csv", '_');
    DropTail(b1, b2, ".csv");
  }

  lemma DropHead(head: string, t1: string, t2: string)
    requires head + t1 == head + t2
    ensures t1 == t2
  {
    assert t1 == (head + t1)[|head|..];
    assert t2 == (head + t2)[|head|..];
  }

  lemma DropTail(a1: string, a2: string, tail: string)
    requires a1 + tail == a2 + tail
    ensures a1 == a2
  {
    assert a1 == (a1 + tail)[..|a1|];
    assert a2 == (a2 + tail)[..|a2|];
  }

  /** The export of one range. */
  function RangeExport(schema: string, table: string, column: string, prefix: string,
                       delimiter: string, header: bool, lo: int, hi: int): Export
  {
    var outfile := FileName(prefix, lo, hi);
    Export(outfile, Query(schema, table, column, lo, hi, outfile, delimiter, header))
  }

  /** The enumerate loop of generate_csv_files: for each boundary but the
      last, the file name and the COPY TO query of the range it opens. */
  method ExportRanges(chunks: seq<int>, schema: string, table: string, column: string, prefix: string,
                      delimiter: string, header: bool)
    returns (exports: seq<Export>)
    ensures |exports| == if chunks == [] then 0 else |chunks| - 1
    ensures forall i | 0 <= i < |exports| ::
      exports[i] == RangeExport(schema, table, column, prefix, delimiter, header, chunks[i], chunks[i + 1])
  {
    exports := [];
    for i := 0 to |chunks|
      invariant |exports| == if i == 0 then 0 else Min(i, |chunks| - 1)
      invariant forall j | 0 <= j < |exports| ::
        exports[j] == RangeExport(schema, table, column, prefix, delimiter, header, chunks[j], chunks[j + 1])
    {
      if i < |chunks| - 1 {
        var outfile := FileName(prefix, chunks[i], chunks[i + 1]);
        var q := Query(schema, table, column, chunks[i], chunks[i + 1], outfile, delimiter, header);
        exports := exports + [Export(outfile, q)];
      }
    }
  }

  /** generate_csv_files as written, with the maximum of the partition column
      given: a zero partition size makes `range` raise ValueError. */
  method GenerateCsvFiles(maxValue: int, size: int, schema: string, table: string, column: string,
                          prefix: string, delimiter: string, header: bool)
    returns (exports: seq<Export>, failed: bool)
    ensures failed <==> size == 0
    ensures !failed ==> |exports| == if Boundaries(maxValue, size) == [] then 0 else |Boundaries(maxValue, size)| - 1
    ensures !failed ==> forall i | 0 <= i < |exports| ::
      var b := Boundaries(maxValue, size);
      exports[i] == RangeExport(schema, table, column, prefix, delimiter, header, b[i], b[i + 1])
  {
    if size == 0 {
      return [], true;
    }
    var chunks := Boundaries(maxValue, size);
    exports := ExportRanges(chunks, schema, table, column, prefix, delimiter, header);
    failed := false;
  }

  /** generate_csv_files with the boundary list `range(0, M + S + 1, S)`. */
  method GenerateCoveringCsvFiles(maxValue: int, size: int, schema: string, table: string, column: string,
                                  prefix: string, delimiter: string, header: bool)
    returns (exports: seq<Export>, failed: bool)
    ensures failed <==> size == 0
    ensures !failed ==> |exports| == if CoveringBoundaries(maxValue, size) == [] then 0 else |CoveringBoundaries(maxValue, size)| - 1
    ensures !failed ==> forall i | 0 <= i < |exports| ::
      var b := CoveringBoundaries(maxValue, size);
      exports[i] == RangeExport(schema, table, column, prefix, delimiter, header, b[i], b[i + 1])
  {
    if size == 0 {
      return [], true;
    }
    var chunks := CoveringBoundaries(maxValue, size);
    exports := ExportRanges(chunks, schema, table, column, prefix, delimiter, header);
    failed := false;
  }
}
