/** parse_txt_files as a state machine over the lines of the input files, one
    file after another. The machine is stated for any per-record step
    `transform`, which receives the current header line and a data line; the
    ETL's step is Transform.RecordLine, which Transform.EmitRecord computes. */
module TxtStream {
  import opened PyText
  import Transform

  /** `line.startswith("#")`. */
  predicate IsHeaderLine(line: string) { |line| > 0 && line[0] == '#' }

  /** The lines of the files, one file after another. */
  function Lines(files: seq<seq<string>>): seq<string> {
    if files == [] then [] else Lines(files[..|files| - 1]) + files[|files| - 1]
  }

  /** The most recent header line of a stream, if any. */
  function LastHeader(lines: seq<string>): (h: Option<string>)
    ensures h.Some? ==> IsHeaderLine(h.value) && h.value in lines
    ensures lines != [] && IsHeaderLine(lines[0]) ==> h.Some?
  {
    if lines == [] then None
    else if IsHeaderLine(lines[|lines| - 1]) then Some(lines[|lines| - 1])
    else LastHeader(lines[..|lines| - 1])
  }

  /** The stream does not start with a data line. */
  predicate HeaderFirst(lines: seq<string>) { lines == [] || IsHeaderLine(lines[0]) }

  /** The records a stream yields: one per data line, in order, each built
      from the header most recently seen. */
  function Records(lines: seq<string>, transform: (string, string) -> string): seq<string>
    requires HeaderFirst(lines)
  {
    if lines == [] then []
    else
      var prefix := lines[..|lines| - 1];
      var last := lines[|lines| - 1];
      if IsHeaderLine(last) then Records(prefix, transform)
      else
        assert prefix != [] && prefix[0] == lines[0];
        Records(prefix, transform) + [transform(LastHeader(prefix).value, last)]
  }

  function DataLineCount(lines: seq<string>): nat {
    if lines == [] then 0
    else DataLineCount(lines[..|lines| - 1]) + if IsHeaderLine(lines[|lines| - 1]) then 0 else 1
  }

  /** Each data line yields one record, and a header line none. */
  lemma {:induction false} RecordsCount(lines: seq<string>, transform: (string, string) -> string)
    requires HeaderFirst(lines)
    ensures |Records(lines, transform)| == DataLineCount(lines)
  {
    if lines != [] {
      var prefix := lines[..|lines| - 1];
      if prefix != [] { assert prefix[0] == lines[0]; }
      RecordsCount(prefix, transform);
    }
  }

  /** The data line at position j yields the record numbered by the data lines
      before it, built from the last header line before it. */
  lemma {:induction false} RecordAt(lines: seq<string>, transform: (string, string) -> string, j: nat)
    requires HeaderFirst(lines) && j < |lines| && !IsHeaderLine(lines[j])
    ensures LastHeader(lines[..j]).Some?
    ensures DataLineCount(lines[..j]) < |Records(lines, transform)|
    ensures Records(lines, transform)[DataLineCount(lines[..j])] == transform(LastHeader(lines[..j]).value, lines[j])
  {
    var prefix := lines[..|lines| - 1];
    assert lines[..j] != [] && lines[..j][0] == lines[0];
    if prefix != [] { assert prefix[0] == lines[0]; }
    if j == |lines| - 1 {
      assert lines[..j] == prefix;
      RecordsCount(prefix, transform);
    } else {
      RecordAt(prefix, transform, j);
      assert prefix[..j] == lines[..j];
    }
  }

  /** A stream fails exactly when some data line has no header line before it. */
  lemma HeaderFirstIffHeaded(lines: seq<string>)
    ensures HeaderFirst(lines) <==>
      forall j | 0 <= j < |lines| && !IsHeaderLine(lines[j]) :: LastHeader(lines[..j]).Some?
  {
    if HeaderFirst(lines) {
      forall j | 0 <= j < |lines| && !IsHeaderLine(lines[j]) ensures LastHeader(lines[..j]).Some? {
        assert lines[..j] != [] && lines[..j][0] == lines[0];
      }
    } else {
      assert lines[..0] == [];
    }
  }

  /** The header in force after two streams: the second's last header, or the
      first's when the second has none. */
  lemma {:induction false} LastHeaderAppend(a: seq<string>, b: seq<string>)
    ensures LastHeader(a + b) == if LastHeader(b).Some? then LastHeader(b) else LastHeader(a)
  {
    if b == [] {
      assert a + b == a;
    } else {
      assert (a + b)[..|a + b| - 1] == a + b[..|b| - 1];
      LastHeaderAppend(a, b[..|b| - 1]);
    }
  }

  /** The header is not reset between files: a file with no header line keeps
      the header of the files before it. */
  lemma HeaderPersists(files: seq<seq<string>>)
    requires files != [] && forall line | line in files[|files| - 1] :: !IsHeaderLine(line)
    ensures LastHeader(Lines(files)) == LastHeader(Lines(files[..|files| - 1]))
  {
    LastHeaderAppend(Lines(files[..|files| - 1]), files[|files| - 1]);
  }

  /** A header line in one file and a data line in the next yield one record,
      built from that header. */
  lemma HeaderCarriesOver(header: string, data: string, transform: (string, string) -> string)
    requires IsHeaderLine(header) && !IsHeaderLine(data)
    ensures HeaderFirst(Lines([[header], [data]]))
    ensures Records(Lines([[header], [data]]), transform) == [transform(header, data)]
  {
    assert [[header], [data]][..1] == [[header]];
    assert [[header]][..0] == [];
    assert Lines([[header]]) == [header];
    assert Lines([[header], [data]]) == [header] + [data];
    assert [] + [header] == [header];
    StreamStep([], header, transform);
    StreamStep([header], data, transform);
  }

  /** parse_txt_files: reads the files in order, line by line; a header line
      replaces the current header, a data line is merged with it, transformed
      and yielded; each file is deleted once its lines are exhausted. The
      header is not reset between files. A data line before any header raises,
      which ends the stream. `deletions[i]` is the number of records yielded
      before file i is deleted. */
  method ParseStream(files: seq<seq<string>>, transform: (string, string) -> string)
    returns (records: seq<string>, deletions: seq<nat>, failed: bool)
    ensures failed <==> !HeaderFirst(Lines(files))
    ensures !failed ==> records == Records(Lines(files), transform)
    ensures !failed ==> |deletions| == |files|
    ensures !failed ==> forall i | 0 <= i < |files| :: deletions[i] == DataLineCount(Lines(files[..i + 1]))
    ensures failed ==> records == [] && |deletions| < |files| && Lines(files[..|deletions|]) == []
    ensures failed ==> forall i | 0 <= i < |deletions| :: deletions[i] == 0
  {
    records, deletions, failed := [], [], false;
    var header: Option<string> := None;
    assert files[..0] == [];
    for f := 0 to |files|
      invariant Scanned(files, f, header, records, deletions, transform)
    {
      var header', records';
      header', records', failed := ParseFileLines(Lines(files[..f]), files[f], header, records, transform);
      if failed {
        ScanFailed(files, f, deletions);
        records := [];
        return;
      }
      ScanFile(files, f, header, records, deletions, header', records', transform);
      header, records, deletions := header', records', deletions + [|records'|];
    }
    assert files[..|files|] == files;
  }

  /** The state of parse_txt_files after the first f files: the header in
      force, the records yielded, and the records yielded before each
      deletion. */
  ghost predicate Scanned(files: seq<seq<string>>, f: nat, header: Option<string>, records: seq<string>,
                          deletions: seq<nat>, transform: (string, string) -> string)
  {
    && f <= |files|
    && HeaderFirst(Lines(files[..f]))
    && header == LastHeader(Lines(files[..f]))
    && records == Records(Lines(files[..f]), transform)
    && |deletions| == f
    && forall i | 0 <= i < f :: deletions[i] == DataLineCount(Lines(files[..i + 1]))
  }

  /** Reading file f to its end and deleting it extends the state by that file. */
  lemma ScanFile(files: seq<seq<string>>, f: nat, header: Option<string>, records: seq<string>, deletions: seq<nat>,
                 header': Option<string>, records': seq<string>, transform: (string, string) -> string)
    requires Scanned(files, f, header, records, deletions, transform) && f < |files|
    requires HeaderFirst(Lines(files[..f]) + files[f])
    requires header' == LastHeader(Lines(files[..f]) + files[f])
    requires records' == Records(Lines(files[..f]) + files[f], transform)
    ensures Scanned(files, f + 1, header', records', deletions + [|records'|], transform)
  {
    NextFile(files, f, transform);
  }

  /** A failure in file f: no file before it yielded anything, and the whole
      stream starts with a data line. */
  lemma ScanFailed(files: seq<seq<string>>, f: nat, deletions: seq<nat>)
    requires f < |files| && Lines(files[..f]) == [] && !HeaderFirst(Lines(files[..f]) + files[f])
    requires |deletions| == f && forall i | 0 <= i < f :: deletions[i] == DataLineCount(Lines(files[..i + 1]))
    ensures !HeaderFirst(Lines(files))
    ensures forall i | 0 <= i < f :: deletions[i] == 0
  {
    FailureLeadingEmpty(files, f);
  }

  /** The stream after file f is the stream before it followed by its lines. */
  lemma NextFile(files: seq<seq<string>>, f: nat, transform: (string, string) -> string)
    requires f < |files| && HeaderFirst(Lines(files[..f]) + files[f])
    ensures Lines(files[..f + 1]) == Lines(files[..f]) + files[f]
    ensures HeaderFirst(Lines(files[..f + 1]))
    ensures |Records(Lines(files[..f + 1]), transform)| == DataLineCount(Lines(files[..f + 1]))
  {
    assert files[..f + 1][..f] == files[..f];
    RecordsCount(Lines(files[..f + 1]), transform);
  }

  /** The lines of one file, read after the stream `seen`: the header and the
      records evolve as above; a data line with no header yet fails. */
  method ParseFileLines(seen: seq<string>, lines: seq<string>, header0: Option<string>, records0: seq<string>,
                        transform: (string, string) -> string)
    returns (header: Option<string>, records: seq<string>, failed: bool)
    requires HeaderFirst(seen) && header0 == LastHeader(seen) && records0 == Records(seen, transform)
    ensures failed <==> !HeaderFirst(seen + lines)
    ensures !failed ==> header == LastHeader(seen + lines) && records == Records(seen + lines, transform)
    ensures failed ==> seen == [] && records == []
  {
    header, records, failed := header0, records0, false;
    assert seen + lines[..0] == seen;
    for n := 0 to |lines|
      invariant HeaderFirst(seen + lines[..n])
      invariant header == LastHeader(seen + lines[..n])
      invariant records == Records(seen + lines[..n], transform)
    {
      var line := lines[n];
      var stream := seen + lines[..n];
      AppendNext(seen, lines, n);
      StreamStep(stream, line, transform);
      if IsHeaderLine(line) {
        header := Some(line);
      } else {
        if header.None? {
          assert (seen + lines)[0] == line;
          failed := true;
          return;
        }
        var rec := transform(header.value, line);
        records := records + [rec];
      }
    }
    assert lines[..|lines|] == lines;
  }

  lemma AppendNext<T>(a: seq<T>, b: seq<T>, n: nat)
    requires n < |b|
    ensures a + b[..n + 1] == (a + b[..n]) + [b[n]]
  {
    assert b[..n + 1] == b[..n] + [b[n]];
  }

  /** One step of the state machine: a header line becomes the current header
      and yields nothing; a data line yields one record under the current
      header, and fails exactly when there is none yet. */
  lemma StreamStep(stream: seq<string>, line: string, transform: (string, string) -> string)
    requires HeaderFirst(stream)
    ensures LastHeader(stream + [line]) == if IsHeaderLine(line) then Some(line) else LastHeader(stream)
    ensures HeaderFirst(stream + [line]) <==> IsHeaderLine(line) || LastHeader(stream).Some?
    ensures LastHeader(stream).None? ==> stream == []
    ensures HeaderFirst(stream + [line]) ==>
      Records(stream + [line], transform) ==
        if IsHeaderLine(line) then Records(stream, transform)
        else Records(stream, transform) + [transform(LastHeader(stream).value, line)]
  {
    assert (stream + [line])[..|stream|] == stream;
    if stream != [] { assert (stream + [line])[0] == stream[0]; }
  }

  /** A data line met with no header yet: every earlier file was empty, so
      the whole stream starts with that data line. */
  lemma FailureLeadingEmpty(files: seq<seq<string>>, f: nat)
    requires f < |files| && Lines(files[..f]) == []
    requires !HeaderFirst(Lines(files[..f]) + files[f])
    ensures forall i | 1 <= i <= f :: DataLineCount(Lines(files[..i])) == 0
    ensures !HeaderFirst(Lines(files))
  {
    LinesPrefix(files, f + 1);
    assert files[..f + 1][..f] == files[..f];
    forall i | 1 <= i <= f ensures DataLineCount(Lines(files[..i])) == 0 {
      LinesPrefix(files[..f], i);
      assert files[..f][..i] == files[..i];
    }
  }

  /** The lines of a prefix of the files are a prefix of all the lines. */
  lemma {:induction false} LinesPrefix(files: seq<seq<string>>, f: nat)
    requires f <= |files|
    ensures Lines(files[..f]) <= Lines(files)
  {
    if f < |files| {
      LinesPrefix(files[..|files| - 1], f);
      assert files[..|files| - 1][..f] == files[..f];
    } else {
      assert files[..f] == files;
    }
  }

  /** parse_txt_files with the ETL's own record step: every data line becomes
      `transform_record({**header, **data})`. */
  method ParseTxtFiles(files: seq<seq<string>>) returns (records: seq<string>, deletions: seq<nat>, failed: bool)
    ensures failed <==> !HeaderFirst(Lines(files))
    ensures !failed ==> records == Records(Lines(files), Transform.RecordLine)
    ensures !failed ==> |records| == DataLineCount(Lines(files))
    ensures !failed ==> |deletions| == |files|
    ensures !failed ==> forall i | 0 <= i < |files| :: deletions[i] == DataLineCount(Lines(files[..i + 1]))
    ensures failed ==> records == [] && |deletions| < |files| && Lines(files[..|deletions|]) == []
    ensures failed ==> forall i | 0 <= i < |deletions| :: deletions[i] == 0
  {
    records, deletions, failed := ParseStream(files, Transform.RecordLine);
    if !failed {
      RecordsCount(Lines(files), Transform.RecordLine);
    }
  }
}
