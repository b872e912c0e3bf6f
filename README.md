# IGRA sounding ETL: decoding, transformation and loading, in Dafny

This project models the sequential core of a Python ETL. The ETL reads IGRA v2
radiosonde sounding files, loads them into PostgreSQL and exports partitioned
CSV files. The model covers two source files.

- `python-etl/src/transform.py`, modules `PyText`, `Transform` and `TxtStream`:
  - `parse_header` and `parse_data_record` cut fixed-width lines into named
    raw fields. Slicing is Python's clamped slicing, so a short line gives
    truncated or empty fields and never fails.
  - `transform_record` updates the merged dictionary in place in four steps:
    - it drops `headrec` and `numlev`;
    - it splits `reltime` into `reltime_hh` and `reltime_mm`;
    - it casts 16 columns with `int()`, falling back to the COPY NULL marker `\N`;
    - it strips spaces from 5 flag columns, with `\N` for an empty result.
  - `dict_to_str` writes one line in PostgreSQL COPY text format: 24
    tab-separated columns and a newline.
  - `parse_txt_files` is a state machine over files of lines. A `#` line
    replaces the current header. A data line is merged with the current
    header and yields one record. The header carries over from one file to
    the next. A data line before any header fails.
- `python-etl/src/load.py`, module `Load`:
  - `insert_records` is a counter-and-buffer loop. It hands each buffer to
    `copy_from`, which is modelled as an abstract sink: the model returns the
    log of flushes, and each flush records whether the buffer was rewound.
  - `generate_csv_files` builds the boundary list `range(0, M + S, S)`. It
    then emits one file name and one `COPY ... TO` query per pair of
    consecutive boundaries.

Python primitives are modelled explicitly in `PyText`:
- `s[lo:hi]` with clamped bounds;
- `int()` on ASCII text: surrounding whitespace, an optional sign and at
  least one digit, anything else raising `ValueError`;
- `str(int)`;
- `str.replace(" ", "")`;
- `"\t".join` and `str.split("\t")`.

Dictionaries are `map<Key, ...>`. `Key` has one constructor per dictionary
key, and `Transform.Name` gives each key's Python spelling. Dictionary values
are `Value = Str(string) | Int(int)`.

`parse_txt_files` appears twice:
- `TxtStream.ParseStream` is stated for any per-record step `transform(header
  line, data line)`.
- `TxtStream.ParseTxtFiles` instantiates it with the ETL's step,
  `Transform.RecordLine`, which is
  `transform_record({**parse_header(h), **parse_data_record(d)})`
  (transform_record ends by calling `dict_to_str`).
  `Transform.EmitRecord` computes this step with the in-place method
  `Transform.TransformRecord`.

Three behaviours of the code shape the model:
- Short lines: the decoders slice with Python's clamped slices
  (transform.py:34-45, 78-90). A line shorter than its layout yields
  truncated or empty fields and never fails.
- Flushes: insert_records flushes an empty buffer before record 0. After the
  loop it hands the last buffer to `copy_from` without `seek(0)` (see
  Findings).
- Export ranges: `range(0, M + S, S)` misses `M` when S divides M (see
  Findings).

## Model

| member | source | states |
|---|---|---|
| PyText.Slice | python-etl/src/transform.py:34-45 | `s[lo:hi]` with clamped bounds: the length is min(hi, len) - lo when lo < hi and lo < len, else 0, and character k is `s[lo + k]` |
| PyText.ParseInt | python-etl/src/transform.py:142 | `int(s)` on ASCII text, with ValueError as None; characterised by IntToStrRoundTrip (every rendered int parses back) and by CastIntRendered |
| PyText.IntToStr | python-etl/src/transform.py:168-172 | `f"{n}"` for an int: non-empty, starting with no whitespace and ending in a digit; IntToStrRoundTrip and Load.IntToStrInjective show it determines n |
| PyText.IntToStrRoundTrip | python-etl/src/transform.py:140-142 | `int(str(n)) == n` for every integer n |
| PyText.IntToStrChars | python-etl/src/transform.py:168-172 | every character of `str(n)` is `-` or a digit, so a rendered int holds no tab, newline, space or `_` and cannot break the COPY line or a file name |
| PyText.RemoveSpaces | python-etl/src/transform.py:149 | `s.replace(" ", "")` holds no space, is no longer than s, and keeps every other character of s and no other |
| PyText.RemoveSpacesSpaceFree | python-etl/src/transform.py:149 | removing spaces from a space-free string changes nothing |
| PyText.JoinTabs | python-etl/src/transform.py:167-173 | the tab join of the rendered columns; SplitJoinTabs and JoinTabsCount characterise it |
| PyText.SplitJoinTabs | python-etl/src/transform.py:167-173 | splitting a tab join of tab-free fields gives the fields back |
| PyText.JoinTabsCount | python-etl/src/transform.py:167-173 | the tab join of tab-free fields holds one tab fewer than there are fields |
| Transform.Field | python-etl/src/transform.py:16-31 | a layout column at 1-based columns first..last selects last - first + 1 characters of a long enough line, and the empty string when the line ends before the column |
| Transform.ParseHeader | python-etl/src/transform.py:33-46 | the header dictionary has exactly the 12 keys headrec … lon |
| Transform.ParseHeaderLayout | python-etl/src/transform.py:16-46 | every header field is the slice at the columns of the IGRA v2 header layout (widths 1, 11, 4, 2, 2, 2, 4, 4, 8, 8, 7, 8) |
| Transform.HeaderLayoutFirst | python-etl/src/transform.py:19-24 | headrec, id, year, month, day and hour are cut at their layout columns |
| Transform.HeaderLayoutLast | python-etl/src/transform.py:25-30 | reltime, numlev, p_src, np_src, lat and lon are cut at their layout columns |
| Transform.ParseDataRecord | python-etl/src/transform.py:77-91 | the data dictionary has exactly the 13 keys lvltyp1 … wspd |
| Transform.ParseDataRecordLayout | python-etl/src/transform.py:59-91 | every data field is the slice at the columns of the IGRA v2 data layout (widths 1, 1, 5, 6, 1, 5, 1, 5, 1, 5, 5, 5, 5) |
| Transform.DataLayoutLevels | python-etl/src/transform.py:62-65 | lvltyp1, lvltyp2, etime and press are cut at their layout columns |
| Transform.DataLayoutMiddle | python-etl/src/transform.py:66-69 | pflag, gph, zflag and temp are cut at their layout columns |
| Transform.DataLayoutLast | python-etl/src/transform.py:70-74 | tflag, rh, dpdp, wdir and wspd are cut at their layout columns |
| Transform.Merge | python-etl/src/transform.py:196 | `{**header, **data}` has the keys of both, and a data value wins over a header value |
| Transform.MergedRecordKeys | python-etl/src/transform.py:193-196 | a merged header and data record holds every key transform_record reads |
| Transform.IntFieldsMembership | python-etl/src/transform.py:122-139 | a key is in the `to_int` list exactly when it is one of the 16 numeric columns |
| Transform.FlagFieldsMembership | python-etl/src/transform.py:147 | a key is in the `blank_to_null` list exactly when it is one of the 5 flag columns |
| Transform.HhKey | python-etl/src/transform.py:116 | the hour key of a split column c is named `c + "_hh"` |
| Transform.MmKey | python-etl/src/transform.py:117 | the minute key of a split column c is named `c + "_mm"` |
| Transform.BlankToNull | python-etl/src/transform.py:149-151 | a flag value is never empty and holds no space; it is the space-removed content when that is non-empty, else `\N` |
| Transform.AsValues | python-etl/src/transform.py:94 | the dictionary entering transform_record holds the merged raw strings under the same keys |
| Transform.Drop | python-etl/src/transform.py:109-111 | after the pops a key is present exactly when it was present and not listed, with its value unchanged |
| Transform.SplitReltime | python-etl/src/transform.py:114-118 | `reltime` is gone, `reltime_hh` holds its first two characters and `reltime_mm` the rest, and every other key is unchanged |
| Transform.Cast | python-etl/src/transform.py:140-144 | the keys are unchanged, each listed column holds its cast value and every other column is unchanged |
| Transform.CastInt | python-etl/src/transform.py:141-144 | `int(s)`, or `\N` when it raises ValueError; NumericColumn and CastIntRendered state that the result renders as the decimal form of `int(s)` or exactly `\N` |
| Transform.CastValue | python-etl/src/transform.py:140-144 | `int()` applied to a dictionary value: an int stays that int, a string is cast by CastInt; Cast applies it to the listed columns and CastValueIdempotent shows a second cast changes nothing |
| Transform.NullFill | python-etl/src/transform.py:148-151 | the keys are unchanged, each listed column holds its null-filled value and every other column is unchanged |
| Transform.DropStageReltime | python-etl/src/transform.py:109-118 | the drop step leaves `reltime` present as a string, so the split step cannot raise KeyError |
| Transform.SplitStageKeys | python-etl/src/transform.py:109-118 | after the drop and the split, the keys are exactly the 24 table columns |
| Transform.SplitStageStrings | python-etl/src/transform.py:113-118 | after the split every value is still a string |
| Transform.FieldListsAreRowKeys | python-etl/src/transform.py:122-147 | every `to_int` and `blank_to_null` column exists after the split, and no flag column is cast |
| Transform.CastStageFlags | python-etl/src/transform.py:140-148 | the cast leaves the flag columns present as strings, so `.replace` applies to them |
| Transform.CastReady | python-etl/src/transform.py:140-142 | every `to_int` column is present when the cast loop reads it |
| Transform.NullFillReady | python-etl/src/transform.py:148-149 | every `blank_to_null` column is present as a string when the null-fill loop reads it |
| Transform.Transformed | python-etl/src/transform.py:108-151 | the transformed dictionary has exactly the 24 table columns |
| Transform.TransformedColumn | python-etl/src/transform.py:108-151 | column by column: `int()` of the raw string or `\N` for the 16 numeric columns, the null-filled string for the 5 flag columns, the raw slice for the others |
| Transform.SplitStageValue | python-etl/src/transform.py:113-118 | after the split, each table column holds its raw string: the reltime parts for the split columns, the decoded slice otherwise |
| Transform.Raw | python-etl/src/transform.py:116-117 | the raw string of each column after the split: `reltime[:2]`, `reltime[2:]` or the decoded slice; SplitStageValue proves the split step leaves exactly these |
| Transform.Row | python-etl/src/transform.py:108-151 | the column-wise row holds exactly the 24 table columns |
| Transform.TransformedIsRow | python-etl/src/transform.py:108-151 | the four in-place steps yield exactly the column-wise row |
| Transform.CastValueIdempotent | python-etl/src/transform.py:140-144 | casting an already cast value changes nothing, so a column listed twice is cast once |
| Transform.BlankToNullIdempotent | python-etl/src/transform.py:148-151 | null-filling an already null-filled value changes nothing |
| Transform.ReltimeSplitLossless | python-etl/src/transform.py:116-117 | hour text followed by minute text is the original reltime, and the hour text is at most two characters long |
| Transform.NumericColumn | python-etl/src/transform.py:140-144 | a numeric output column is `str(int(raw))`, which parses back to `int(raw)`, or exactly `\N` when `int(raw)` fails; the cast never raises |
| Transform.CastIntRendered | python-etl/src/transform.py:141-144 | a cast string renders as the decimal form of its integer, which parses back, or as `\N` when `int()` fails |
| Transform.FlagColumn | python-etl/src/transform.py:147-151 | each of p_src, np_src, pflag, zflag and tflag is non-empty and space-free in the output: its space-removed content or `\N` |
| Transform.PlainColumn | python-etl/src/transform.py:108-151 | a column in none of the lists is id, press or gph, and it is emitted unchanged from the decoded slice |
| Transform.RowFields | python-etl/src/transform.py:167-172 | the 24 rendered values, with value i belonging to the i-th column in table order |
| Transform.Render | python-etl/src/transform.py:167-172 | `f"{v}"` for a dictionary value; CastIntRendered and OutputTabFree state what it yields for cast and string columns |
| Transform.DictToStr | python-etl/src/transform.py:167-173 | the line ends with a newline |
| Transform.DictToStrFields | python-etl/src/transform.py:167-173 | with tab-free values the line splits back into exactly the 24 rendered columns in order, and holds exactly 23 tabs |
| Transform.OutputTabFree | python-etl/src/transform.py:140-151 | tab-free raw fields give tab-free output columns |
| Transform.TransformRecord | python-etl/src/transform.py:94-154 | transform_record's in-place steps serialise exactly the transformed dictionary |
| Transform.DropColumns | python-etl/src/transform.py:109-111 | the pop loop gives the dictionary without the listed keys |
| Transform.SplitHhMm | python-etl/src/transform.py:114-118 | the split loop gives the dictionary with reltime replaced by its hour and minute parts |
| Transform.CastColumns | python-etl/src/transform.py:122-144 | the cast loop gives the dictionary with every listed column cast and every other column unchanged |
| Transform.CastNext | python-etl/src/transform.py:140-144 | one more iteration of the cast loop casts the current value of one more column |
| Transform.NullFillFlags | python-etl/src/transform.py:147-151 | the null-fill loop gives the dictionary with every listed column null-filled and every other column unchanged |
| Transform.RecordLine | python-etl/src/transform.py:193-196 | the record yielded for a header line and a data line ends with a newline |
| Transform.RecordLineFields | python-etl/src/transform.py:193-196 | for tab-free input lines the yielded record is the column-wise row serialised: it splits back into the 24 rendered columns and holds exactly 23 tabs |
| Transform.ParsedTabFree | python-etl/src/transform.py:33-91 | decoding tab-free lines gives tab-free fields |
| Transform.EmitRecord | python-etl/src/transform.py:193-196 | decoding, merging and transforming yields the record RecordLine specifies |
| TxtStream.LastHeader | python-etl/src/transform.py:192-193 | the header in force is a `#` line of the stream, and it exists whenever the stream starts with a `#` line |
| TxtStream.Lines | python-etl/src/transform.py:189-191 | the lines of the files in reading order, file after file; LinesPrefix and NextFile characterise it, and ParseStream is stated over it |
| TxtStream.IsHeaderLine | python-etl/src/transform.py:192 | `line.startswith("#")`; StreamStep states the transition it selects |
| TxtStream.Records | python-etl/src/transform.py:189-196 | the records of the line stream; RecordsCount and RecordAt characterise them (one per data line, built from the last earlier `#` line) |
| TxtStream.RecordsCount | python-etl/src/transform.py:191-196 | each data line yields one record and each `#` line none |
| TxtStream.RecordAt | python-etl/src/transform.py:191-196 | the data line at position j yields the record numbered by the data lines before it, built from the last `#` line before it |
| TxtStream.HeaderFirstIffHeaded | python-etl/src/transform.py:192-196 | the stream succeeds exactly when every data line has a `#` line before it |
| TxtStream.LastHeaderAppend | python-etl/src/transform.py:189-193 | the header after two streams is the second's last header, or the first's when the second has none |
| TxtStream.HeaderPersists | python-etl/src/transform.py:189-196 | a file with no `#` line keeps the header of the files before it |
| TxtStream.HeaderCarriesOver | python-etl/src/transform.py:189-196 | a `#` line in one file and a data line in the next yield one record, built from that header |
| TxtStream.StreamStep | python-etl/src/transform.py:191-196 | one line of the state machine: a `#` line becomes the header and yields nothing; a data line yields one record under the current header and fails exactly when there is none |
| TxtStream.FailureLeadingEmpty | python-etl/src/transform.py:189-197 | given that every earlier file was empty, a data line met with no header in file f means the whole stream starts with a data line, and no earlier file yielded a record |
| TxtStream.LinesPrefix | python-etl/src/transform.py:189-191 | the lines of the first files come first among all the lines |
| TxtStream.ParseFileLines | python-etl/src/transform.py:191-196 | the line loop of one file leaves the header and the records of the stream so far, and fails exactly when a data line precedes every header |
| TxtStream.NextFile | python-etl/src/transform.py:189-191 | the stream after file f is the stream before it followed by the lines of file f, and it yields one record per data line |
| TxtStream.ScanFile | python-etl/src/transform.py:189-197 | reading file f to its end and deleting it extends the loop state by that file |
| TxtStream.ScanFailed | python-etl/src/transform.py:189-196 | a failure in file f means no earlier file yielded a record, and the whole stream starts with a data line |
| TxtStream.ParseStream | python-etl/src/transform.py:189-198 | fails exactly when the stream starts with a data line; otherwise yields the records of every data line in order; file i is deleted after the records of files 0..i, and on failure no record is yielded |
| TxtStream.ParseTxtFiles | python-etl/src/transform.py:178-198 | with the ETL's record step: fails exactly when the stream starts with a data line; otherwise yields one record per data line, in line and file order, and deletes each file once all records up to its end are yielded; on failure only the empty leading files are deleted |
| Load.ChunksConcat | python-etl/src/load.py:110-133 | the chunks hold every record once, in input order |
| Load.ChunkSizes | python-etl/src/load.py:110-133 | every chunk but the last holds exactly c records, and the last one holds 1 to c |
| Load.ChunkBounds | python-etl/src/load.py:110-133 | n chunks hold at most n*c records and, when there are records, more than (n-1)*c |
| Load.ChunkCount | python-etl/src/load.py:110-133 | there are ceil(N / c) chunks |
| Load.Chunks | python-etl/src/load.py:110-133 | consecutive runs of c records; ChunksConcat, ChunkSizes, ChunkBounds and ChunkCount characterise them |
| Load.Loaded | python-etl/src/load.py:117-137 | `copy_from` reads from the buffer's position: all of a rewound buffer, nothing of one left at its end; LastChunkLost and RewoundLoadsAll show the effect |
| Load.InLoopFlushes | python-etl/src/load.py:110-133 | the flushes inside the loop; InLoopRows and FlushLayout characterise them |
| Load.FinalBuffer | python-etl/src/load.py:130-137 | the buffer left at loop exit; LoopDone and FlushLayout state it holds the last 1 to c records |
| Load.Flushes | python-etl/src/load.py:110-137 | the whole flush log; FlushLayout, FlushRows and LastChunkLost characterise it, and InsertRecords is proved to produce it |
| Load.InLoopRows | python-etl/src/load.py:110-133 | the in-loop flushes, all rewound, hold and load exactly the full chunks, in order |
| Load.FlushRows | python-etl/src/load.py:110-137 | the flushes hold the full chunks then the final buffer; they load the full chunks, plus the final buffer only when it is rewound |
| Load.FlushLayout | python-etl/src/load.py:110-137 | every record is written to exactly one buffer, in order; there are ceil(N / c) in-loop flushes and one more after the loop; the first is empty, the other in-loop flushes are rewound and hold c records, and the last holds 1 to c records when N ≥ 1 |
| Load.ChunksSplitLast | python-etl/src/load.py:110-137 | the full chunks followed by the buffer left after the loop are the records |
| Load.FlushPoint | python-etl/src/load.py:113 | inside a run of c records that starts at a multiple of c, `i % c == 0` holds only at its end |
| Load.FlushStep | python-etl/src/load.py:113-133 | a flush before record i closes the current chunk as one more rewound flush, and record i opens the next chunk |
| Load.WriteStep | python-etl/src/load.py:130-133 | without a flush, record i is appended to the current buffer |
| Load.LoopDone | python-etl/src/load.py:110-133 | when the records are exhausted, the flushes are the in-loop flushes and the buffer is the final chunk |
| Load.CopyChunks | python-etl/src/load.py:105-133 | the loop flushes, rewound, an empty buffer before record 0 and each full chunk; it leaves the last chunk in the buffer; with chunksize 0 it fails exactly when there is a record |
| Load.InsertRecords | python-etl/src/load.py:91-138 | the flush log is the in-loop flushes then the final buffer, not rewound; chunksize 0 fails exactly when there is a record |
| Load.LastChunkLost | python-etl/src/load.py:135-137 | as written, the loaded rows are the input minus its last 1 to c records, a strict prefix whenever there is input |
| Load.SingleRecordNeverLoaded | python-etl/src/load.py:135-137 | one record with chunk size 2 is never loaded |
| Load.InsertRecordsRewound | python-etl/src/load.py:91-138 | with a rewind before the last copy_from, the flush log is the in-loop flushes then the final buffer, rewound |
| Load.RewoundLoadsAll | python-etl/src/load.py:110-137 | with every flush rewound, the rows loaded are exactly the records, in order |
| Load.PyRangeUp | python-etl/src/load.py:175 | `range(start, stop, step)` with step > 0 is empty iff start ≥ stop, starts at start, climbs by step, and stops at the first value not below stop |
| Load.PyRangeValues | python-etl/src/load.py:175 | the k-th value of `range(start, stop, step)` is start + k*step |
| Load.PyRange | python-etl/src/load.py:175 | Python `range` for a nonzero step; PyRangeUp and PyRangeValues characterise it |
| Load.Boundaries | python-etl/src/load.py:175 | `range(0, M + S, S)`; BoundariesShape, LastBoundary and MaxCoveredIff characterise it |
| Load.ClimbsAscending | python-etl/src/load.py:175 | boundaries that climb by a positive step are strictly ascending |
| Load.Locate | python-etl/src/load.py:178-185 | a value from the first boundary up to, but excluding, the last lies in some range `[lo, hi)` |
| Load.RangesDisjoint | python-etl/src/load.py:178-185 | a value lies in at most one range `[lo, hi)` |
| Load.NotCoveredAbove | python-etl/src/load.py:178-185 | no range holds a value at or above the last boundary |
| Load.BoundariesShape | python-etl/src/load.py:175-179 | the boundaries are 0, S, 2S, …, climbing by S; there are ceil(M/S) ranges; the last bound is S*ceil(M/S), in [M, M + S) |
| Load.ZeroMaxNoExport | python-etl/src/load.py:175-179 | M = 0 gives the single boundary 0, so no query |
| Load.CoversBelowMax | python-etl/src/load.py:175-185 | every value in [0, M) lies in a range |
| Load.LastBoundary | python-etl/src/load.py:175 | the last boundary equals M exactly when S divides M |
| Load.NotMultiple | python-etl/src/load.py:175 | a value strictly between consecutive multiples of S is not a multiple of S |
| Load.MaxCoveredIff | python-etl/src/load.py:175-185 | M itself lies in a range exactly when S does not divide M |
| Load.MaxExcludedExample | python-etl/src/load.py:175-185 | M = 2000 with S = 1000 gives the boundaries 0, 1000, 2000, and value 2000 lies in no range |
| Load.CoveringCoversAll | python-etl/src/load.py:175-185 | with `range(0, M + S + 1, S)` every value in [0, M], M included, lies in a range, and the ranges are S apart |
| Load.QueryHeader | python-etl/src/load.py:183-187 | the query ends with `HEADER;` exactly when header is true |
| Load.Query | python-etl/src/load.py:183-187 | the COPY TO query of one range; QueryHeader states its HEADER ending |
| Load.FileName | python-etl/src/load.py:181 | `/tmp/{prefix}_{lo}_{hi}.csv`; FileNamesDistinct proves it determines lo and hi |
| Load.RangeExport | python-etl/src/load.py:181-187 | the outfile and the COPY TO query of one range `[lo, hi)`; ExportRanges emits one per consecutive pair, FileNamesDistinct shows the files differ and QueryHeader states the query ending |
| Load.IntToStrInjective | python-etl/src/load.py:181 | different boundaries render differently |
| Load.NameParts | python-etl/src/load.py:181 | a name `{head}{a}_{b}.csv` with no underscore in a determines a and b |
| Load.FileNamesDistinct | python-etl/src/load.py:181 | `/tmp/{prefix}_{lo}_{hi}.csv` determines lo and hi, so different ranges write different files |
| Load.ExportRanges | python-etl/src/load.py:178-192 | the enumerate loop emits, for each boundary but the last, the file name and query of the range it opens, and nothing for the last |
| Load.GenerateCsvFiles | python-etl/src/load.py:142-192 | as written: fails exactly when S = 0; otherwise emits one export per pair of consecutive boundaries of `range(0, M + S, S)`, in order |
| Load.CoveringBoundaries | python-etl/src/load.py:175 | the corrected boundary list `range(0, M + S + 1, S)`; CoveringCoversAll shows it covers [0, M] |
| Load.GenerateCoveringCsvFiles | python-etl/src/load.py:175-192 | the same with `range(0, M + S + 1, S)` |

## Left out

- Reading and deleting files: the lines of each file are an input. Deletion
  is recorded as the number of records yielded before each file is deleted.
- Line contents: lines are taken as Python yields them, newline included.
  The model accepts any string as a line.
- Database access: `copy_from` and `copy_expert` are an abstract sink, and
  the model returns the log of flushes and exports. This excludes
  `get_params_from_env`, `get_connection`, `get_cursor` and the
  `SELECT max(...)` query. Transactions and store failures are not modelled.
- Load.GenerateCsvFiles: the maximum of the partition column is an input.
  The `None` an empty table returns, on which `range` would raise TypeError,
  is not modelled.
- Environment variables: the schema and table names are parameters.
- Logging, the `with_logging` decorator and its timings: decorated
  functions are treated as undecorated.
- Load.InsertRecords: a buffer is the sequence of the records written to it,
  not a StringIO. "Not rewound" is modelled as loading nothing, because
  `copy_from` reads from the buffer's position, which after writing is its end.
- PyText.ParseInt: covers the ASCII grammar only: ASCII whitespace, an
  optional sign and ASCII digits. Underscores between digits, Unicode digits
  and Unicode whitespace, which Python's `int()` also accepts, are not modelled.
- Load.BoundariesShape and the other coverage lemmas assume S > 0 and M >= 0.
  With M < 0 (every partition value negative) `range(0, M + S, S)` is `[]`
  or `[0]`, so nothing is exported; `GenerateCsvFiles` computes this, but no
  lemma states it.
  `GenerateCsvFiles` also handles a negative S (as Python's `range` does) and
  S = 0 (failure), but no lemma states what a negative S exports.
- Lazy generation: parse_txt_files is a generator, and the model assumes the
  consumer drains it. A consumer that stops early leaves the current file and
  every later file undeleted (transform.py:197); the model records deletions
  only for a full traversal.
- Header handling: the header is kept as its raw line and decoded for each
  data line. The code decodes it once at the `#` line. The results are the
  same because decoding is a function of the line.
- `extract.py` (download, unzip, process pool) is not part of this model.
- `main.py` is not part of this model. It wires the stages together and
  imports `generate_copy_queries`, which load.py does not define; the
  function there is `generate_csv_files`.

## Findings

| source | as written | input that shows it | evidently intended | confidence | as-written member | corrected member |
|---|---|---|---|---|---|---|
| python-etl/src/load.py:136-137 | the last buffer is handed to `copy_from` without `f.seek(0)`, so it is read from its end and its records are not loaded | 1 record with chunksize 2: the loop flushes an empty buffer before record 0, and the record is written to a buffer that is never rewound | rewind before the last `copy_from`, as load.py:117 does inside the loop, so that every record is loaded once, in order | not executed | Load.InsertRecords (Load.LastChunkLost, Load.SingleRecordNeverLoaded) | Load.InsertRecordsRewound (Load.RewoundLoadsAll) |
| python-etl/src/load.py:175 | `range(0, M + S, S)` stops at the least multiple of S not below M, so when S divides M the last range is `[M - S, M)` and rows with value M are exported to no file | M = 2000, S = 1000: boundaries 0, 1000, 2000; no query selects value 2000 | every value in [0, M] lands in exactly one file, e.g. with `range(0, M + S + 1, S)` | not executed | Load.GenerateCsvFiles (Load.MaxCoveredIff, Load.MaxExcludedExample) | Load.GenerateCoveringCsvFiles (Load.CoveringCoversAll, Load.RangesDisjoint) |
