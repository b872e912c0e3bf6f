/** Decoding of IGRA v2 fixed-width sounding lines and their transformation into
    rows of PostgreSQL's COPY text format (python-etl/src/transform.py). */
module Transform {
  import opened PyText

  /** The keys of the record dictionaries; Name gives each one's Python spelling. */
  datatype Key =
    | Headrec | Id | Year | Month | Day | Hour | Reltime | Numlev | PSrc | NpSrc | Lat | Lon
    | Lvltyp1 | Lvltyp2 | Etime | Press | Pflag | Gph | Zflag | Temp | Tflag | Rh | Dpdp | Wdir | Wspd
    | ReltimeHh | ReltimeMm

  function Name(k: Key): string {
    match k
    case Headrec => "headrec" case Id => "id" case Year => "year" case Month => "month"
    case Day => "day" case Hour => "hour" case Reltime => "reltime" case Numlev => "numlev"
    case PSrc => "p_src" case NpSrc => "np_src" case Lat => "lat" case Lon => "lon"
    case Lvltyp1 => "lvltyp1" case Lvltyp2 => "lvltyp2" case Etime => "etime" case Press => "press"
    case Pflag => "pflag" case Gph => "gph" case Zflag => "zflag" case Temp => "temp"
    case Tflag => "tflag" case Rh => "rh" case Dpdp => "dpdp" case Wdir => "wdir" case Wspd => "wspd"
    case ReltimeHh => "reltime_hh" case ReltimeMm => "reltime_mm"
  }

  /** A field of a fixed-width layout, at 1-based inclusive columns, as the
      IGRA v2 format description lists it. */
  datatype Column = Column(name: Key, first: nat, last: nat)

  /** IGRA v2 header-record layout. */
  const HeaderLayout: seq<Column> := [
    Column(Headrec, 1, 1), Column(Id, 2, 12), Column(Year, 14, 17),
    Column(Month, 19, 20), Column(Day, 22, 23), Column(Hour, 25, 26),
    Column(Reltime, 28, 31), Column(Numlev, 33, 36), Column(PSrc, 38, 45),
    Column(NpSrc, 47, 54), Column(Lat, 56, 62), Column(Lon, 64, 71)]

  /** IGRA v2 data-record layout. */
  const DataLayout: seq<Column> := [
    Column(Lvltyp1, 1, 1), Column(Lvltyp2, 2, 2), Column(Etime, 4, 8),
    Column(Press, 10, 15), Column(Pflag, 16, 16), Column(Gph, 17, 21),
    Column(Zflag, 22, 22), Column(Temp, 23, 27), Column(Tflag, 28, 28),
    Column(Rh, 29, 33), Column(Dpdp, 35, 39), Column(Wdir, 41, 45),
    Column(Wspd, 47, 51)]

  const HeaderKeys: set<Key> := {
    Headrec, Id, Year, Month, Day, Hour,
    Reltime, Numlev, PSrc, NpSrc, Lat, Lon}

  const DataKeys: set<Key> := {
    Lvltyp1, Lvltyp2, Etime, Press, Pflag, Gph,
    Zflag, Temp, Tflag, Rh, Dpdp, Wdir, Wspd}

  /** The raw substring a layout column selects. A line too short for the
      column gives a truncated or empty field, never an error. */
  function Field(line: string, c: Column): (r: string)
    requires c.first >= 1
    ensures c.first <= c.last <= |line| ==> |r| == c.last - c.first + 1
    ensures |line| < c.first ==> r == ""
  {
    Slice(line, c.first - 1, c.last)
  }

  /** Cuts a header line (starting with '#') into its twelve raw fields. */
  function ParseHeader(line: string): (h: map<Key, string>)
    ensures h.Keys == HeaderKeys
  {
    map[
      Headrec := Slice(line, 0, 1),
      Id := Slice(line, 1, 12),
      Year := Slice(line, 13, 17),
      Month := Slice(line, 18, 20),
      Day := Slice(line, 21, 23),
      Hour := Slice(line, 24, 26),
      Reltime := Slice(line, 27, 31),
      Numlev := Slice(line, 32, 36),
      PSrc := Slice(line, 37, 45),
      NpSrc := Slice(line, 46, 54),
      Lat := Slice(line, 55, 62),
      Lon := Slice(line, 63, 71)]
  }

  /** Cuts a data line into its thirteen raw fields. */
  function ParseDataRecord(line: string): (d: map<Key, string>)
    ensures d.Keys == DataKeys
  {
    map[
      Lvltyp1 := Slice(line, 0, 1),
      Lvltyp2 := Slice(line, 1, 2),
      Etime := Slice(line, 3, 8),
      Press := Slice(line, 9, 15),
      Pflag := Slice(line, 15, 16),
      Gph := Slice(line, 16, 21),
      Zflag := Slice(line, 21, 22),
      Temp := Slice(line, 22, 27),
      Tflag := Slice(line, 27, 28),
      Rh := Slice(line, 28, 33),
      Dpdp := Slice(line, 34, 39),
      Wdir := Slice(line, 40, 45),
      Wspd := Slice(line, 46, 51)]
  }

  /** The field stored under a layout column's key is the slice that column selects. */
  predicate FieldAt(line: string, m: map<Key, string>, c: Column) {
    c.first >= 1 && c.name in m && m[c.name] == Field(line, c)
  }

  /** Every header field is cut at the columns the IGRA v2 header layout documents. */
  lemma ParseHeaderLayout(line: string)
    ensures forall i | 0 <= i < |HeaderLayout| :: FieldAt(line, ParseHeader(line), HeaderLayout[i])
  {
    HeaderLayoutFirst(line);
    HeaderLayoutLast(line);
  }

  lemma HeaderLayoutFirst(line: string)
    ensures forall i | 0 <= i < 6 :: FieldAt(line, ParseHeader(line), HeaderLayout[i])
  {
    var h := ParseHeader(line);
    assert FieldAt(line, h, HeaderLayout[0]);
    assert FieldAt(line, h, HeaderLayout[1]);
    assert FieldAt(line, h, HeaderLayout[2]);
    assert FieldAt(line, h, HeaderLayout[3]);
    assert FieldAt(line, h, HeaderLayout[4]);
    assert FieldAt(line, h, HeaderLayout[5]);
  }

  lemma HeaderLayoutLast(line: string)
    ensures forall i | 6 <= i < 12 :: FieldAt(line, ParseHeader(line), HeaderLayout[i])
  {
    var h := ParseHeader(line);
    assert FieldAt(line, h, HeaderLayout[6]);
    assert FieldAt(line, h, HeaderLayout[7]);
    assert FieldAt(line, h, HeaderLayout[8]);
    assert FieldAt(line, h, HeaderLayout[9]);
    assert FieldAt(line, h, HeaderLayout[10]);
    assert FieldAt(line, h, HeaderLayout[11]);
  }

  /** Every data field is cut at the columns the IGRA v2 data layout documents. */
  lemma ParseDataRecordLayout(line: string)
    ensures forall i | 0 <= i < |DataLayout| :: FieldAt(line, ParseDataRecord(line), DataLayout[i])
  {
    DataLayoutLevels(line);
    DataLayoutMiddle(line);
    DataLayoutLast(line);
  }

  lemma DataLayoutLevels(line: string)
    ensures forall i | 0 <= i < 4 :: FieldAt(line, ParseDataRecord(line), DataLayout[i])
  {
    var d := ParseDataRecord(line);
    assert FieldAt(line, d, DataLayout[0]);
    assert FieldAt(line, d, DataLayout[1]);
    assert FieldAt(line, d, DataLayout[2]);
    assert FieldAt(line, d, DataLayout[3]);
  }

  lemma DataLayoutMiddle(line: string)
    ensures forall i | 4 <= i < 8 :: FieldAt(line, ParseDataRecord(line), DataLayout[i])
  {
    var d := ParseDataRecord(line);
    assert FieldAt(line, d, DataLayout[4]);
    assert FieldAt(line, d, DataLayout[5]);
    assert FieldAt(line, d, DataLayout[6]);
    assert FieldAt(line, d, DataLayout[7]);
  }

  lemma DataLayoutLast(line: string)
    ensures forall i | 8 <= i < 13 :: FieldAt(line, ParseDataRecord(line), DataLayout[i])
  {
    var d := ParseDataRecord(line);
    assert FieldAt(line, d, DataLayout[8]);
    assert FieldAt(line, d, DataLayout[9]);
    assert FieldAt(line, d, DataLayout[10]);
    assert FieldAt(line, d, DataLayout[11]);
    assert FieldAt(line, d, DataLayout[12]);
  }

  /** The merged dictionary holds every header and data key; the transformed
      one holds the table's columns: everything but the dropped keys and the
      unsplit release time. */
  predicate IsMergedKey(k: Key) { !k.ReltimeHh? && !k.ReltimeMm? }
  predicate IsRowKey(k: Key) { !k.Headrec? && !k.Numlev? && !k.Reltime? }

  predicate HasMergedKeys(rec: map<Key, string>) { forall k | IsMergedKey(k) :: k in rec }
  predicate HasRowKeys(r: map<Key, Value>) { forall k | IsRowKey(k) :: k in r }

  lemma MergedKeysSplit()
    ensures forall k | IsMergedKey(k) :: k in HeaderKeys || k in DataKeys
  {
  }

  /** `{**header, **data}`: a union in which the data fields win. */
  function Merge(header: map<Key, string>, data: map<Key, string>): (m: map<Key, string>)
    ensures m.Keys == header.Keys + data.Keys
    ensures forall k | k in data :: m[k] == data[k]
    ensures forall k | k in header && k !in data :: m[k] == header[k]
  {
    header + data
  }

  /** A dictionary value: a raw string, or what `int()` made of one. */
  datatype Value = Str(s: string) | Int(i: int)

  /** PostgreSQL's COPY text-format NULL marker, the two characters backslash and N. */
  const NullMarker: string := "\\N"

  /** The columns the transformation drops, splits, casts and null-fills, in the
      order the source lists them. */
  const Dropped: seq<Key> := [Headrec, Numlev]
  const HhMmFields: seq<Key> := [Reltime]
  const IntFields: seq<Key> := [
    Year, Month, Day, Hour, Lat, Lon, ReltimeHh, ReltimeMm,
    Lvltyp1, Lvltyp2, Etime, Temp, Rh, Dpdp, Wdir, Wspd]
  const FlagFields: seq<Key> := [PSrc, NpSrc, Pflag, Zflag, Tflag]

  /** Membership in IntFields and FlagFields, by constructor. */
  predicate IsIntField(k: Key) {
    k.Year? || k.Month? || k.Day? || k.Hour? || k.Lat? || k.Lon? || k.ReltimeHh? || k.ReltimeMm? ||
    k.Lvltyp1? || k.Lvltyp2? || k.Etime? || k.Temp? || k.Rh? || k.Dpdp? || k.Wdir? || k.Wspd?
  }

  predicate IsFlagField(k: Key) { k.PSrc? || k.NpSrc? || k.Pflag? || k.Zflag? || k.Tflag? }

  lemma IntFieldsMembership(k: Key) ensures k in IntFields <==> IsIntField(k) {
    if IsIntField(k) {
      assert k == IntFields[IntFieldIndex(k)];
    } else {
      forall i | 0 <= i < |IntFields| ensures IntFields[i] != k {
        assert IsIntField(IntFields[i]);
      }
    }
  }

  function IntFieldIndex(k: Key): nat
    requires IsIntField(k)
  {
    match k
    case Year => 0 case Month => 1 case Day => 2 case Hour => 3 case Lat => 4 case Lon => 5
    case ReltimeHh => 6 case ReltimeMm => 7 case Lvltyp1 => 8 case Lvltyp2 => 9 case Etime => 10
    case Temp => 11 case Rh => 12 case Dpdp => 13 case Wdir => 14 case Wspd => 15
  }
  lemma FlagFieldsMembership(k: Key) ensures k in FlagFields <==> IsFlagField(k) {}

  /** The `f"{c}_hh"` and `f"{c}_mm"` keys of a split HHMM column. */
  function HhKey(c: Key): (k: Key)
    requires c in HhMmFields
    ensures Name(k) == Name(c) + "_hh"
  {
    ReltimeHh
  }

  function MmKey(c: Key): (k: Key)
    requires c in HhMmFields
    ensures Name(k) == Name(c) + "_mm"
  {
    ReltimeMm
  }

  /** `int(s)`, with ValueError caught and replaced by the NULL marker. */
  function CastInt(s: string): Value {
    match ParseInt(s)
    case Some(n) => Int(n)
    case None => Str(NullMarker)
  }

  /** The same on a dictionary value: `int()` of an int is that int. */
  function CastValue(v: Value): Value {
    match v
    case Int(n) => Int(n)
    case Str(s) => CastInt(s)
  }

  /** `s.replace(" ", "")`, then the NULL marker if nothing is left. */
  function BlankToNull(s: string): (r: string)
    ensures r != [] && ' ' !in r
    ensures r == NullMarker || r == RemoveSpaces(s)
    ensures RemoveSpaces(s) != [] ==> r == RemoveSpaces(s)
  {
    var t := RemoveSpaces(s);
    if t == [] then NullMarker else t
  }

  /** The string a column of the transformed dictionary holds before casting:
      the first two and the remaining characters of the release time for the
      split columns, the decoded slice for every other column. */
  function Raw(rec: map<Key, string>, k: Key): string
    requires Reltime in rec && IsRowKey(k) && (IsMergedKey(k) ==> k in rec)
  {
    if k == ReltimeHh then Slice(rec[Reltime], 0, 2)
    else if k == ReltimeMm then Slice(rec[Reltime], 2, |rec[Reltime]|)
    else rec[k]
  }

  /** The merged record as a dictionary of values, before any step. */
  function AsValues(rec: map<Key, string>): (r: map<Key, Value>)
    ensures r.Keys == rec.Keys
    ensures forall k | k in r :: r[k] == Str(rec[k])
  {
    map k | k in rec :: Str(rec[k])
  }

  /** Step 1 on values: the listed keys are popped. */
  function Drop(r: map<Key, Value>, fields: seq<Key>): (d: map<Key, Value>)
    ensures forall k :: k in d <==> k in r && k !in fields
    ensures forall k | k in d :: d[k] == r[k]
  {
    map k | k in r && k !in fields :: r[k]
  }

  /** Step 2 on values: the release time is replaced by its hour and minute parts. */
  function SplitReltime(r: map<Key, Value>): (s: map<Key, Value>)
    requires Reltime in r && r[Reltime].Str?
    ensures forall k :: k in s <==> (k in r && k != Reltime) || k == ReltimeHh || k == ReltimeMm
    ensures s[ReltimeHh] == Str(Slice(r[Reltime].s, 0, 2))
    ensures s[ReltimeMm] == Str(Slice(r[Reltime].s, 2, |r[Reltime].s|))
    ensures forall k | k in s && k != ReltimeHh && k != ReltimeMm :: s[k] == r[k]
  {
    var hhmm := r[Reltime].s;
    r[ReltimeHh := Str(Slice(hhmm, 0, 2))][ReltimeMm := Str(Slice(hhmm, 2, |hhmm|))] - {Reltime}
  }

  /** Step 3 on values: each listed column is cast. */
  function Cast(r: map<Key, Value>, fields: seq<Key>): (c: map<Key, Value>)
    ensures c.Keys == r.Keys
    ensures forall k | k in c :: c[k] == if k in fields then CastValue(r[k]) else r[k]
  {
    map k | k in r :: if k in fields then CastValue(r[k]) else r[k]
  }

  /** Step 4 on values: each listed column is null-filled. */
  function NullFill(r: map<Key, Value>, fields: seq<Key>): (n: map<Key, Value>)
    requires forall i | 0 <= i < |fields| :: fields[i] in r && r[fields[i]].Str?
    ensures n.Keys == r.Keys
    ensures forall k | k in n :: n[k] == if k in fields then Str(BlankToNull(r[k].s)) else r[k]
  {
    map k | k in r :: if k in fields then Str(BlankToNull(r[k].s)) else r[k]
  }

  /** After step 1 the release time is still there, as a raw string. */
  lemma DropStageReltime(rec: map<Key, string>)
    requires HasMergedKeys(rec)
    ensures var r1 := Drop(AsValues(rec), Dropped); Reltime in r1 && r1[Reltime].Str?
  {
    DroppedMembership();
  }

  /** After step 2 the keys are exactly the table's columns. */
  lemma SplitStageKeys(rec: map<Key, string>)
    requires HasMergedKeys(rec)
    requires var r1 := Drop(AsValues(rec), Dropped); Reltime in r1 && r1[Reltime].Str?
    ensures forall k :: k in SplitReltime(Drop(AsValues(rec), Dropped)) <==> IsRowKey(k)
  {
    DroppedMembership();
  }

  /** After step 2 every value is still a raw string. */
  lemma SplitStageStrings(rec: map<Key, string>)
    requires var r1 := Drop(AsValues(rec), Dropped); Reltime in r1 && r1[Reltime].Str?
    ensures var r2 := SplitReltime(Drop(AsValues(rec), Dropped)); forall k | k in r2 :: r2[k].Str?
  {
  }

  lemma DroppedMembership() ensures forall k :: k in Dropped <==> k.Headrec? || k.Numlev? {}

  /** Every numeric and flag column is a column of the table, and no flag
      column is numeric. */
  lemma FieldListsAreRowKeys()
    ensures forall i | 0 <= i < |IntFields| :: IsRowKey(IntFields[i])
    ensures forall i | 0 <= i < |FlagFields| :: IsRowKey(FlagFields[i]) && FlagFields[i] !in IntFields
  {
  }

  /** Casting leaves the flag columns raw strings. */
  lemma CastStageFlags(r2: map<Key, Value>)
    requires forall k | k in r2 :: r2[k].Str?
    requires forall i | 0 <= i < |FlagFields| :: FlagFields[i] in r2 && FlagFields[i] !in IntFields
    ensures var r3 := Cast(r2, IntFields);
      forall i | 0 <= i < |FlagFields| :: FlagFields[i] in r3 && r3[FlagFields[i]].Str?
  {
  }

  /** The transformed dictionary: the four steps of transform_record applied
      to the merged record, in order. */
  function Transformed(rec: map<Key, string>): (t: map<Key, Value>)
    requires HasMergedKeys(rec)
    ensures forall k :: k in t <==> IsRowKey(k)
  {
    DropStageReltime(rec);
    NullFillReady(rec);
    SplitStageKeys(rec);
    NullFill(Cast(SplitReltime(Drop(AsValues(rec), Dropped)), IntFields), FlagFields)
  }

  /** Column by column, the transformed dictionary holds `int()` of the raw
      string or the NULL marker for the numeric columns, the space-free content
      or the NULL marker for the flag columns, and the raw string otherwise. */
  lemma TransformedColumn(rec: map<Key, string>, k: Key)
    requires HasMergedKeys(rec) && IsRowKey(k)
    ensures Reltime in rec && (IsMergedKey(k) ==> k in rec)
    ensures k in Transformed(rec)
    ensures Transformed(rec)[k] ==
      if IsIntField(k) then CastInt(Raw(rec, k))
      else if IsFlagField(k) then Str(BlankToNull(rec[k]))
      else Str(Raw(rec, k))
  {
    DropStageReltime(rec);
    SplitStageValue(rec, k);
    IntFieldsMembership(k);
    FlagFieldsMembership(k);
    var r2 := SplitReltime(Drop(AsValues(rec), Dropped));
    var r3 := Cast(r2, IntFields);
    if IsIntField(k) {
      assert r3[k] == CastValue(r2[k]);
    } else {
      assert r3[k] == r2[k];
    }
  }

  /** After step 2 a column holds its raw string. */
  lemma SplitStageValue(rec: map<Key, string>, k: Key)
    requires HasMergedKeys(rec) && IsRowKey(k)
    requires var r1 := Drop(AsValues(rec), Dropped); Reltime in r1 && r1[Reltime].Str?
    ensures Reltime in rec && (IsMergedKey(k) ==> k in rec)
    ensures var r2 := SplitReltime(Drop(AsValues(rec), Dropped)); k in r2 && r2[k] == Str(Raw(rec, k))
  {
    SplitStageKeys(rec);
  }

  /** `f"{v}"` for a dictionary value. */
  function Render(v: Value): string {
    match v
    case Str(s) => s
    case Int(n) => IntToStr(n)
  }

  /** The columns of the target table, in the order the COPY line lists them. */
  const Columns: seq<Key> := [
    Id, Year, Month, Day, Hour, PSrc, NpSrc, Lat, Lon, Lvltyp1, Lvltyp2, Press,
    Pflag, Gph, Zflag, Temp, Tflag, Rh, Dpdp, Wdir, Wspd, ReltimeHh, ReltimeMm, Etime]

  /** The rendered values of a row, in column order. */
  function RowFields(r: map<Key, Value>): (fs: seq<string>)
    requires HasRowKeys(r)
    ensures |fs| == |Columns|
    ensures forall i | 0 <= i < |Columns| :: Columns[i] in r && fs[i] == Render(r[Columns[i]])
  {
    seq(|Columns|, i requires 0 <= i < |Columns| => Render(r[Columns[i]]))
  }

  /** dict_to_str: one line of PostgreSQL COPY text format, the rendered
      columns in table order joined by tabs and ended by a newline. */
  function DictToStr(r: map<Key, Value>): (line: string)
    requires HasRowKeys(r)
    ensures |line| > 0 && line[|line| - 1] == '\n'
  {
    JoinTabs(RowFields(r)) + "\n"
  }

  /** With tab-free values the line splits back into exactly the 24 rendered
      columns, in order, and holds exactly 23 tabs. */
  lemma DictToStrFields(r: map<Key, Value>)
    requires HasRowKeys(r) && TabFree(RowFields(r))
    ensures var line := DictToStr(r);
      SplitTabs(line[..|line| - 1]) == RowFields(r) && |RowFields(r)| == 24 && Count(line, '\t') == 23
  {
    var fs := RowFields(r);
    var line := DictToStr(r);
    assert line[..|line| - 1] == JoinTabs(fs);
    SplitJoinTabs(fs);
    JoinTabsCount(fs);
    CountAppend(JoinTabs(fs), "\n", '\t');
  }

  /** transform_record: drops the unused columns, splits the HHMM release time,
      casts the numeric columns and null-fills the flag columns of a merged
      dictionary, each step updating the dictionary in place, then serialises it. */
  method TransformRecord(record: map<Key, string>) returns (line: string)
    requires HasMergedKeys(record)
    ensures line == DictToStr(Transformed(record))
  {
    var r := AsValues(record);
    r := DropColumns(r, Dropped);
    DropStageReltime(record);
    r := SplitHhMm(r);
    CastReady(record);
    r := CastColumns(r, IntFields);
    NullFillReady(record);
    r := NullFillFlags(r, FlagFields);
    assert r == Transformed(record);
    line := DictToStr(r);
  }

  /** Step 3's precondition: every numeric column is present after step 2. */
  lemma CastReady(rec: map<Key, string>)
    requires HasMergedKeys(rec)
    requires var r1 := Drop(AsValues(rec), Dropped); Reltime in r1 && r1[Reltime].Str?
    ensures forall i | 0 <= i < |IntFields| :: IntFields[i] in SplitReltime(Drop(AsValues(rec), Dropped))
  {
    SplitStageKeys(rec);
    FieldListsAreRowKeys();
  }

  /** Step 4's precondition: every flag column is present, as a string, after step 3. */
  lemma NullFillReady(rec: map<Key, string>)
    requires HasMergedKeys(rec)
    requires var r1 := Drop(AsValues(rec), Dropped); Reltime in r1 && r1[Reltime].Str?
    ensures var r3 := Cast(SplitReltime(Drop(AsValues(rec), Dropped)), IntFields);
      forall i | 0 <= i < |FlagFields| :: FlagFields[i] in r3 && r3[FlagFields[i]].Str?
  {
    SplitStageKeys(rec);
    SplitStageStrings(rec);
    FieldListsAreRowKeys();
    CastStageFlags(SplitReltime(Drop(AsValues(rec), Dropped)));
  }

  /** Step 1: `record.pop(c)` for each column of a list of distinct keys, all present. */
  method DropColumns(r0: map<Key, Value>, fields: seq<Key>) returns (r: map<Key, Value>)
    requires forall i | 0 <= i < |fields| :: fields[i] in r0 && fields[i] !in fields[..i]
    ensures r == Drop(r0, fields)
  {
    r := r0;
    for i := 0 to |fields|
      invariant forall k :: k in r <==> k in r0 && k !in fields[..i]
      invariant forall k | k in r :: r[k] == r0[k]
    {
      assert fields[..i + 1] == fields[..i] + [fields[i]];
      r := r - {fields[i]};
    }
    assert fields[..|fields|] == fields;
  }

  /** Step 2: each HHMM column `c` becomes `c_hh` (its first two characters) and
      `c_mm` (the rest), and `c` itself is removed. */
  method SplitHhMm(r0: map<Key, Value>) returns (r: map<Key, Value>)
    requires Reltime in r0 && r0[Reltime].Str?
    ensures r == SplitReltime(r0)
  {
    r := r0;
    for i := 0 to |HhMmFields|
      invariant i == 0 ==> r == r0
      invariant i == 1 ==> r == SplitReltime(r0)
    {
      var c := HhMmFields[i];
      var hhmm := r[c].s;
      r := r[HhKey(c) := Str(Slice(hhmm, 0, 2))];
      r := r[MmKey(c) := Str(Slice(hhmm, 2, |hhmm|))];
      r := r - {c};
    }
  }

  /** Step 3: `int(record[c])` for each listed column, the NULL marker when it
      raises ValueError. */
  method CastColumns(r0: map<Key, Value>, fields: seq<Key>) returns (r: map<Key, Value>)
    requires forall i | 0 <= i < |fields| :: fields[i] in r0
    ensures r == Cast(r0, fields)
  {
    r := r0;
    assert r0 == Cast(r0, fields[..0]);
    for i := 0 to |fields|
      invariant r == Cast(r0, fields[..i])
    {
      var c := fields[i];
      CastNext(r0, fields, i);
      r := r[c := CastValue(r[c])];
    }
    assert fields[..|fields|] == fields;
  }

  /** Casting one more listed column casts its current value, which a repeated
      column already holds cast. */
  lemma CastNext(r0: map<Key, Value>, fields: seq<Key>, i: nat)
    requires i < |fields| && fields[i] in r0
    ensures var before := Cast(r0, fields[..i]);
      fields[i] in before && Cast(r0, fields[..i + 1]) == before[fields[i] := CastValue(before[fields[i]])]
  {
    var c := fields[i];
    var before, after := Cast(r0, fields[..i]), Cast(r0, fields[..i + 1]);
    assert fields[..i + 1] == fields[..i] + [c];
    CastValueIdempotent(r0[c]);
    assert after.Keys == before[c := CastValue(before[c])].Keys;
  }

  /** Step 4: each listed column loses its spaces and, when nothing is left,
      becomes the NULL marker. */
  method NullFillFlags(r0: map<Key, Value>, fields: seq<Key>) returns (r: map<Key, Value>)
    requires forall i | 0 <= i < |fields| :: fields[i] in r0 && r0[fields[i]].Str?
    ensures r == NullFill(r0, fields)
  {
    r := r0;
    for i := 0 to |fields|
      invariant r.Keys == r0.Keys
      invariant forall k | k in r :: r[k] == if k in fields[..i] then Str(BlankToNull(r0[k].s)) else r0[k]
    {
      var c := fields[i];
      BlankToNullIdempotent(r0[c].s);
      var stripped := RemoveSpaces(r[c].s);
      r := r[c := Str(stripped)];
      if stripped == [] {
        r := r[c := Str(NullMarker)];
      }
      assert fields[..i + 1] == fields[..i] + [c];
    }
    assert fields[..|fields|] == fields;
  }

  /** Casting a value that has already been cast changes nothing. */
  lemma CastValueIdempotent(v: Value)
    ensures CastValue(CastValue(v)) == CastValue(v)
  {
    assert ParseInt(NullMarker) == None;
  }

  lemma BlankToNullIdempotent(s: string)
    ensures BlankToNull(BlankToNull(s)) == BlankToNull(s)
  {
    RemoveSpacesSpaceFree(BlankToNull(s));
  }

  /** A merged header and data record holds every key transform_record reads. */
  lemma MergedRecordKeys(header: string, data: string)
    ensures HasMergedKeys(Merge(ParseHeader(header), ParseDataRecord(data)))
  {
    MergedKeysSplit();
  }

  /** The split release-time columns lose nothing: hour then minute text is the
      original release time, and the hour part is at most two characters. */
  lemma ReltimeSplitLossless(rec: map<Key, string>)
    requires Reltime in rec
    ensures Raw(rec, ReltimeHh) + Raw(rec, ReltimeMm) == rec[Reltime]
    ensures |Raw(rec, ReltimeHh)| == Min(2, |rec[Reltime]|)
  {
    var t := rec[Reltime];
    if |t| > 2 {
      assert Raw(rec, ReltimeHh) == t[..2] && Raw(rec, ReltimeMm) == t[2..];
    } else {
      assert Raw(rec, ReltimeHh) == t;
    }
  }

  /** The column-wise reading of transform_record: `int()` of the raw string
      or the NULL marker for a numeric column, the space-free content or the
      NULL marker for a flag column, the raw string otherwise. */
  function ColumnValue(rec: map<Key, string>, k: Key): Value
    requires HasMergedKeys(rec) && IsRowKey(k)
  {
    if IsIntField(k) then CastInt(Raw(rec, k))
    else if IsFlagField(k) then Str(BlankToNull(rec[k]))
    else Str(Raw(rec, k))
  }

  /** The row the column-wise reading gives. */
  function Row(rec: map<Key, string>): (r: map<Key, Value>)
    requires HasMergedKeys(rec)
    ensures forall k :: k in r <==> IsRowKey(k)
  {
    map k | k in rec.Keys + {ReltimeHh, ReltimeMm} && IsRowKey(k) :: ColumnValue(rec, k)
  }

  /** The four in-place steps of transform_record give exactly the column-wise row. */
  lemma TransformedIsRow(rec: map<Key, string>)
    requires HasMergedKeys(rec)
    ensures Transformed(rec) == Row(rec)
  {
    var t, r := Transformed(rec), Row(rec);
    assert t.Keys == r.Keys;
    forall k | k in t ensures t[k] == r[k] {
      TransformedColumn(rec, k);
    }
  }

  /** A numeric output column holds the decimal rendering of the integer
      `int()` reads from the raw string, which parses back to that integer,
      or the NULL marker exactly when `int()` fails. */
  lemma NumericColumn(rec: map<Key, string>, k: Key)
    requires HasMergedKeys(rec) && IsRowKey(k) && IsIntField(k)
    ensures Reltime in rec && (IsMergedKey(k) ==> k in rec)
    ensures k in Row(rec)
    ensures ParseInt(Raw(rec, k)).Some? ==>
      Render(Row(rec)[k]) == IntToStr(ParseInt(Raw(rec, k)).value) &&
      ParseInt(Render(Row(rec)[k])) == ParseInt(Raw(rec, k))
    ensures ParseInt(Raw(rec, k)).None? ==> Render(Row(rec)[k]) == NullMarker
  {
    assert Row(rec)[k] == CastInt(Raw(rec, k));
    CastIntRendered(Raw(rec, k));
  }

  /** The rendering of a cast string: `str(int(s))`, which parses back to the
      same integer, or the NULL marker when `int(s)` fails. */
  lemma CastIntRendered(s: string)
    ensures ParseInt(s).Some? ==>
      Render(CastInt(s)) == IntToStr(ParseInt(s).value) && ParseInt(Render(CastInt(s))) == ParseInt(s)
    ensures ParseInt(s).None? ==> Render(CastInt(s)) == NullMarker
  {
    if ParseInt(s).Some? {
      IntToStrRoundTrip(ParseInt(s).value);
    }
  }

  /** A flag output column is never empty and holds no space: the raw string
      with its spaces removed, or the NULL marker when nothing is left. */
  lemma FlagColumn(rec: map<Key, string>, k: Key)
    requires HasMergedKeys(rec) && IsRowKey(k) && IsFlagField(k)
    ensures k in rec && k in Row(rec)
    ensures var f := Render(Row(rec)[k]);
      f != [] && ' ' !in f && (f == NullMarker || f == RemoveSpaces(rec[k]))
  {
  }

  /** id, press and gph are in neither list and pass through unchanged. */
  lemma PlainColumn(rec: map<Key, string>, k: Key)
    requires HasMergedKeys(rec) && IsRowKey(k) && !IsIntField(k) && !IsFlagField(k)
    ensures k.Id? || k.Press? || k.Gph?
    ensures k in rec && k in Row(rec) && Render(Row(rec)[k]) == rec[k]
  {
  }

  /** With tab-free values in, no output column holds a tab. */
  lemma OutputTabFree(rec: map<Key, string>)
    requires HasMergedKeys(rec)
    requires forall k | k in rec :: '\t' !in rec[k]
    ensures TabFree(RowFields(Row(rec)))
  {
    var fs := RowFields(Row(rec));
    forall i | 0 <= i < |fs| ensures '\t' !in fs[i] {
      var k := Columns[i];
      if IsIntField(k) {
        NumericColumn(rec, k);
        if ParseInt(Raw(rec, k)).Some? {
          IntToStrChars(ParseInt(Raw(rec, k)).value);
        }
      } else if IsFlagField(k) {
        FlagColumn(rec, k);
      } else {
        PlainColumn(rec, k);
      }
    }
  }

  // ---------------------------------------------------------------------------
  // One record of parse_txt_files: a data line under a header line.
  // ---------------------------------------------------------------------------

  /** The output line for a data line under a header line. */
  function RecordLine(header: string, data: string): (line: string)
    ensures |line| > 0 && line[|line| - 1] == '\n'
  {
    MergedRecordKeys(header, data);
    DictToStr(Transformed(Merge(ParseHeader(header), ParseDataRecord(data))))
  }

  /** With tab-free input lines, the output line is the column-wise row
      serialised: it splits back into the 24 rendered columns and holds
      exactly 23 tabs. */
  lemma RecordLineFields(header: string, data: string)
    requires '\t' !in header && '\t' !in data
    ensures var rec := Merge(ParseHeader(header), ParseDataRecord(data));
      var line := RecordLine(header, data);
      && HasMergedKeys(rec)
      && line == DictToStr(Row(rec))
      && SplitTabs(line[..|line| - 1]) == RowFields(Row(rec))
      && Count(line, '\t') == |Columns| - 1
  {
    var rec := Merge(ParseHeader(header), ParseDataRecord(data));
    MergedRecordKeys(header, data);
    TransformedIsRow(rec);
    ParsedTabFree(header, data);
    OutputTabFree(rec);
    DictToStrFields(Row(rec));
  }

  /** Decoded fields of tab-free lines are tab-free. */
  lemma ParsedTabFree(header: string, data: string)
    requires '\t' !in header && '\t' !in data
    ensures var rec := Merge(ParseHeader(header), ParseDataRecord(data));
      forall k | k in rec :: '\t' !in rec[k]
  {
    HeaderTabFree(header);
    DataTabFree(data);
  }

  lemma HeaderTabFree(line: string)
    requires '\t' !in line
    ensures forall k | k in ParseHeader(line) :: '\t' !in ParseHeader(line)[k]
  {
    forall lo: nat, hi: nat ensures '\t' !in Slice(line, lo, hi) {
      SliceKeeps(line, lo, hi, '\t');
    }
  }

  lemma DataTabFree(line: string)
    requires '\t' !in line
    ensures forall k | k in ParseDataRecord(line) :: '\t' !in ParseDataRecord(line)[k]
  {
    forall lo: nat, hi: nat ensures '\t' !in Slice(line, lo, hi) {
      SliceKeeps(line, lo, hi, '\t');
    }
  }

  /** One yielded record: `transform_record({**header, **data})`. */
  method EmitRecord(header: string, data: string) returns (line: string)
    ensures line == RecordLine(header, data)
  {
    MergedRecordKeys(header, data);
    line := TransformRecord(Merge(ParseHeader(header), ParseDataRecord(data)));
  }
}
