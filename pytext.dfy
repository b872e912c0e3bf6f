/** Python string and integer primitives the ETL relies on, over ASCII text:
    clamped slicing, `int(str)` (with Strip, the whitespace `int()` skips
    around a number), `str(int)`, `str.replace(" ", "")` and tab-joined fields. */
module PyText {

  datatype Option<+T> = None | Some(value: T)

  function Min(a: int, b: int): int { if a <= b then a else b }

  /** Python's `s[lo:hi]` for non-negative bounds: both bounds are clamped to the
      string, so a short string yields a truncated or empty slice and never fails. */
  function Slice(s: string, lo: nat, hi: nat): (r: string)
    ensures |r| == if lo < hi && lo < |s| then Min(hi, |s|) - lo else 0
    ensures forall k :: 0 <= k < |r| ==> r[k] == s[lo + k]
  {
    if lo < hi && lo < |s| then s[lo..Min(hi, |s|)] else ""
  }

  /** A slice holds no character its string does not. */
  lemma SliceKeeps(s: string, lo: nat, hi: nat, c: char)
    requires c !in s
    ensures c !in Slice(s, lo, hi)
  {
    var r := Slice(s, lo, hi);
    forall k | 0 <= k < |r| ensures r[k] != c {
      assert r[k] == s[lo + k];
    }
  }

  /** The ASCII characters Python's `int()` skips around a number. */
  predicate IsSpace(c: char) {
    c == ' ' || c == '\t' || c == '\n' || c == '\r' || c == '\U{B}' || c == '\U{C}'
  }

  predicate IsDigit(c: char) { '0' <= c <= '9' }

  predicate AllDigits(s: string) { forall k :: 0 <= k < |s| ==> IsDigit(s[k]) }

  /** Drops leading whitespace. */
  function TrimStart(s: string): (r: string)
    ensures |r| <= |s| && r == s[|s| - |r|..]
    ensures r != [] ==> !IsSpace(r[0])
    ensures forall k :: 0 <= k < |s| - |r| ==> IsSpace(s[k])
  {
    if s != [] && IsSpace(s[0]) then
      var r := TrimStart(s[1..]);
      assert s[1..][|s| - 1 - |r|..] == s[|s| - |r|..];
      assert forall k | 1 <= k < |s| - |r| :: s[k] == s[1..][k - 1];
      r
    else s
  }

  /** Drops trailing whitespace. */
  function TrimEnd(s: string): (r: string)
    ensures |r| <= |s| && r == s[..|r|]
    ensures r != [] ==> !IsSpace(r[|r| - 1])
    ensures forall k :: |r| <= k < |s| ==> IsSpace(s[k])
  {
    if s != [] && IsSpace(s[|s| - 1]) then
      var r := TrimEnd(s[..|s| - 1]);
      assert s[..|s| - 1][..|r|] == s[..|r|];
      r
    else s
  }

  /** Drops the whitespace `int()` skips around a number (not all of what
      `str.strip` removes). */
  function Strip(s: string): string { TrimEnd(TrimStart(s)) }

  /** A string that neither starts nor ends with whitespace is its own strip. */
  lemma StripUnpadded(s: string)
    requires s != [] && !IsSpace(s[0]) && !IsSpace(s[|s| - 1])
    ensures Strip(s) == s
  {
  }

  function DigitValue(c: char): nat requires IsDigit(c) { (c - '0') as nat }

  /** The value of a run of decimal digits, most significant first. */
  function DigitsValue(s: string): nat
    requires AllDigits(s)
  {
    if s == [] then 0 else 10 * DigitsValue(s[..|s| - 1]) + DigitValue(s[|s| - 1])
  }

  /** Python `int(s)` restricted to ASCII: surrounding whitespace, an optional
      sign, then at least one decimal digit; anything else raises ValueError,
      modelled as None. */
  function ParseInt(s: string): Option<int> {
    var t := Strip(s);
    var signed := t != [] && (t[0] == '-' || t[0] == '+');
    var digits := if signed then t[1..] else t;
    if digits == [] || !AllDigits(digits) then None
    else if signed && t[0] == '-' then Some(-(DigitsValue(digits) as int))
    else Some(DigitsValue(digits))
  }

  function DigitChar(d: nat): char requires d < 10 { '0' + d as char }

  /** Decimal digits of a natural number, as Python's `str` writes them. */
  function NatToDigits(n: nat): (r: string)
    ensures r != [] && AllDigits(r)
  {
    if n < 10 then [DigitChar(n)] else NatToDigits(n / 10) + [DigitChar(n % 10)]
  }

  /** Python `str(n)` (equivalently `f"{n}"`) for an int. */
  function IntToStr(n: int): (r: string)
    ensures r != [] && !IsSpace(r[0]) && IsDigit(r[|r| - 1])
  {
    if n < 0 then "-" + NatToDigits(-n) else NatToDigits(n)
  }

  lemma {:induction false} NatToDigitsValue(n: nat)
    ensures DigitsValue(NatToDigits(n)) == n
  {
    if n >= 10 {
      var r := NatToDigits(n);
      NatToDigitsValue(n / 10);
      assert r[..|r| - 1] == NatToDigits(n / 10);
    }
  }

  /** `int(str(n)) == n`: the decimal rendering of every integer parses back. */
  lemma IntToStrRoundTrip(n: int)
    ensures ParseInt(IntToStr(n)) == Some(n)
  {
    var r := IntToStr(n);
    StripUnpadded(r);
    if n < 0 {
      NatToDigitsValue(-n);
      assert r[1..] == NatToDigits(-n);
    } else {
      NatToDigitsValue(n);
    }
  }

  /** Every character of `str(n)` is a minus sign or a decimal digit, so a
      rendered int holds no tab, newline, space or underscore. */
  lemma IntToStrChars(n: int)
    ensures forall k | 0 <= k < |IntToStr(n)| :: IntToStr(n)[k] == '-' || IsDigit(IntToStr(n)[k])
  {
    var r := IntToStr(n);
    var digits := if n < 0 then r[1..] else r;
    assert AllDigits(digits);
    forall k | 0 <= k < |r| ensures r[k] == '-' || IsDigit(r[k]) {
      if n < 0 && k > 0 { assert r[k] == digits[k - 1]; }
    }
  }

  /** Python `s.replace(" ", "")`. */
  function RemoveSpaces(s: string): (r: string)
    ensures ' ' !in r
    ensures |r| <= |s|
    ensures forall c :: c != ' ' ==> (c in r <==> c in s)
  {
    if s == [] then ""
    else if s[0] == ' ' then RemoveSpaces(s[1..])
    else [s[0]] + RemoveSpaces(s[1..])
  }

  lemma {:induction false} RemoveSpacesSpaceFree(s: string)
    requires ' ' !in s
    ensures RemoveSpaces(s) == s
  {
    if s != [] { RemoveSpacesSpaceFree(s[1..]); }
  }

  /** `"\t".join(fields)`. */
  function JoinTabs(fields: seq<string>): string
    requires fields != []
  {
    if |fields| == 1 then fields[0] else fields[0] + "\t" + JoinTabs(fields[1..])
  }

  /** `s.split("\t")`: the inverse of JoinTabs on tab-free fields. */
  function SplitTabs(s: string): (r: seq<string>)
    ensures r != []
    ensures forall k :: 0 <= k < |r| ==> '\t' !in r[k]
    decreases |s|
  {
    if '\t' !in s then [s]
    else
      var k := FirstTab(s);
      [s[..k]] + SplitTabs(s[k + 1..])
  }

  function FirstTab(s: string): (k: nat)
    requires '\t' in s
    ensures k < |s| && s[k] == '\t'
    ensures forall j :: 0 <= j < k ==> s[j] != '\t'
  {
    if s[0] == '\t' then 0 else 1 + FirstTab(s[1..])
  }

  function Count(s: string, c: char): nat {
    if s == [] then 0 else (if s[0] == c then 1 else 0) + Count(s[1..], c)
  }

  lemma {:induction false} CountAppend(a: string, b: string, c: char)
    ensures Count(a + b, c) == Count(a, c) + Count(b, c)
  {
    if a != [] {
      assert (a + b)[1..] == a[1..] + b;
      CountAppend(a[1..], b, c);
    } else {
      assert a + b == b;
    }
  }

  lemma {:induction false} CountAbsent(s: string, c: char)
    requires c !in s
    ensures Count(s, c) == 0
  {
    if s != [] { CountAbsent(s[1..], c); }
  }

  predicate TabFree(fields: seq<string>) {
    forall k :: 0 <= k < |fields| ==> '\t' !in fields[k]
  }

  /** The first tab after a tab-free prefix is the one that follows it. */
  lemma SplitAfterField(a: string, b: string)
    requires '\t' !in a
    ensures SplitTabs(a + "\t" + b) == [a] + SplitTabs(b)
  {
    var s := a + "\t" + b;
    assert s[|a|] == '\t';
    var k := FirstTab(s);
    assert k == |a|;
    assert s[..k] == a && s[k + 1..] == b;
  }

  /** Splitting a join of tab-free fields gives the fields back. */
  lemma {:induction false} SplitJoinTabs(fields: seq<string>)
    requires fields != [] && TabFree(fields)
    ensures SplitTabs(JoinTabs(fields)) == fields
  {
    if |fields| > 1 {
      SplitJoinTabs(fields[1..]);
      SplitAfterField(fields[0], JoinTabs(fields[1..]));
    }
  }

  /** The join of tab-free fields holds one tab fewer than there are fields. */
  lemma {:induction false} JoinTabsCount(fields: seq<string>)
    requires fields != [] && TabFree(fields)
    ensures Count(JoinTabs(fields), '\t') == |fields| - 1
  {
    CountAbsent(fields[0], '\t');
    if |fields| > 1 {
      var rest := JoinTabs(fields[1..]);
      JoinTabsCount(fields[1..]);
      CountAppend(fields[0] + "\t", rest, '\t');
      CountAppend(fields[0], "\t", '\t');
    }
  }
}
