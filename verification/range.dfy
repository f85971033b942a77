/** The `Range` request header: `Range::from_str`, which takes the captures
    of the regular expression `(.*?)=(\d+)-(\d+)`, and `Range::len`.

    The expression is unanchored and searched leftmost-first: the match
    starts at the beginning of the line (`.` does not cross a line feed)
    holding the first `=` that is followed by digits, `-` and digits; the
    lazy unit stops at that `=`, and both digit runs are as long as
    possible. Whatever follows the second run is ignored. */
module RangeHeader {

  import opened Wrappers
  import opened Bytes

  /** `typ` is the unit before the `=`, `start` and `end` the inclusive byte
      positions. */
  datatype Range = Range(typ: Str, start: nat, end: nat)

  datatype RangeError =
    | NoMatch    // "invalid range header"
    | Overflow   // a digit run that `u64::from_str` rejects

  /** The length of the run of ASCII digits starting at `i`. */
  function DigitRun(s: Str, i: nat): (n: nat)
    requires i <= |s|
    decreases |s| - i
    ensures i + n <= |s|
    ensures forall k | i <= k < i + n :: IsDigit(s[k])
    ensures i + n < |s| ==> !IsDigit(s[i + n])
  {
    if i < |s| && IsDigit(s[i]) then 1 + DigitRun(s, i + 1) else 0
  }

  /** `=\d+-\d+` matches at position `e`. */
  predicate MatchesAt(s: Str, e: nat) {
    && e < |s|
    && s[e] == EQUALS
    && var d1 := DigitRun(s, e + 1);
       && 0 < d1
       && e + 1 + d1 < |s|
       && s[e + 1 + d1] == HYPHEN
       && 0 < DigitRun(s, e + 2 + d1)
  }

  /** The first position at or after `from` where `=\d+-\d+` matches. */
  function FirstMatch(s: Str, from: nat): (r: Option<nat>)
    decreases |s| - from
    ensures r.Some? ==> from <= r.value && MatchesAt(s, r.value)
    ensures r.Some? ==> forall j | from <= j < r.value :: !MatchesAt(s, j)
    ensures r.None? ==> forall j | from <= j :: !MatchesAt(s, j)
  {
    if from >= |s| then None
    else if MatchesAt(s, from) then Some(from)
    else FirstMatch(s, from + 1)
  }

  /** Where the line holding position `e` begins: just after the last line
      feed before `e`, or at 0. */
  function LineStart(s: Str, e: nat): (k: nat)
    requires e <= |s|
    ensures k <= e
    ensures k == 0 || s[k - 1] == NEWLINE
    ensures forall j | k <= j < e :: s[j] != NEWLINE
  {
    if e == 0 then 0 else if s[e - 1] == NEWLINE then e else LineStart(s, e - 1)
  }

  /** The three groups the expression captures: the unit and the two digit
      runs. */
  datatype Match = Match(typ: Str, first: Str, second: Str)

  /** The groups of the match whose `=` is at `e`: the unit runs from the
      start of the line to the `=`, and the two numerals are the digit runs
      either side of the `-`. */
  function MatchAt(s: Str, e: nat): (m: Match)
    requires MatchesAt(s, e)
    ensures 0 < |m.first| && AllDigits(m.first)
    ensures 0 < |m.second| && AllDigits(m.second)
    ensures forall k | 0 <= k < |m.typ| :: m.typ[k] != NEWLINE
  {
    var d1 := DigitRun(s, e + 1);
    var d2 := DigitRun(s, e + 2 + d1);
    Match(s[LineStart(s, e)..e], s[e + 1..e + 1 + d1], s[e + 2 + d1..e + 2 + d1 + d2])
  }

  /** The groups made into a range: both numerals must fit a `u64`. */
  function FromCaptures(m: Match): (r: Result<Range, RangeError>)
    requires AllDigits(m.first) && AllDigits(m.second)
    ensures r.Success? <==> IsU64(DigitsValue(m.first)) && IsU64(DigitsValue(m.second))
    ensures r.Failure? ==> r.error == Overflow
  {
    var start := DigitsValue(m.first);
    var end := DigitsValue(m.second);
    if start >= U64_LIMIT || end >= U64_LIMIT then Failure(Overflow)
    else Success(Range(m.typ, start, end))
  }

  /** `Range::from_str`. */
  function ParseRange(s: Str): (r: Result<Range, RangeError>)
    ensures r == Failure(NoMatch) <==> forall e :: !MatchesAt(s, e)
    ensures r.Success? ==> IsU64(r.value.start) && IsU64(r.value.end)
    ensures r.Success? ==> forall k | 0 <= k < |r.value.typ| :: r.value.typ[k] != NEWLINE
  {
    match FirstMatch(s, 0)
    case None => Failure(NoMatch)
    case Some(e) => FromCaptures(MatchAt(s, e))
  }

  /** The header a range is written as: `typ=start-end`, numbers in decimal. */
  function Format(rg: Range): (out: Str)
    ensures |out| == |rg.typ| + 2 + |Decimal(rg.start)| + |Decimal(rg.end)|
  {
    rg.typ + [EQUALS] + Decimal(rg.start) + [HYPHEN] + Decimal(rg.end)
  }

  /** What `Range::len` computes without overflowing a `u64`: the range must
      not be reversed and must not span all 2^64 positions. */
  predicate HasLen(rg: Range) {
    rg.start <= rg.end < U64_LIMIT && rg.end - rg.start + 1 < U64_LIMIT
  }

  /** `Range::len`: the number of byte positions from `start` to `end`,
      both included, so the last of them is `end`. */
  function Len(rg: Range): (n: nat)
    requires HasLen(rg)
    ensures IsU64(n) && 1 <= n
    ensures rg.start + n - 1 == rg.end
  {
    rg.end - rg.start + 1
  }

  // ---------------------------------------------------------------------
  // Parsing what `Format` writes
  // ---------------------------------------------------------------------

  /** The digit run at `i` is exactly `d` when `d` sits there and no digit
      follows it. */
  lemma {:induction false} DigitRunOf(s: Str, i: nat, d: Str)
    requires AllDigits(d) && i + |d| <= |s| && s[i..i + |d|] == d
    requires i + |d| == |s| || !IsDigit(s[i + |d|])
    decreases |d|
    ensures DigitRun(s, i) == |d|
  {
    if |d| > 0 {
      assert s[i] == d[0];
      assert s[i + 1..i + 1 + |d[1..]|] == d[1..];
      DigitRunOf(s, i + 1, d[1..]);
    }
  }

  /** With no line feed before `e`, the line starts at 0. */
  lemma {:induction false} FirstLine(s: Str, e: nat)
    requires e <= |s|
    requires forall j | 0 <= j < e :: s[j] != NEWLINE
    ensures LineStart(s, e) == 0
  {
    if e > 0 {
      FirstLine(s, e - 1);
    }
  }

  /** Where the parts of a formatted header sit. */
  lemma FormattedLayout(rg: Range, rest: Str)
    requires |rest| == 0 || !IsDigit(rest[0])
    ensures var s, e := Format(rg) + rest, |rg.typ|;
            var ds, de := Decimal(rg.start), Decimal(rg.end);
            var h := e + 1 + |ds|;
            && h + 1 + |de| <= |s|
            && s[..e] == rg.typ
            && s[e] == EQUALS
            && s[e + 1..h] == ds
            && s[h] == HYPHEN
            && s[h + 1..h + 1 + |de|] == de
            && (h + 1 + |de| == |s| || !IsDigit(s[h + 1 + |de|]))
  {
    var s, e := Format(rg) + rest, |rg.typ|;
    var ds, de := Decimal(rg.start), Decimal(rg.end);
    assert s == rg.typ + ([EQUALS] + ds + [HYPHEN] + de + rest);
  }

  /** A byte that the prefix `p` of `s` lacks does not occur before `|p|`. */
  lemma PrefixLacks(s: Str, p: Str, b: Byte)
    requires |p| <= |s| && s[..|p|] == p
    requires forall k | 0 <= k < |p| :: p[k] != b
    ensures forall j | 0 <= j < |p| :: s[j] != b
  {
    forall j | 0 <= j < |p| ensures s[j] != b {
      assert s[j] == s[..|p|][j];
    }
  }

  /** The search from `from` stops at `e` when it matches there and nowhere
      between. */
  lemma {:induction false} FirstMatchAt(s: Str, from: nat, e: nat)
    requires from <= e && MatchesAt(s, e)
    requires forall j | from <= j < e :: !MatchesAt(s, j)
    decreases e - from
    ensures FirstMatch(s, from) == Some(e)
  {
    if from < e {
      assert !MatchesAt(s, from);
      FirstMatchAt(s, from + 1, e);
    }
  }

  /** In a formatted header `=\d+-\d+` matches at the unit's end, and the
      two digit runs there are the two numerals. */
  lemma FormattedRuns(rg: Range, rest: Str)
    requires |rest| == 0 || !IsDigit(rest[0])
    ensures var s, e := Format(rg) + rest, |rg.typ|;
            var ds, de := Decimal(rg.start), Decimal(rg.end);
            && MatchesAt(s, e)
            && DigitRun(s, e + 1) == |ds|
            && DigitRun(s, e + 2 + |ds|) == |de|
  {
    var s, e := Format(rg) + rest, |rg.typ|;
    var ds, de := Decimal(rg.start), Decimal(rg.end);
    FormattedLayout(rg, rest);
    DigitRunOf(s, e + 1, ds);
    DigitRunOf(s, e + 2 + |ds|, de);
  }

  /** In a formatted header whose unit holds no `=`, the first match is at
      the unit's end. */
  lemma FormattedMatch(rg: Range, rest: Str)
    requires forall k | 0 <= k < |rg.typ| :: rg.typ[k] != EQUALS
    requires |rest| == 0 || !IsDigit(rest[0])
    ensures FirstMatch(Format(rg) + rest, 0) == Some(|rg.typ|)
  {
    var s, e := Format(rg) + rest, |rg.typ|;
    FormattedLayout(rg, rest);
    FormattedRuns(rg, rest);
    PrefixLacks(s, rg.typ, EQUALS);
    FirstMatchAt(s, 0, e);
  }

  /** A header that is a formatted range, whatever follows it as long as it
      does not begin with a digit, parses back to that range when both
      numbers fit a `u64`, and is rejected as an overflow otherwise; the unit
      must hold no `=` and no line feed. */
  lemma ParseFormatted(rg: Range, rest: Str)
    requires forall k | 0 <= k < |rg.typ| :: rg.typ[k] != EQUALS && rg.typ[k] != NEWLINE
    requires |rest| == 0 || !IsDigit(rest[0])
    ensures ParseRange(Format(rg) + rest)
         == if IsU64(rg.start) && IsU64(rg.end) then Success(rg) else Failure(Overflow)
  {
    FormattedMatch(rg, rest);
    FormattedGroups(rg, rest);
    FromNumerals(rg);
  }

  /** The groups of a formatted header are its unit and its two numerals. */
  lemma FormattedGroups(rg: Range, rest: Str)
    requires forall k | 0 <= k < |rg.typ| :: rg.typ[k] != NEWLINE
    requires |rest| == 0 || !IsDigit(rest[0])
    ensures MatchesAt(Format(rg) + rest, |rg.typ|)
    ensures MatchAt(Format(rg) + rest, |rg.typ|) == Match(rg.typ, Decimal(rg.start), Decimal(rg.end))
  {
    var s, e := Format(rg) + rest, |rg.typ|;
    FormattedLayout(rg, rest);
    FormattedRuns(rg, rest);
    PrefixLacks(s, rg.typ, NEWLINE);
    FirstLine(s, e);
  }

  /** A range's own numerals convert back to it when both fit a `u64`. */
  lemma FromNumerals(rg: Range)
    ensures FromCaptures(Match(rg.typ, Decimal(rg.start), Decimal(rg.end)))
         == if IsU64(rg.start) && IsU64(rg.end) then Success(rg) else Failure(Overflow)
  {
    DecimalValue(rg.start);
    DecimalValue(rg.end);
  }

  /** "bytes", as bytes. */
  const BYTES_UNIT: Str := [98, 121, 116, 101, 115]

  /** The source's parse test: `bytes=0-1023` has unit "bytes", start 0 and
      end 1023. */
  lemma ParsesBytes0To1023()
    ensures ParseRange(BYTES_UNIT + [EQUALS, 48, HYPHEN, 49, 48, 50, 51]) == Success(Range(BYTES_UNIT, 0, 1023))
  {
    var rg := Range(BYTES_UNIT, 0, 1023);
    assert Decimal(0) == [48];
    assert Decimal(1023) == [49, 48, 50, 51];
    assert Format(rg) + [] == BYTES_UNIT + [EQUALS, 48, HYPHEN, 49, 48, 50, 51];
    ParseFormatted(rg, []);
  }

  /** A header with no `=` has no match. */
  lemma NoEqualsNoMatch(s: Str)
    requires forall k | 0 <= k < |s| :: s[k] != EQUALS
    ensures ParseRange(s) == Failure(NoMatch)
  {
  }
}
