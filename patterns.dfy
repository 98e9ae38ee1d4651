/**
 * The two regular expressions the scripts search with, `split_(\d+)` and
 * `cryosparc_P\d+_J\d+_\d+_particles.cs`, as token sequences with a small matcher
 * that follows `re.search`: the leftmost starting position wins.
 *
 * `\d+` is matched greedily. In both patterns every `\d+` is followed either by the end of
 * the pattern or by a literal that starts with '_', which is not a digit, so the backtracking
 * matcher of Python's `re` can only succeed with the longest run: greedy matching is exact here.
 */
module Patterns {
  import opened Wrappers

  predicate IsDigit(c: char)
  {
    '0' <= c <= '9'
  }

  /** Length of the run of digits that starts at index `i`. */
  function DigitRun(s: string, i: nat): (n: nat)
    requires i <= |s|
    ensures i + n <= |s|
    ensures forall k :: i <= k < i + n ==> IsDigit(s[k])
    ensures i + n == |s| || !IsDigit(s[i + n])
    decreases |s| - i
  {
    if i < |s| && IsDigit(s[i]) then 1 + DigitRun(s, i + 1) else 0
  }

  /** A pattern element: literal text, `\d+`, or `.` (any character but a newline). */
  datatype Token = Lit(text: string) | Digits | AnyChar

  /** Where a match of `pat` that starts at index `i` ends, if there is one. */
  function MatchAt(pat: seq<Token>, s: string, i: nat): (e: Option<nat>)
    requires i <= |s|
    ensures e.Some? ==> i <= e.value <= |s|
    decreases |pat|
  {
    if pat == [] then Some(i)
    else
      match pat[0]
      case Lit(t) =>
        if i + |t| <= |s| && s[i..i + |t|] == t then MatchAt(pat[1..], s, i + |t|) else None
      case Digits =>
        var n := DigitRun(s, i);
        if n == 0 then None else MatchAt(pat[1..], s, i + n)
      case AnyChar =>
        if i < |s| && s[i] != '\n' then MatchAt(pat[1..], s, i + 1) else None
  }

  /** `re.search` from index `i`: the leftmost match, as (start, end). */
  function SearchFrom(pat: seq<Token>, s: string, i: nat): (m: Option<(nat, nat)>)
    requires i <= |s|
    ensures m.Some? ==> i <= m.value.0 <= |s| && MatchAt(pat, s, m.value.0) == Some(m.value.1)
    decreases |s| - i
  {
    match MatchAt(pat, s, i)
    case Some(e) => Some((i, e))
    case None => if i == |s| then None else SearchFrom(pat, s, i + 1)
  }

  /** The match `re.search` reports is the leftmost one, and it reports none iff no position matches. */
  lemma {:induction false} SearchFromLeftmost(pat: seq<Token>, s: string, i: nat)
    requires i <= |s|
    ensures var m := SearchFrom(pat, s, i);
      && (m.Some? ==> forall j :: i <= j < m.value.0 ==> MatchAt(pat, s, j).None?)
      && (m.None? <==> forall j :: i <= j <= |s| ==> MatchAt(pat, s, j).None?)
    decreases |s| - i
  {
    if MatchAt(pat, s, i).None? && i < |s| {
      SearchFromLeftmost(pat, s, i + 1);
      assert SearchFrom(pat, s, i) == SearchFrom(pat, s, i + 1);
    } else if MatchAt(pat, s, i).Some? {
      assert SearchFrom(pat, s, i) == Some((i, MatchAt(pat, s, i).value));
      assert !(forall j :: i <= j <= |s| ==> MatchAt(pat, s, j).None?);
      var m := SearchFrom(pat, s, i);
      assert m.Some? && m.value.0 == i;
    }
  }

  const SplitMarker: string := "split_"

  /** `split_(\d+)`. */
  const SplitPattern: seq<Token> := [Lit(SplitMarker), Digits]

  /** `cryosparc_P\d+_J\d+_\d+_particles.cs` (the `.` is the regex wildcard, not a literal dot). */
  const ConsolidatedPattern: seq<Token> :=
    [Lit("cryosparc_P"), Digits, Lit("_J"), Digits, Lit("_"), Digits, Lit("_particles"), AnyChar, Lit("cs")]

  /** Python's `int(digits)` on a string of ASCII digits. */
  function DecimalValue(ds: string): nat
    requires forall k :: 0 <= k < |ds| ==> IsDigit(ds[k])
    decreases |ds|
  {
    if ds == [] then 0
    else
      assert IsDigit(ds[|ds| - 1]);
      10 * DecimalValue(ds[..|ds| - 1]) + (ds[|ds| - 1] as int - '0' as int)
  }

  /** Python's `str(n)` for a natural number. */
  function DecimalDigits(n: nat): (ds: string)
    ensures |ds| > 0 && forall k :: 0 <= k < |ds| ==> IsDigit(ds[k])
    decreases n
  {
    if n < 10 then [('0' as int + n) as char]
    else DecimalDigits(n / 10) + [('0' as int + n % 10) as char]
  }

  lemma {:induction false} DecimalRoundTrip(n: nat)
    ensures DecimalValue(DecimalDigits(n)) == n
    decreases n
  {
    var ds := DecimalDigits(n);
    if n >= 10 {
      DecimalRoundTrip(n / 10);
      assert ds[..|ds| - 1] == DecimalDigits(n / 10);
    } else {
      assert ds[..0] == [];
    }
  }

  /** A match of `split_(\d+)` at `st` ending at `e`: the marker, then the group `s[st + 6..e]`, all digits. */
  lemma SplitMatchShape(s: string, st: nat, e: nat)
    requires st <= |s| && MatchAt(SplitPattern, s, st) == Some(e)
    ensures st + |SplitMarker| < e <= |s|
    ensures s[st..st + |SplitMarker|] == SplitMarker
    ensures e == st + |SplitMarker| + DigitRun(s, st + |SplitMarker|)
    ensures forall k :: st + |SplitMarker| <= k < e ==> IsDigit(s[k])
  {
    assert SplitPattern[1..] == [Digits];
    assert SplitPattern[1..][1..] == [];
    var m := st + |SplitMarker|;
    assert m <= |s| && s[st..m] == SplitMarker && MatchAt(SplitPattern, s, st) == MatchAt([Digits], s, m);
    var n := DigitRun(s, m);
    assert n > 0 && MatchAt([Digits], s, m) == MatchAt([], s, m + n);
  }

  /** The split id of a group name: the number in the leftmost `split_<digits>`, or None when there is none. */
  function SplitId(name: string): Option<nat>
  {
    match SearchFrom(SplitPattern, name, 0)
    case None => None
    case Some(m) =>
      SplitMatchShape(name, m.0, m.1);
      Some(DecimalValue(name[m.0 + |SplitMarker|..m.1]))
  }

  /** A name has a split id iff `split_<digits>` occurs in it somewhere. */
  lemma SplitIdFound(name: string)
    ensures SplitId(name).Some? <==> exists j :: 0 <= j <= |name| && MatchAt(SplitPattern, name, j).Some?
  {
    SearchFromLeftmost(SplitPattern, name, 0);
  }

  /** The group names the pipeline gives numbered splits carry exactly the split's number. */
  lemma SplitIdOfLabel(n: nat)
    ensures SplitId(SplitMarker + DecimalDigits(n)) == Some(n)
  {
    var ds := DecimalDigits(n);
    var s := SplitMarker + ds;
    LabelMatches(ds);
    assert SearchFrom(SplitPattern, s, 0) == Some((0, |s|));
    assert s[|SplitMarker|..|s|] == ds;
    DecimalRoundTrip(n);
  }

  /** `split_` followed only by digits matches at its start, up to its end. */
  lemma LabelMatches(ds: string)
    requires |ds| > 0 && forall k :: 0 <= k < |ds| ==> IsDigit(ds[k])
    ensures MatchAt(SplitPattern, SplitMarker + ds, 0) == Some(|SplitMarker + ds|)
  {
    var s := SplitMarker + ds;
    assert s[0..|SplitMarker|] == SplitMarker;
    RunToEnd(s, |SplitMarker|);
    assert SplitPattern[1..] == [Digits];
    assert MatchAt(SplitPattern, s, 0) == MatchAt([Digits], s, |SplitMarker|);
    assert [Digits][1..] == [];
    assert MatchAt([Digits], s, |SplitMarker|) == MatchAt([], s, |s|);
  }

  lemma {:induction false} RunToEnd(s: string, i: nat)
    requires i <= |s| && forall k :: i <= k < |s| ==> IsDigit(s[k])
    ensures DigitRun(s, i) == |s| - i
    decreases |s| - i
  {
    if i < |s| { RunToEnd(s, i + 1); }
  }

  /** Python's `re.search(r'cryosparc_P\d+_J\d+_\d+_particles.cs', s) is not None`. */
  predicate IsConsolidatedName(s: string)
  {
    SearchFrom(ConsolidatedPattern, s, 0).Some?
  }

  /** A name is a consolidated particle file iff the pattern matches at some position of it. */
  lemma ConsolidatedNameFound(s: string)
    ensures IsConsolidatedName(s) <==> exists j :: 0 <= j <= |s| && MatchAt(ConsolidatedPattern, s, j).Some?
  {
    SearchFromLeftmost(ConsolidatedPattern, s, 0);
  }
}
