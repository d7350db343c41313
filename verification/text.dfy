/**
 * String helpers used by the outline engine: `str.strip`, `str.lower`,
 * `str.isupper`, `str.istitle`, `str.startswith`, `" ".join` and the
 * numbered-heading regular expression `^\d+(\.\d+)*\s+[A-Za-z]`.
 * Character classes are those of the ASCII range.
 */
module Text {

  /** Characters `str.isspace` accepts in the ASCII range. */
  predicate IsSpace(c: char) {
    c == ' ' || c == '\t' || c == '\n' || c == '\r' || c == '\U{0B}' || c == '\U{0C}'
    || ('\U{1C}' <= c <= '\U{1F}')
  }

  predicate IsDigit(c: char) { '0' <= c <= '9' }
  predicate IsUpperChar(c: char) { 'A' <= c <= 'Z' }
  predicate IsLowerChar(c: char) { 'a' <= c <= 'z' }
  predicate IsLetter(c: char) { IsUpperChar(c) || IsLowerChar(c) }

  function LowerChar(c: char): (r: char)
    ensures IsUpperChar(c) ==> IsLowerChar(r)
    ensures !IsUpperChar(c) ==> r == c
  {
    if IsUpperChar(c) then (c as int + 32) as char else c
  }

  /** The string with every capital letter lowered. */
  function Lower(s: string): (r: string)
    ensures |r| == |s|
  {
    if |s| == 0 then [] else Lower(s[..|s| - 1]) + [LowerChar(s[|s| - 1])]
  }

  /** Each character is lowered in place. */
  lemma {:induction false} LowerAt(s: string)
    ensures forall i :: 0 <= i < |s| ==> Lower(s)[i] == LowerChar(s[i])
  {
    if |s| > 0 {
      LowerAt(s[..|s| - 1]);
    }
  }

  /** `s.startswith(p)` */
  predicate StartsWith(s: string, p: string) {
    |p| <= |s| && s[..|p|] == p
  }

  /** `sub` occurs in `s` at position `i`. */
  predicate OccursAt(s: string, sub: string, i: int) {
    0 <= i <= |s| - |sub| && s[i..i + |sub|] == sub
  }

  /** `sub in s` */
  predicate Contains(s: string, sub: string) {
    exists i :: 0 <= i <= |s| - |sub| && OccursAt(s, sub, i)
  }

  /** `sub`, a lower-case string, occurs in `s` at position `i` when the case of `s` is ignored. */
  predicate OccursIgnoringCaseAt(s: string, sub: string, i: int) {
    0 <= i <= |s| - |sub| && forall k :: 0 <= k < |sub| ==> LowerChar(s[i + k]) == sub[k]
  }

  /** `sub`, a lower-case string, occurs in `s` when the case of `s` is ignored. */
  predicate ContainsIgnoringCase(s: string, sub: string) {
    exists i :: 0 <= i <= |s| - |sub| && OccursIgnoringCaseAt(s, sub, i)
  }

  /** `sub` occurs in the lowered string at `i` exactly when it occurs there ignoring case. */
  lemma OccursLowerAt(s: string, sub: string, i: int)
    requires 0 <= i <= |s| - |sub|
    requires forall k :: 0 <= k < |s| ==> Lower(s)[k] == LowerChar(s[k])
    ensures OccursAt(Lower(s), sub, i) <==> OccursIgnoringCaseAt(s, sub, i)
  {
    var t := Lower(s)[i..i + |sub|];
    assert forall k :: 0 <= k < |sub| ==> t[k] == LowerChar(s[i + k]);
    if OccursIgnoringCaseAt(s, sub, i) {
      assert t == sub;
    }
  }

  /** Searching the lowered string finds exactly the case-insensitive occurrences. */
  lemma ContainsLower(s: string, sub: string)
    ensures Contains(Lower(s), sub) <==> ContainsIgnoringCase(s, sub)
  {
    LowerAt(s);
    forall i | 0 <= i <= |s| - |sub| ensures OccursAt(Lower(s), sub, i) <==> OccursIgnoringCaseAt(s, sub, i) {
      OccursLowerAt(s, sub, i);
    }
  }

  /** Number of leading whitespace characters. */
  function LeadingSpace(s: string): (n: nat)
    ensures n <= |s|
  {
    if |s| > 0 && IsSpace(s[0]) then 1 + LeadingSpace(s[1..]) else 0
  }

  /** Number of trailing whitespace characters. */
  function TrailingSpace(s: string): (n: nat)
    ensures n <= |s|
  {
    if |s| > 0 && IsSpace(s[|s| - 1]) then 1 + TrailingSpace(s[..|s| - 1]) else 0
  }

  /** `s.strip()`: the longest infix with no leading or trailing whitespace. */
  function Strip(s: string): (r: string)
    ensures |r| <= |s|
  {
    var t := s[LeadingSpace(s)..];
    t[..|t| - TrailingSpace(t)]
  }

  /** The leading run counted by `LeadingSpace` is whitespace and ends before a non-space. */
  lemma {:induction false} LeadingSpaceMeaning(s: string)
    ensures forall i :: 0 <= i < LeadingSpace(s) ==> IsSpace(s[i])
    ensures LeadingSpace(s) < |s| ==> !IsSpace(s[LeadingSpace(s)])
  {
    if |s| > 0 && IsSpace(s[0]) {
      var t := s[1..];
      LeadingSpaceMeaning(t);
      forall i | 1 <= i < LeadingSpace(s) ensures IsSpace(s[i]) {
        assert t[i - 1] == s[i];
      }
      if LeadingSpace(s) < |s| {
        assert t[LeadingSpace(t)] == s[LeadingSpace(s)];
      }
    }
  }

  /** The trailing run counted by `TrailingSpace` is whitespace and starts after a non-space. */
  lemma {:induction false} TrailingSpaceMeaning(s: string)
    ensures forall i :: |s| - TrailingSpace(s) <= i < |s| ==> IsSpace(s[i])
    ensures TrailingSpace(s) < |s| ==> !IsSpace(s[|s| - TrailingSpace(s) - 1])
  {
    if |s| > 0 && IsSpace(s[|s| - 1]) {
      var t := s[..|s| - 1];
      TrailingSpaceMeaning(t);
      forall i | |s| - TrailingSpace(s) <= i < |s| - 1 ensures IsSpace(s[i]) {
        assert t[i] == s[i];
      }
      if TrailingSpace(s) < |s| {
        assert t[|t| - TrailingSpace(t) - 1] == s[|s| - TrailingSpace(s) - 1];
      }
    }
  }

  /** A string that `strip` leaves unchanged. */
  predicate Trimmed(s: string) {
    s == [] || (!IsSpace(s[0]) && !IsSpace(s[|s| - 1]))
  }

  /** Every character of `s` is whitespace. */
  predicate AllSpace(s: string) {
    forall i :: 0 <= i < |s| ==> IsSpace(s[i])
  }

  /**
   * `strip` removes exactly the surrounding whitespace: its result is an
   * infix of `s` with no whitespace at either end, and what it cuts off on
   * each side is whitespace only.
   */
  lemma StripTrims(s: string)
    ensures Trimmed(Strip(s))
    ensures exists i, j :: 0 <= i <= j <= |s| && Strip(s) == s[i..j] && AllSpace(s[..i]) && AllSpace(s[j..])
  {
    var i := LeadingSpace(s);
    var t := s[i..];
    var n := TrailingSpace(t);
    LeadingSpaceMeaning(s);
    TrailingSpaceMeaning(t);
    var j := i + |t| - n;
    assert Strip(s) == s[i..j];
    if Strip(s) != [] {
      assert !IsSpace(t[0]);
      assert !IsSpace(t[|t| - n - 1]);
    }
    assert AllSpace(s[..i]);
    assert AllSpace(s[j..]) by {
      forall k | 0 <= k < |s[j..]| ensures IsSpace(s[j..][k]) {
        assert s[j..][k] == t[|t| - n + k];
      }
    }
  }

  lemma StripOfTrimmed(s: string)
    requires Trimmed(s)
    ensures Strip(s) == s
  {
    assert LeadingSpace(s) == 0;
    assert TrailingSpace(s) == 0;
    TrailingSpaceMeaning(s);
  }

  /** Stripping a stripped string changes nothing. */
  lemma {:induction false} StripIdempotent(s: string)
    ensures Strip(Strip(s)) == Strip(s)
  {
    StripTrims(s);
    StripOfTrimmed(Strip(s));
  }

  /** `sep.join(parts)` */
  function Join(parts: seq<string>, sep: string): (r: string)
    ensures |parts| == 1 ==> r == parts[0]
  {
    if |parts| == 0 then ""
    else if |parts| == 1 then parts[0]
    else Join(parts[..|parts| - 1], sep) + sep + parts[|parts| - 1]
  }

  /** The total length of `parts`. */
  function TotalLength(parts: seq<string>): (n: nat)
    ensures |parts| > 0 ==> n >= |parts[|parts| - 1]|
  {
    if |parts| == 0 then 0 else TotalLength(parts[..|parts| - 1]) + |parts[|parts| - 1]|
  }

  /** `sep.join(parts)` has the parts' total length plus one separator between each two. */
  lemma {:induction false} JoinLength(parts: seq<string>, sep: string)
    requires |parts| > 0
    ensures |Join(parts, sep)| == TotalLength(parts) + (|parts| - 1) * |sep|
  {
    if |parts| > 1 {
      var init := parts[..|parts| - 1];
      JoinLength(init, sep);
      assert Join(parts, sep) == Join(init, sep) + sep + parts[|parts| - 1];
      assert (|parts| - 1) * |sep| == (|init| - 1) * |sep| + |sep|;
    }
  }

  /** `sep.join(parts)` starts with the first part and ends with the last. */
  lemma {:induction false} JoinEnds(parts: seq<string>, sep: string)
    requires |parts| > 0
    ensures StartsWith(Join(parts, sep), parts[0])
    ensures var r := Join(parts, sep);
            var last := parts[|parts| - 1];
            |last| <= |r| && r[|r| - |last|..] == last
  {
    if |parts| > 1 {
      var init := parts[..|parts| - 1];
      var last := parts[|parts| - 1];
      JoinEnds(init, sep);
      var j := Join(init, sep);
      assert Join(parts, sep) == (j + sep) + last;
      assert init[0] == parts[0];
      assert (j + (sep + last))[..|parts[0]|] == j[..|parts[0]|];
    }
  }

  /**
   * `s.isupper()`: at least one cased character and no lower-case one.
   */
  predicate IsUpperText(s: string) {
    (exists i :: 0 <= i < |s| && IsUpperChar(s[i]))
    && forall i :: 0 <= i < |s| ==> !IsLowerChar(s[i])
  }

  /**
   * The scan behind `s.istitle()`: `prevCased` tells whether the previous
   * character was cased, `seenCased` whether any cased character was seen.
   * An upper-case letter may only follow an uncased character, a lower-case
   * letter only a cased one.
   */
  function TitleScan(s: string, prevCased: bool, seenCased: bool): (r: bool)
  {
    if |s| == 0 then seenCased
    else if IsUpperChar(s[0]) then !prevCased && TitleScan(s[1..], true, true)
    else if IsLowerChar(s[0]) then prevCased && TitleScan(s[1..], true, true)
    else TitleScan(s[1..], false, seenCased)
  }

  /** `s.istitle()` */
  predicate IsTitleText(s: string) {
    TitleScan(s, false, false)
  }

  /** Some character of `s` is an ASCII letter. */
  predicate HasLetter(s: string) {
    exists i :: 0 <= i < |s| && IsLetter(s[i])
  }

  /**
   * The letter at `i`, if any, is upper case exactly when it begins a run of
   * letters; `prevCased` stands for the character before the start of `s`.
   */
  predicate CaseFits(s: string, i: int, prevCased: bool)
    requires 0 <= i < |s|
  {
    IsLetter(s[i]) ==> (IsUpperChar(s[i]) <==> (if i == 0 then !prevCased else !IsLetter(s[i - 1])))
  }

  predicate AllCasesFit(s: string, prevCased: bool) {
    forall i :: 0 <= i < |s| ==> CaseFits(s, i, prevCased)
  }

  /** Declarative reading of the `istitle` scan. */
  lemma {:induction false} TitleScanMeaning(s: string, prevCased: bool, seenCased: bool)
    ensures TitleScan(s, prevCased, seenCased) <==> (seenCased || HasLetter(s)) && AllCasesFit(s, prevCased)
  {
    if |s| > 0 {
      var c := IsLetter(s[0]);
      TitleScanMeaning(s[1..], c, seenCased || c);
      forall i | 1 <= i < |s|
        ensures CaseFits(s, i, prevCased) <==> CaseFits(s[1..], i - 1, c)
      {
        assert s[1..][i - 1] == s[i];
        if i > 1 { assert s[1..][i - 2] == s[i - 1]; }
      }
      assert AllCasesFit(s, prevCased) <==> CaseFits(s, 0, prevCased) && AllCasesFit(s[1..], c) by {
        if AllCasesFit(s, prevCased) {
          forall j | 0 <= j < |s| - 1 ensures CaseFits(s[1..], j, c) {
            assert CaseFits(s, j + 1, prevCased);
          }
        }
        if CaseFits(s, 0, prevCased) && AllCasesFit(s[1..], c) {
          forall i | 0 <= i < |s| ensures CaseFits(s, i, prevCased) {
            if i > 0 { assert CaseFits(s[1..], i - 1, c); }
          }
        }
      }
      assert HasLetter(s) <==> c || HasLetter(s[1..]) by {
        if HasLetter(s) && !c {
          var i :| 0 <= i < |s| && IsLetter(s[i]);
          assert IsLetter(s[1..][i - 1]);
        }
        if HasLetter(s[1..]) {
          var i :| 0 <= i < |s| - 1 && IsLetter(s[1..][i]);
          assert IsLetter(s[i + 1]);
        }
      }
    }
  }

  /**
   * `s.istitle()` holds exactly when `s` has a letter and every letter is
   * upper case if and only if it begins a run of letters.
   */
  lemma TitleTextMeaning(s: string)
    ensures IsTitleText(s) <==> HasLetter(s) && AllCasesFit(s, false)
  {
    TitleScanMeaning(s, false, false);
  }

  // ---------------------------------------------------------------
  // The numbered-heading pattern ^\d+(\.\d+)*\s+[A-Za-z]
  // ---------------------------------------------------------------

  /** The scan for `\d+(\.\d+)*` may consume position `p`: a digit, or a dot before a digit. */
  predicate Continues(s: string, p: nat)
    requires p < |s|
  {
    IsDigit(s[p]) || (s[p] == '.' && p + 1 < |s| && IsDigit(s[p + 1]))
  }

  /**
   * End of the run `\d+(\.\d+)*` that starts at `i`: a digit is consumed,
   * and a dot is consumed only when a digit follows it.
   */
  function DottedEnd(s: string, i: nat): (e: nat)
    requires i <= |s|
    ensures i <= e <= |s|
    decreases |s| - i
  {
    if i < |s| && Continues(s, i) then DottedEnd(s, i + 1)
    else i
  }

  /** End of the whitespace run that starts at `i`. */
  function SpaceEnd(s: string, i: nat): (e: nat)
    requires i <= |s|
    ensures i <= e <= |s|
    ensures e < |s| ==> !IsSpace(s[e])
    decreases |s| - i
  {
    if i < |s| && IsSpace(s[i]) then SpaceEnd(s, i + 1) else i
  }

  /** The run `SpaceEnd` scans is whitespace. */
  lemma {:induction false} SpaceEndScans(s: string, i: nat)
    requires i <= |s|
    ensures forall k :: i <= k < SpaceEnd(s, i) ==> IsSpace(s[k])
    decreases |s| - i
  {
    if i < |s| && IsSpace(s[i]) {
      SpaceEndScans(s, i + 1);
    }
  }

  /** `re.match(r"^\d+(\.\d+)*\s+[A-Za-z]", s)` succeeds. */
  predicate MatchesNumbered(s: string) {
    |s| > 0 && IsDigit(s[0]) &&
    var k := DottedEnd(s, 0);
    var m := SpaceEnd(s, k);
    k < m < |s| && IsLetter(s[m])
  }

  /** `t` is in the language of `\d+(\.\d+)*`. */
  predicate DottedNumber(t: string) {
    |t| > 0 && IsDigit(t[0]) && IsDigit(t[|t| - 1])
    && (forall i :: 0 <= i < |t| ==> IsDigit(t[i]) || t[i] == '.')
    && (forall i :: 0 <= i < |t| - 1 && t[i] == '.' ==> IsDigit(t[i + 1]))
  }

  /** The regular expression read as a split of `s`: number, blanks, letter. */
  predicate NumberedSplit(s: string, k: int, m: int) {
    0 < k < m < |s| && DottedNumber(s[..k])
    && (forall p :: k <= p < m ==> IsSpace(s[p]))
    && IsLetter(s[m])
  }

  /** Everything `DottedEnd` scans from `i` may be consumed, and it stops where the scan cannot go on. */
  lemma {:induction false} DottedEndScans(s: string, i: nat)
    requires i <= |s|
    ensures forall p :: i <= p < DottedEnd(s, i) ==> Continues(s, p)
    ensures DottedEnd(s, i) < |s| ==> !Continues(s, DottedEnd(s, i))
    decreases |s| - i
  {
    if i < |s| && Continues(s, i) {
      DottedEndScans(s, i + 1);
    }
  }

  /** A scan over a dotted number that is followed by a non-dot, non-digit stops exactly at its end. */
  lemma {:induction false} DottedEndStopsAt(s: string, i: nat, k: nat)
    requires i <= k < |s|
    requires forall p :: i <= p < k ==> IsDigit(s[p]) || s[p] == '.'
    requires forall p :: i <= p < k && s[p] == '.' ==> IsDigit(s[p + 1])
    requires !IsDigit(s[k]) && s[k] != '.'
    ensures DottedEnd(s, i) == k
    decreases k - i
  {
    if i < k {
      DottedEndStopsAt(s, i + 1, k);
    }
  }

  /** The hand-written matcher accepts exactly the strings the regular expression accepts. */
  lemma MatchesNumberedMeaning(s: string)
    ensures MatchesNumbered(s) <==> exists k, m :: NumberedSplit(s, k, m)
  {
    if MatchesNumbered(s) {
      MatchedSplit(s);
    }
    if exists k, m :: NumberedSplit(s, k, m) {
      var k, m :| NumberedSplit(s, k, m);
      SplitMatches(s, k, m);
    }
  }

  /** A match splits at the end of the dotted number and the end of the blanks after it. */
  lemma MatchedSplit(s: string)
    requires MatchesNumbered(s)
    ensures NumberedSplit(s, DottedEnd(s, 0), SpaceEnd(s, DottedEnd(s, 0)))
  {
    var k := DottedEnd(s, 0);
    DottedEndScans(s, 0);
    SpaceEndScans(s, k);
    var t := s[..k];
    forall p | 0 <= p < k ensures t[p] == s[p] && (IsDigit(t[p]) || t[p] == '.') {
      assert Continues(s, p);
    }
    forall p | 0 <= p < k - 1 && t[p] == '.' ensures IsDigit(t[p + 1]) {
      assert Continues(s, p);
      assert t[p + 1] == s[p + 1];
    }
    assert IsDigit(t[|t| - 1]) by {
      assert Continues(s, k - 1);
    }
  }

  /** Every split the regular expression accepts is found by the matcher. */
  lemma SplitMatches(s: string, k: int, m: int)
    requires NumberedSplit(s, k, m)
    ensures MatchesNumbered(s)
  {
    var t := s[..k];
    assert forall p :: 0 <= p < k ==> s[p] == t[p];
    assert IsSpace(s[k]);
    assert forall p :: 0 <= p < k && s[p] == '.' ==> IsDigit(s[p + 1]) by {
      forall p | 0 <= p < k && s[p] == '.' ensures IsDigit(s[p + 1]) {
        assert t[p] == '.';
      }
    }
    DottedEndStopsAt(s, 0, k);
    SpaceEndStopsAt(s, k, m);
  }

  lemma {:induction false} SpaceEndStopsAt(s: string, i: nat, m: nat)
    requires i <= m < |s|
    requires forall p :: i <= p < m ==> IsSpace(s[p])
    requires !IsSpace(s[m])
    ensures SpaceEnd(s, i) == m
    decreases m - i
  {
    if i < m {
      SpaceEndStopsAt(s, i + 1, m);
    }
  }

  /**
   * A dot must be followed by a digit to belong to the number, so "1. Introduction"
   * is not a numbered heading while "2.1 Scope" is.
   */
  lemma NumberedExamples()
    ensures !MatchesNumbered("1. Introduction")
    ensures MatchesNumbered("2.1 Scope")
  {
    var a := "1. Introduction";
    assert DottedEnd(a, 2) == 2;
    assert DottedEnd(a, 0) == 1;
    var b := "2.1 Scope";
    assert DottedEnd(b, 3) == 3;
    assert DottedEnd(b, 0) == 3;
    assert SpaceEnd(b, 4) == 4;
    assert SpaceEnd(b, 3) == 4;
  }
}
