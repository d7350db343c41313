/**
 * Heading classification and the whole outline extraction: the average
 * line gap of a page, the additive score of each line, the level it is
 * given, the filter against repeating the previous entry, and the
 * extraction over a document given as pages of words.
 *
 * Scores are kept doubled so that the 1.5 bonus for capitals is an
 * integer; the acceptance threshold 4 becomes 8.
 */
module Outline {
  import opened Wrappers
  import opened Text
  import opened Layout
  import opened Profile
  import opened Title

  /** The average gap of a page with no positive gap between lines. */
  const DefaultGap: real := 5.0
  /** A gap above this multiple of the average gap counts as a break. */
  const GapFactor: real := 1.5
  /** A first word starting left of this position counts as unindented. */
  const IndentLimit: real := 70.0
  /** Lines shorter than this many characters are never headings. */
  const MinTextLength: nat := 3
  /** Lines longer than this many characters are never headings. */
  const MaxTextLength: nat := 100
  /** All-capital lines earn the capitals bonus only below this length. */
  const CapsLengthLimit: nat := 50
  /** Lines of at most this many words may earn the brevity bonus. */
  const BriefWords: nat := 5
  /** Doubled score a line needs before the brevity bonus applies (3 in the source). */
  const BriefMinimum: int := 6
  /** Doubled score a line needs to be a heading (4 in the source). */
  const Threshold: int := 8

  /** Every line has a word; `GroupedLines` only produces such lines. */
  predicate NonEmptyLines(lines: seq<Line>) {
    forall j :: 0 <= j < |lines| ==> |lines[j]| > 0
  }

  lemma GroupedLinesNonEmpty(words: seq<Word>)
    ensures NonEmptyLines(GroupedLines(words))
  {
    GroupedLinesShape(words);
  }

  // ---------------------------------------------------------------
  // Line gaps
  // ---------------------------------------------------------------

  function LastWord(line: Line): (r: Word)
    requires |line| > 0
  {
    line[|line| - 1]
  }

  /** From the bottom of the last word of line `i - 1` down to the top of the first word of line `i`. */
  function GapBefore(lines: seq<Line>, i: nat): (r: real)
    requires NonEmptyLines(lines) && 0 < i < |lines|
  {
    lines[i][0].top - LastWord(lines[i - 1]).bottom
  }

  /** The positive gaps before lines `1 .. n - 1`, in line order. */
  function PositiveGaps(lines: seq<Line>, n: nat): (gaps: seq<real>)
    requires NonEmptyLines(lines) && n <= |lines|
    ensures |gaps| < n || n == 0
  {
    if n <= 1 then []
    else
      var g := GapBefore(lines, n - 1);
      PositiveGaps(lines, n - 1) + (if g > 0.0 then [g] else [])
  }

  function Sum(s: seq<real>): (r: real)
  {
    if |s| == 0 then 0.0 else Sum(s[..|s| - 1]) + s[|s| - 1]
  }

  /** The mean of the positive gaps of a page, or the default when there is none. */
  function MeanGap(lines: seq<Line>): (r: real)
    requires NonEmptyLines(lines)
  {
    var gaps := PositiveGaps(lines, |lines|);
    if |gaps| == 0 then DefaultGap else Sum(gaps) / (|gaps| as real)
  }

  /** The gap loop of the heading pass, appending each positive gap. */
  method AverageGap(lines: seq<Line>) returns (avg: real)
    requires NonEmptyLines(lines)
    ensures avg == MeanGap(lines)
  {
    var gaps: seq<real> := [];
    var i := 1;
    while i < |lines|
      invariant 1 <= i
      invariant i <= |lines| ==> gaps == PositiveGaps(lines, i)
      invariant |lines| == 0 ==> gaps == []
      invariant |lines| > 0 ==> i <= |lines|
    {
      var top := lines[i][0].top;
      var prevBottom := LastWord(lines[i - 1]).bottom;
      var gap := top - prevBottom;
      if gap > 0.0 {
        gaps := gaps + [gap];
      }
      i := i + 1;
    }
    avg := if |gaps| > 0 then Sum(gaps) / (|gaps| as real) else DefaultGap;
  }

  /** A gap is among the positive gaps exactly when some line has it above it and it is positive. */
  lemma {:induction false} PositiveGapsMeaning(lines: seq<Line>, n: nat, g: real)
    requires NonEmptyLines(lines) && n <= |lines|
    ensures g in PositiveGaps(lines, n) <==> g > 0.0 && exists i :: 0 < i < n && GapBefore(lines, i) == g
  {
    if n > 1 {
      PositiveGapsMeaning(lines, n - 1, g);
    }
  }

  lemma {:induction false} SumBounds(s: seq<real>, lo: real, hi: real)
    requires forall k :: 0 <= k < |s| ==> lo <= s[k] <= hi
    ensures (|s| as real) * lo <= Sum(s) <= (|s| as real) * hi
  {
    if |s| > 0 {
      SumBounds(s[..|s| - 1], lo, hi);
    }
  }

  lemma {:induction false} SumPositive(s: seq<real>)
    requires |s| > 0 && forall k :: 0 <= k < |s| ==> s[k] > 0.0
    ensures Sum(s) > 0.0
  {
    if |s| > 1 {
      SumPositive(s[..|s| - 1]);
    }
  }

  lemma MeanBounds(total: real, n: real, lo: real, hi: real)
    requires n > 0.0 && n * lo <= total <= n * hi
    ensures lo <= total / n <= hi
  {
    var q := total / n;
    assert q * n == total;
    assert n * (q - lo) >= 0.0;
    assert n * (hi - q) >= 0.0;
  }

  /** The average gap is positive. */
  lemma MeanGapPositive(lines: seq<Line>)
    requires NonEmptyLines(lines)
    ensures MeanGap(lines) > 0.0
  {
    var gaps := PositiveGaps(lines, |lines|);
    if |gaps| > 0 {
      forall k | 0 <= k < |gaps| ensures gaps[k] > 0.0 {
        PositiveGapsMeaning(lines, |lines|, gaps[k]);
      }
      SumPositive(gaps);
      var n := |gaps| as real;
      assert (Sum(gaps) / n) * n == Sum(gaps);
    }
  }

  lemma SumMeanBounds(s: seq<real>, lo: real, hi: real)
    requires |s| > 0 && forall k :: 0 <= k < |s| ==> lo <= s[k] <= hi
    ensures lo <= Sum(s) / (|s| as real) <= hi
  {
    SumBounds(s, lo, hi);
    MeanBounds(Sum(s), |s| as real, lo, hi);
  }

  /** The average gap lies between any bounds that hold for every positive gap of the page. */
  lemma MeanGapBetween(lines: seq<Line>, lo: real, hi: real)
    requires NonEmptyLines(lines)
    requires forall i :: 0 < i < |lines| && GapBefore(lines, i) > 0.0 ==> lo <= GapBefore(lines, i) <= hi
    ensures PositiveGaps(lines, |lines|) != [] ==> lo <= MeanGap(lines) <= hi
  {
    var gaps := PositiveGaps(lines, |lines|);
    if |gaps| > 0 {
      forall k | 0 <= k < |gaps| ensures lo <= gaps[k] <= hi {
        PositiveGapsMeaning(lines, |lines|, gaps[k]);
        var i :| 0 < i < |lines| && GapBefore(lines, i) == gaps[k];
      }
      SumMeanBounds(gaps, lo, hi);
    }
  }

  // ---------------------------------------------------------------
  // Scoring
  // ---------------------------------------------------------------

  /** The font size of a line: that of its first word, or the body size when it has none. */
  function LineSize(line: Line, body: real): (r: real)
    requires |line| > 0
  {
    if line[0].size.Some? then line[0].size.value else body
  }

  /** The size tier: 3, 2 or 1 (doubled) for the first, second or third heading size. */
  function SizeBonus(size: real, headings: seq<real>): (b: int)
    ensures b != 0 <==> size in headings
  {
    if size in headings then
      if size == headings[0] then 6
      else if size == headings[1] then 4
      else 2
    else 0
  }

  /**
   * With at most three strictly descending heading sizes, the `i`-th gets
   * 3 - i (doubled: 6 - 2i), so a larger heading size gets a strictly
   * larger bonus.
   */
  lemma SizeBonusTiers(hs: seq<real>, i: nat, a: real, b: real)
    requires |hs| <= MaxHeadingSizes && StrictlyDescending(hs)
    ensures i < |hs| ==> SizeBonus(hs[i], hs) == 6 - 2 * i
    ensures a in hs && b in hs && a > b ==> SizeBonus(a, hs) > SizeBonus(b, hs) > 0
  {
    if a in hs && b in hs && a > b {
      var j :| 0 <= j < |hs| && hs[j] == a;
      var k :| 0 <= k < |hs| && hs[k] == b;
      assert j < k;
    }
  }

  /** A first word with a colour that is not one of the common colours. */
  predicate Colored(w: Word, common: seq<seq<real>>) {
    HasColor(w) && w.color.value !in common
  }

  /** Text that starts with the article "the " or "a ", ignoring case. */
  predicate StartsWithArticle(text: string) {
    StartsWith(Lower(text), "the ") || StartsWith(Lower(text), "a ")
  }

  /** Capitals: 1.5 (doubled) for a short all-capital text, else 1 (doubled) for title case without a leading article. */
  function CasingBonus(text: string): (b: int)
    ensures b == 3 <==> IsUpperText(text) && |text| < CapsLengthLimit
    ensures b == 2 <==> !(IsUpperText(text) && |text| < CapsLengthLimit) && IsTitleText(text) && !StartsWithArticle(text)
    ensures b == 0 || b == 2 || b == 3
  {
    if IsUpperText(text) && |text| < CapsLengthLimit then 3
    else if IsTitleText(text) && !StartsWithArticle(text) then 2
    else 0
  }

  /** Text that begins with "the " or "a ", each letter in either case. */
  predicate LeadingArticle(text: string) {
    || (|text| >= 4 && text[0] in "Tt" && text[1] in "Hh" && text[2] in "Ee" && text[3] == ' ')
    || (|text| >= 2 && text[0] in "Aa" && text[1] == ' ')
  }

  /** Lowering the text before the article test ignores exactly the case of the article's letters. */
  lemma StartsWithArticleMeaning(text: string)
    ensures StartsWithArticle(text) <==> LeadingArticle(text)
  {
    LowerAt(text);
    var l := Lower(text);
    if |text| >= 4 && StartsWith(l, "the ") {
      assert l[0] == 't' && l[1] == 'h' && l[2] == 'e' && l[3] == ' ' by { assert l[..4] == "the "; }
    }
    if |text| >= 2 && StartsWith(l, "a ") {
      assert l[0] == 'a' && l[1] == ' ' by { assert l[..2] == "a "; }
    }
    if |text| >= 4 && text[0] in "Tt" && text[1] in "Hh" && text[2] in "Ee" && text[3] == ' ' {
      assert l[..4] == "the ";
    }
    if |text| >= 2 && text[0] in "Aa" && text[1] == ' ' {
      assert l[..2] == "a ";
    }
  }

  /**
   * The capitals bonus read declaratively: 1.5 (doubled: 3) for a text
   * shorter than 50 characters with a capital and no small letter; else 1
   * (doubled: 2) for a text with a letter, each letter a capital exactly
   * when it begins a run of letters, that does not begin with "the " or
   * "a "; else nothing.
   */
  lemma CasingBonusMeaning(text: string)
    ensures CasingBonus(text) == 3 <==>
              && |text| < CapsLengthLimit
              && (exists i :: 0 <= i < |text| && IsUpperChar(text[i]))
              && (forall i :: 0 <= i < |text| ==> !IsLowerChar(text[i]))
    ensures CasingBonus(text) == 2 <==>
              && CasingBonus(text) != 3
              && HasLetter(text) && AllCasesFit(text, false)
              && !LeadingArticle(text)
    ensures CasingBonus(text) == 0 <==> CasingBonus(text) != 3 && CasingBonus(text) != 2
  {
    TitleTextMeaning(text);
    StartsWithArticleMeaning(text);
  }

  /** The signals of one line that the score is made of. */
  datatype Signals = Signals(
    size: real,         // font size of the first word, or the body size
    bold: bool,         // the first word's font is bold
    colored: bool,      // the first word has an uncommon colour
    indent: real,       // left edge of the first word
    gap: real,          // gap above the line, 0 for the first line of a page
    text: string,       // the line's stripped text
    wordCount: nat)     // number of words in the line

  /** The signals of line `i` of a page. */
  function SignalsOf(prof: Profile, lines: seq<Line>, i: nat): (s: Signals)
    requires NonEmptyLines(lines) && i < |lines|
    ensures s.text == LineText(lines[i]) && s.wordCount == |lines[i]|
  {
    var first := lines[i][0];
    Signals(
      LineSize(lines[i], prof.body),
      IsBold(first),
      Colored(first, prof.common),
      first.x0,
      if i > 0 then GapBefore(lines, i) else 0.0,
      LineText(lines[i]),
      |lines[i]|)
  }

  /** The doubled score before the brevity bonus. */
  function BaseScore(prof: Profile, s: Signals, avg: real): (r: int)
  {
    SizeBonus(s.size, prof.headings)
    + (if s.bold then 4 else 0)
    + (if s.colored then 2 else 0)
    + (if s.indent < IndentLimit then 2 else 0)
    + (if s.gap > avg * GapFactor then 2 else 0)
    + CasingBonus(s.text)
    + (if MatchesNumbered(s.text) then 4 else 0)
  }

  /** The doubled score of a line: the base score, plus 1 (doubled) for a short line that already scores 3. */
  function Score(prof: Profile, s: Signals, avg: real): (r: int)
  {
    var base := BaseScore(prof, s, avg);
    if s.wordCount <= BriefWords && base >= BriefMinimum then base + 2 else base
  }

  /** The scoring block of the heading pass, adding each bonus in turn. */
  method ScoreLine(prof: Profile, s: Signals, avg: real) returns (score: int)
    ensures score == Score(prof, s, avg)
  {
    score := 0;
    if s.size in prof.headings {
      score := score + if s.size == prof.headings[0] then 6 else if s.size == prof.headings[1] then 4 else 2;
    }
    assert score == SizeBonus(s.size, prof.headings);
    if s.bold {
      score := score + 4;
    }
    if s.colored {
      score := score + 2;
    }
    if s.indent < IndentLimit {
      score := score + 2;
    }
    if s.gap > avg * GapFactor {
      score := score + 2;
    }
    ghost var layout := score;
    if IsUpperText(s.text) && |s.text| < CapsLengthLimit {
      score := score + 3;
    } else if IsTitleText(s.text) && !(StartsWith(Lower(s.text), "the ") || StartsWith(Lower(s.text), "a ")) {
      score := score + 2;
    }
    assert score == layout + CasingBonus(s.text);
    if MatchesNumbered(s.text) {
      score := score + 4;
    }
    assert score == BaseScore(prof, s, avg);
    if s.wordCount <= BriefWords && score >= BriefMinimum {
      score := score + 2;
    }
  }

  /** Every score lies between 0 and 12.5 (doubled: 25). */
  lemma ScoreRange(prof: Profile, s: Signals, avg: real)
    ensures 0 <= Score(prof, s, avg) <= 25
  {
  }

  /**
   * The brevity bonus never makes a heading of a line whose other signals
   * score below 3: a heading's base score is at least 3 (doubled: 6).
   */
  lemma HeadingBaseScore(prof: Profile, s: Signals, avg: real)
    ensures Score(prof, s, avg) >= Threshold ==> BaseScore(prof, s, avg) >= BriefMinimum
  {
  }

  /** A short line in the largest heading size is a heading on its size alone. */
  lemma BriefLargestIsHeading(prof: Profile, s: Signals, avg: real)
    requires |prof.headings| > 0 && s.size == prof.headings[0] && s.wordCount <= BriefWords
    ensures Score(prof, s, avg) >= Threshold
  {
  }

  // ---------------------------------------------------------------
  // Levels
  // ---------------------------------------------------------------

  /**
   * The level of an accepted line of size `size`: the mapped level of a
   * heading size; for an unmapped bold size above the body size, H1, H2 or
   * H3 by comparison with the first two heading sizes; otherwise H3. `None`
   * is the `IndexError` raised when that comparison reads the first
   * heading size of an empty list.
   */
  function LevelFor(prof: Profile, size: real, bold: bool): (r: Option<Level>)
  {
    if size in prof.levels then Some(prof.levels[size])
    else if size > prof.body && bold then
      if |prof.headings| == 0 then None
      else if size >= prof.headings[0] then Some(H1)
      else if |prof.headings| > 1 && size >= prof.headings[1] then Some(H2)
      else Some(H3)
    else Some(H3)
  }

  /** The facts about a profile that the level choice relies on. */
  ghost predicate LevelsConsistent(prof: Profile) {
    && |prof.headings| <= MaxHeadingSizes
    && StrictlyDescending(prof.headings)
    && (forall x :: x in prof.headings ==> x > prof.body)
    && prof.levels.Keys == (set x | x in prof.headings)
    && (forall i :: 0 <= i < |prof.headings| ==> prof.levels[prof.headings[i]] == LevelAt(i))
  }

  lemma ProfileConsistent(sizes: seq<real>, colors: seq<seq<real>>)
    requires |sizes| > 0
    ensures LevelsConsistent(MakeProfile(sizes, colors))
  {
    var prof := MakeProfile(sizes, colors);
    HeadingSizesBounds(sizes, prof.body);
    LevelMapMeaning(prof.headings);
  }

  /**
   * The level choice fails exactly for a bold line larger than the body
   * size when there is no heading size at all; a heading size gets its
   * mapped level; any other size gets H3 unless the line is bold and larger
   * than the body size.
   */
  lemma LevelForMeaning(prof: Profile, size: real, bold: bool)
    requires LevelsConsistent(prof)
    ensures LevelFor(prof, size, bold) == None <==> |prof.headings| == 0 && size > prof.body && bold
    ensures forall i :: 0 <= i < |prof.headings| && prof.headings[i] == size ==> LevelFor(prof, size, bold) == Some(LevelAt(i))
    ensures size !in prof.headings && !(size > prof.body && bold) ==> LevelFor(prof, size, bold) == Some(H3)
  {
  }

  /**
   * Among bold lines larger than the body size, a larger size never gets a
   * deeper level, whether or not the sizes are heading sizes.
   */
  lemma LevelMonotone(prof: Profile, a: real, b: real)
    requires LevelsConsistent(prof)
    requires |prof.headings| > 0 && a >= b > prof.body
    ensures LevelFor(prof, a, true).Some? && LevelFor(prof, b, true).Some?
    ensures LevelNumber(LevelFor(prof, a, true).value) <= LevelNumber(LevelFor(prof, b, true).value)
  {
    var hs := prof.headings;
    if a in hs && b in hs {
      var i :| 0 <= i < |hs| && hs[i] == a;
      var j :| 0 <= j < |hs| && hs[j] == b;
      assert i <= j;
    } else if a in hs {
      var i :| 0 <= i < |hs| && hs[i] == a;
      assert b < hs[0];
    } else if b in hs {
      var j :| 0 <= j < |hs| && hs[j] == b;
      if a < hs[0] {
        assert j >= 1;
      }
    }
  }

  /**
   * A line that is not bold gets H3 whenever its size is not a heading
   * size, even when it is larger than every heading size.
   */
  lemma PlainUnmappedIsH3(prof: Profile, size: real)
    requires size !in prof.levels
    ensures LevelFor(prof, size, false) == Some(H3)
  {
  }

  // ---------------------------------------------------------------
  // The verdict on one line
  // ---------------------------------------------------------------

  /** What the heading pass does with a line: skip it, accept it at a level, or raise `IndexError`. */
  datatype Verdict = Skip | Heading(level: Level, text: string) | Fails

  /** The verdict on line `i` of a page whose average gap is `avg`. */
  function Assess(prof: Profile, lines: seq<Line>, i: nat, avg: real): (r: Verdict)
    requires NonEmptyLines(lines) && i < |lines|
  {
    var s := SignalsOf(prof, lines, i);
    if |s.text| > MaxTextLength || |s.text| < MinTextLength then Skip
    else if Score(prof, s, avg) < Threshold then Skip
    else match LevelFor(prof, s.size, s.bold)
      case None => Fails
      case Some(level) => Heading(level, s.text)
  }

  /** The body of the heading pass for one line, up to the duplicate check. */
  method AssessLine(prof: Profile, lines: seq<Line>, i: nat, avg: real) returns (v: Verdict)
    requires NonEmptyLines(lines) && i < |lines|
    ensures v == Assess(prof, lines, i, avg)
  {
    var line := lines[i];
    var first := line[0];
    var fontSize := if first.size.Some? then first.size.value else prof.body;
    var bold := IsBold(first);
    var fullText := LineText(line);
    if |fullText| > MaxTextLength || |fullText| < MinTextLength {
      return Skip;
    }
    var gapAbove := 0.0;
    if i > 0 {
      gapAbove := first.top - LastWord(lines[i - 1]).bottom;
    }
    var signals := Signals(fontSize, bold, Colored(first, prof.common), first.x0, gapAbove, fullText, |line|);
    assert signals == SignalsOf(prof, lines, i);
    var score := ScoreLine(prof, signals, avg);
    if score < Threshold {
      return Skip;
    }
    var level := H3;
    if fontSize in prof.levels {
      level := prof.levels[fontSize];
    } else if fontSize > prof.body && bold {
      if |prof.headings| == 0 {
        return Fails;
      }
      if fontSize >= prof.headings[0] {
        level := H1;
      } else if |prof.headings| > 1 && fontSize >= prof.headings[1] {
        level := H2;
      } else {
        level := H3;
      }
    }
    return Heading(level, fullText);
  }

  /**
   * An accepted line has the stripped text of the line, between 3 and 100
   * characters long, a score of at least 4 (doubled: 8) and, when its size
   * is a heading size, that size's level; and every line meeting these
   * conditions whose level can be chosen is accepted.
   */
  lemma AssessMeaning(prof: Profile, lines: seq<Line>, i: nat, avg: real, level: Level)
    requires NonEmptyLines(lines) && i < |lines|
    ensures var s := SignalsOf(prof, lines, i);
            Assess(prof, lines, i, avg) == Heading(level, LineText(lines[i])) <==>
              && MinTextLength <= |s.text| <= MaxTextLength
              && Score(prof, s, avg) >= Threshold
              && LevelFor(prof, s.size, s.bold) == Some(level)
    ensures var s := SignalsOf(prof, lines, i);
            Assess(prof, lines, i, avg).Heading? ==>
              && Assess(prof, lines, i, avg).text == s.text
              && (s.size in prof.levels ==> Assess(prof, lines, i, avg).level == prof.levels[s.size])
  {
  }

  /** The level choice raises `IndexError` only for a line larger than the body size when there is no heading size. */
  lemma AssessFails(prof: Profile, lines: seq<Line>, i: nat, avg: real)
    requires NonEmptyLines(lines) && i < |lines|
    ensures Assess(prof, lines, i, avg) == Fails ==>
              SignalsOf(prof, lines, i).size > prof.body && |prof.headings| == 0
  {
  }

  // ---------------------------------------------------------------
  // The heading pass
  // ---------------------------------------------------------------

  /** One outline entry; pages are numbered from 1. */
  datatype Entry = Entry(level: Level, text: string, page: nat)

  /** An entry together with the index of the line it was read from. */
  datatype Found = Found(entry: Entry, line: nat)

  /** The `IndexError` of the level choice, at a page (numbered from 1) and line index. */
  datatype Failure = IndexError(page: nat, line: nat)

  /** The result of `extract_outline`. */
  datatype Document = Document(title: string, outline: seq<Entry>)

  /** `text` repeats `prev`: ignoring case it equals it or starts with it. */
  predicate Repeats(prev: string, text: string) {
    Lower(text) == Lower(prev) || StartsWith(Lower(text), Lower(prev))
  }

  /** Appends `f` unless its text repeats the text of the last entry so far. */
  function Admit(found: seq<Found>, f: Found): (r: seq<Found>)
    ensures r == found || r == found + [f]
    ensures r == found + [f] <==> |found| == 0 || !Repeats(found[|found| - 1].entry.text, f.entry.text)
  {
    if |found| == 0 || !Repeats(found[|found| - 1].entry.text, f.entry.text) then found + [f] else found
  }

  /** "background information" after "Background" is a repeat, so it is not admitted. */
  lemma BackgroundRepeats(prev: string, text: string)
    requires prev == "Background" && text == "background information"
    ensures Repeats(prev, text)
  {
    LowerAt(prev);
    LowerAt(text);
    assert Lower(text)[..|prev|] == Lower(prev);
  }

  /** The verdicts on the first `n` lines of a page. */
  function Verdicts(prof: Profile, lines: seq<Line>, avg: real, n: nat): (vs: seq<Verdict>)
    requires NonEmptyLines(lines) && n <= |lines|
    ensures |vs| == n
  {
    seq(n, i requires 0 <= i < n => Assess(prof, lines, i, avg))
  }

  /**
   * The heading pass over the first `n` verdicts of page `page` (numbered
   * from 0), after the entries `start`: a failure stops it, an accepted
   * line is admitted unless it repeats the last entry.
   */
  function ScanLines(vs: seq<Verdict>, page: nat, start: seq<Found>, n: nat): (r: Result<seq<Found>, Failure>)
    requires n <= |vs|
  {
    if n == 0 then Ok(start)
    else match ScanLines(vs, page, start, n - 1)
      case Err(e) => Err(e)
      case Ok(found) =>
        match vs[n - 1]
        case Skip => Ok(found)
        case Fails => Err(IndexError(page + 1, n - 1))
        case Heading(level, text) => Ok(Admit(found, Found(Entry(level, text, page + 1), n - 1)))
  }

  /** One step of the heading pass over a page. */
  lemma ScanLinesStep(vs: seq<Verdict>, page: nat, start: seq<Found>, i: nat, found: seq<Found>)
    requires i < |vs| && ScanLines(vs, page, start, i) == Ok(found)
    ensures ScanLines(vs, page, start, i + 1) ==
              match vs[i]
              case Skip => Ok(found)
              case Fails => Err(IndexError(page + 1, i))
              case Heading(level, text) => Ok(Admit(found, Found(Entry(level, text, page + 1), i)))
  {
  }

  /** The verdicts on the lines of page `p` (numbered from 0). */
  function PageVerdicts(prof: Profile, pages: seq<seq<Word>>, p: nat): (r: seq<Verdict>)
    requires p < |pages|
  {
    var lines := GroupedLines(pages[p]);
    GroupedLinesNonEmpty(pages[p]);
    Verdicts(prof, lines, MeanGap(lines), |lines|)
  }

  /** The verdicts on the lines of each of the first `n` pages. */
  function DocVerdicts(prof: Profile, pages: seq<seq<Word>>, n: nat): (vss: seq<seq<Verdict>>)
    requires n <= |pages|
    ensures |vss| == n
  {
    seq(n, p requires 0 <= p < n => PageVerdicts(prof, pages, p))
  }

  /** The heading pass over the first `n` pages, given the verdicts on every page's lines. */
  function ScanPages(vss: seq<seq<Verdict>>, n: nat): (r: Result<seq<Found>, Failure>)
    requires n <= |vss|
  {
    if n == 0 then Ok([])
    else match ScanPages(vss, n - 1)
      case Err(e) => Err(e)
      case Ok(found) => ScanLines(vss[n - 1], n - 1, found, |vss[n - 1]|)
  }

  /** One step of the heading pass over the pages. */
  lemma ScanPagesStep(vss: seq<seq<Verdict>>, n: nat, found: seq<Found>)
    requires n < |vss| && ScanPages(vss, n) == Ok(found)
    ensures ScanPages(vss, n + 1) == ScanLines(vss[n], n, found, |vss[n]|)
  {
  }

  /** The entries of a trace. */
  function Entries(found: seq<Found>): (es: seq<Entry>)
    ensures |es| == |found|
    ensures forall k :: 0 <= k < |found| ==> es[k] == found[k].entry
  {
    if |found| == 0 then [] else Entries(found[..|found| - 1]) + [found[|found| - 1].entry]
  }

  /** Admitting a found line extends the outline exactly when admission appends. */
  lemma EntriesAdmit(found: seq<Found>, f: Found)
    ensures var es := Entries(found);
            Entries(Admit(found, f)) ==
              if |es| == 0 || !Repeats(es[|es| - 1].text, f.entry.text) then es + [f.entry] else es
  {
    var r := Admit(found, f);
    if r == found + [f] {
      assert r[..|r| - 1] == found;
    }
  }

  /** `extract_outline` on a document given as its pages of words. */
  function Extract(pages: seq<seq<Word>>): (r: Result<Document, Failure>)
  {
    var sample := Sampled(pages);
    var sizes := PagesSizes(sample);
    if |sizes| == 0 then Ok(Document("", []))
    else
      var prof := MakeProfile(sizes, PagesColors(sample));
      match ScanPages(DocVerdicts(prof, pages, |pages|), |pages|)
      case Err(e) => Err(e)
      case Ok(found) => Ok(Document(Strip(DocumentTitle(pages, prof.potential)), Entries(found)))
  }

  /** Once the pass over a page has failed, it stays failed with the same error. */
  lemma {:induction false} ScanLinesErrStays(vs: seq<Verdict>, page: nat, start: seq<Found>, n: nat, m: nat)
    requires n <= m <= |vs|
    requires ScanLines(vs, page, start, n).Err?
    ensures ScanLines(vs, page, start, m) == ScanLines(vs, page, start, n)
  {
    if m > n {
      ScanLinesErrStays(vs, page, start, n, m - 1);
    }
  }

  /** Once the pass over the pages has failed, it stays failed with the same error. */
  lemma {:induction false} ScanPagesErrStays(vss: seq<seq<Verdict>>, n: nat, m: nat)
    requires n <= m <= |vss|
    requires ScanPages(vss, n).Err?
    ensures ScanPages(vss, m) == ScanPages(vss, n)
  {
    if m > n {
      ScanPagesErrStays(vss, n, m - 1);
    }
  }

  /** The loop of the heading pass over the lines of one page, with its duplicate check. */
  method HeadingPass(prof: Profile, lines: seq<Line>, avg: real, page: nat, start: seq<Entry>, ghost trace: seq<Found>)
    returns (r: Result<seq<Entry>, Failure>, ghost found: seq<Found>)
    requires NonEmptyLines(lines) && start == Entries(trace)
    ensures var vs := Verdicts(prof, lines, avg, |lines|);
            r.Err? ==> ScanLines(vs, page, trace, |lines|) == Err(r.error)
    ensures var vs := Verdicts(prof, lines, avg, |lines|);
            r.Ok? ==> ScanLines(vs, page, trace, |lines|) == Ok(found) && r.value == Entries(found)
  {
    ghost var vs := Verdicts(prof, lines, avg, |lines|);
    var outline := start;
    found := trace;
    for i := 0 to |lines|
      invariant ScanLines(vs, page, trace, i) == Ok(found)
      invariant outline == Entries(found)
    {
      var verdict := AssessLine(prof, lines, i, avg);
      ScanLinesStep(vs, page, trace, i, found);
      match verdict
      case Skip =>
      case Fails =>
        ScanLinesErrStays(vs, page, trace, i + 1, |lines|);
        return Err(IndexError(page + 1, i)), found;
      case Heading(level, text) =>
        var entry := Entry(level, text, page + 1);
        EntriesAdmit(found, Found(entry, i));
        if |outline| == 0 || !Repeats(outline[|outline| - 1].text, text) {
          outline := outline + [entry];
        }
        found := Admit(found, Found(entry, i));
    }
    return Ok(outline), found;
  }

  /**
   * `extract_outline`: sample sizes and colours from the first five pages,
   * derive the profile, find the title, then run the heading pass over
   * every page.
   */
  method ExtractOutline(pages: seq<seq<Word>>) returns (r: Result<Document, Failure>)
    ensures r == Extract(pages)
  {
    var sizes, colors := CollectSample(pages);
    if |sizes| == 0 {
      return Ok(Document("", []));
    }
    var prof := MakeProfile(sizes, colors);
    var title := FindTitle(pages, prof.potential);
    var outline: seq<Entry> := [];
    ghost var vss := DocVerdicts(prof, pages, |pages|);
    ghost var found: seq<Found> := [];
    var pageNum := 0;
    while pageNum < |pages|
      invariant pageNum <= |pages|
      invariant ScanPages(vss, pageNum) == Ok(found)
      invariant outline == Entries(found)
    {
      var lines := GroupLines(pages[pageNum]);
      GroupedLinesNonEmpty(pages[pageNum]);
      var avg := AverageGap(lines);
      assert vss[pageNum] == PageVerdicts(prof, pages, pageNum);
      assert vss[pageNum] == Verdicts(prof, lines, avg, |lines|);
      ScanPagesStep(vss, pageNum, found);
      var scanned;
      scanned, found := HeadingPass(prof, lines, avg, pageNum, outline, found);
      if scanned.Err? {
        ScanPagesErrStays(vss, pageNum + 1, |pages|);
        return Err(scanned.error);
      }
      outline := scanned.value;
      pageNum := pageNum + 1;
    }
    return Ok(Document(Strip(title), outline));
  }

  // ---------------------------------------------------------------
  // What the heading pass guarantees
  // ---------------------------------------------------------------

  /** `f` comes before line `line` of page `page` (numbered from 1). */
  predicate Precedes(f: Found, page: nat, line: nat) {
    f.entry.page < page || (f.entry.page == page && f.line < line)
  }

  /** `f` was read from page `page` (numbered from 0) at a line whose verdict accepts it with `f`'s level and text. */
  predicate AcceptedIn(vs: seq<Verdict>, page: nat, f: Found) {
    && f.entry.page == page + 1
    && f.line < |vs|
    && vs[f.line] == Heading(f.entry.level, f.entry.text)
  }

  /** `f` was read from a line of its page whose verdict accepts it with `f`'s level and text. */
  predicate Accepted(vss: seq<seq<Verdict>>, f: Found) {
    1 <= f.entry.page <= |vss| && AcceptedIn(vss[f.entry.page - 1], f.entry.page - 1, f)
  }

  /** Positions strictly increase in (page, line) order, and no entry repeats the one before it. */
  predicate Ordered(found: seq<Found>) {
    && (forall k :: 0 < k < |found| ==> Precedes(found[k - 1], found[k].entry.page, found[k].line))
    && (forall k :: 0 < k < |found| ==> !Repeats(found[k - 1].entry.text, found[k].entry.text))
  }

  /** Every entry was accepted at its position, in order, without repeats. */
  predicate TraceValid(vss: seq<seq<Verdict>>, found: seq<Found>) {
    && (forall k :: 0 <= k < |found| ==> Accepted(vss, found[k]))
    && Ordered(found)
  }

  /** Admitting an entry after all others keeps the trace ordered and free of adjacent repeats. */
  lemma AdmitOrdered(found: seq<Found>, f: Found)
    requires Ordered(found) && forall k :: 0 <= k < |found| ==> Precedes(found[k], f.entry.page, f.line)
    ensures Ordered(Admit(found, f))
  {
    var r := Admit(found, f);
    if r == found + [f] {
      assert forall k :: 0 <= k < |found| ==> r[k] == found[k];
      assert |found| > 0 ==> r[|found| - 1] == found[|found| - 1];
    }
  }

  /**
   * The pass over one page keeps the entries before it and appends, in
   * order and without repeats, entries accepted on that page.
   */
  lemma {:induction false} ScanLinesExtends(vs: seq<Verdict>, p: nat, start: seq<Found>, n: nat)
    requires n <= |vs|
    requires Ordered(start) && forall k :: 0 <= k < |start| ==> start[k].entry.page <= p
    ensures ScanLines(vs, p, start, n).Ok? ==>
              var found := ScanLines(vs, p, start, n).value;
              && |start| <= |found| && found[..|start|] == start
              && Ordered(found)
              && (forall k :: 0 <= k < |found| ==> Precedes(found[k], p + 1, n))
              && (forall k :: |start| <= k < |found| ==> AcceptedIn(vs, p, found[k]))
  {
    if n > 0 {
      ScanLinesExtends(vs, p, start, n - 1);
      var prev := ScanLines(vs, p, start, n - 1);
      if prev.Ok? {
        var found := prev.value;
        match vs[n - 1]
        case Skip =>
        case Fails =>
        case Heading(level, text) =>
          var f := Found(Entry(level, text, p + 1), n - 1);
          AdmitOrdered(found, f);
          var r := Admit(found, f);
          if r == found + [f] {
            assert r[..|start|] == found[..|start|];
          }
      }
    }
  }

  /** The pass over page `n - 1` extends a valid trace of the earlier pages to a valid trace. */
  lemma PageStepValid(vss: seq<seq<Verdict>>, n: nat, start: seq<Found>)
    requires 0 < n <= |vss|
    requires TraceValid(vss, start) && forall k :: 0 <= k < |start| ==> start[k].entry.page < n
    ensures var r := ScanLines(vss[n - 1], n - 1, start, |vss[n - 1]|);
            r.Ok? ==> TraceValid(vss, r.value) && forall k :: 0 <= k < |r.value| ==> r.value[k].entry.page <= n
  {
    var vs := vss[n - 1];
    ScanLinesExtends(vs, n - 1, start, |vs|);
    var r := ScanLines(vs, n - 1, start, |vs|);
    if r.Ok? {
      var found := r.value;
      forall k | 0 <= k < |found| ensures Accepted(vss, found[k]) {
        if k < |start| {
          assert found[k] == start[k];
        }
      }
      forall k | 0 <= k < |found| ensures found[k].entry.page <= n {
        assert Precedes(found[k], n, |vs|);
      }
    }
  }

  /** The trace of the pass over the first `n` pages is valid and lies on those pages. */
  lemma {:induction false} ScanPagesValid(vss: seq<seq<Verdict>>, n: nat)
    requires n <= |vss|
    ensures ScanPages(vss, n).Ok? ==>
              var found := ScanPages(vss, n).value;
              TraceValid(vss, found) && forall k :: 0 <= k < |found| ==> found[k].entry.page <= n
  {
    if n > 0 {
      ScanPagesValid(vss, n - 1);
      var prev := ScanPages(vss, n - 1);
      if prev.Ok? {
        PageStepValid(vss, n, prev.value);
      }
    }
  }

  /** `found[k]` is the last entry of `found` that comes before line `line` of page `page` (numbered from 1). */
  predicate LastBefore(found: seq<Found>, k: nat, page: nat, line: nat) {
    && k < |found|
    && Precedes(found[k], page, line)
    && (k + 1 == |found| || !Precedes(found[k + 1], page, line))
  }

  /**
   * Line `line` of page `p` (numbered from 0), accepted with `level` and
   * `text`, is in `found`, or `text` repeats the entry last admitted before it.
   */
  predicate Covered(found: seq<Found>, p: nat, line: nat, level: Level, text: string) {
    || (exists k :: 0 <= k < |found| && found[k] == Found(Entry(level, text, p + 1), line))
    || (exists k :: 0 <= k < |found| && LastBefore(found, k, p + 1, line) && Repeats(found[k].entry.text, text))
  }

  /** Every accepted line among the first `n` lines of page `p` is covered by `found`. */
  predicate PageCovered(vs: seq<Verdict>, p: nat, n: nat, found: seq<Found>)
    requires n <= |vs|
  {
    forall i :: 0 <= i < n && vs[i].Heading? ==> Covered(found, p, i, vs[i].level, vs[i].text)
  }

  /** Every accepted line of every page is covered by `found`. */
  predicate DocCovered(vss: seq<seq<Verdict>>, found: seq<Found>) {
    forall p :: 0 <= p < |vss| ==> PageCovered(vss[p], p, |vss[p]|, found)
  }

  /** Appending entries that all come after a line keeps that line covered. */
  lemma CoveredExtends(found: seq<Found>, ext: seq<Found>, p: nat, line: nat, level: Level, text: string)
    requires Covered(found, p, line, level, text)
    requires |found| <= |ext| && ext[..|found|] == found
    requires forall k :: |found| <= k < |ext| ==> !Precedes(ext[k], p + 1, line)
    ensures Covered(ext, p, line, level, text)
  {
    if exists k :: 0 <= k < |found| && found[k] == Found(Entry(level, text, p + 1), line) {
      var k :| 0 <= k < |found| && found[k] == Found(Entry(level, text, p + 1), line);
      assert ext[k] == found[k];
    } else {
      var k :| 0 <= k < |found| && LastBefore(found, k, p + 1, line) && Repeats(found[k].entry.text, text);
      assert ext[k] == found[k];
      if k + 1 < |found| {
        assert ext[k + 1] == found[k + 1];
      }
      assert LastBefore(ext, k, p + 1, line);
    }
  }

  /**
   * The pass over the first `n` lines of page `p` admits every accepted
   * line, except one whose text repeats the entry admitted just before it.
   */
  lemma {:induction false} ScanLinesComplete(vs: seq<Verdict>, p: nat, start: seq<Found>, n: nat)
    requires n <= |vs|
    requires Ordered(start) && forall k :: 0 <= k < |start| ==> start[k].entry.page <= p
    ensures ScanLines(vs, p, start, n).Ok? ==> PageCovered(vs, p, n, ScanLines(vs, p, start, n).value)
  {
    if n > 0 && ScanLines(vs, p, start, n).Ok? {
      ScanLinesComplete(vs, p, start, n - 1);
      ScanLinesExtends(vs, p, start, n - 1);
      var found := ScanLines(vs, p, start, n - 1).value;
      var r := ScanLines(vs, p, start, n).value;
      assert r == found || (vs[n - 1].Heading? && r == found + [Found(Entry(vs[n - 1].level, vs[n - 1].text, p + 1), n - 1)]);
      forall i | 0 <= i < n && vs[i].Heading? ensures Covered(r, p, i, vs[i].level, vs[i].text) {
        if i < n - 1 {
          assert r[..|found|] == found;
          CoveredExtends(found, r, p, i, vs[i].level, vs[i].text);
        } else if r == found {
          var k := |found| - 1;
          assert LastBefore(found, k, p + 1, i) && Repeats(found[k].entry.text, vs[i].text);
        } else {
          assert r[|found|] == Found(Entry(vs[i].level, vs[i].text, p + 1), i);
        }
      }
    }
  }

  /** Entries appended on page `n` (numbered from 1) keep the earlier pages covered. */
  lemma PagesCoveredExtend(vss: seq<seq<Verdict>>, n: nat, start: seq<Found>, found: seq<Found>)
    requires n <= |vss|
    requires forall q :: 0 <= q < n - 1 ==> PageCovered(vss[q], q, |vss[q]|, start)
    requires |start| <= |found| && found[..|start|] == start
    requires forall k :: |start| <= k < |found| ==> found[k].entry.page == n
    ensures forall q :: 0 <= q < n - 1 ==> PageCovered(vss[q], q, |vss[q]|, found)
  {
    forall q, i | 0 <= q < n - 1 && 0 <= i < |vss[q]| && vss[q][i].Heading?
      ensures Covered(found, q, i, vss[q][i].level, vss[q][i].text)
    {
      CoveredExtends(start, found, q, i, vss[q][i].level, vss[q][i].text);
    }
  }

  /** The pass over page `n - 1` extends a trace covering the earlier pages to one covering page `n - 1` too. */
  lemma PageStepComplete(vss: seq<seq<Verdict>>, n: nat, start: seq<Found>)
    requires 0 < n <= |vss|
    requires Ordered(start) && forall k :: 0 <= k < |start| ==> start[k].entry.page <= n - 1
    requires forall q :: 0 <= q < n - 1 ==> PageCovered(vss[q], q, |vss[q]|, start)
    ensures var r := ScanLines(vss[n - 1], n - 1, start, |vss[n - 1]|);
            r.Ok? ==> forall q :: 0 <= q < n ==> PageCovered(vss[q], q, |vss[q]|, r.value)
  {
    var vs := vss[n - 1];
    ScanLinesExtends(vs, n - 1, start, |vs|);
    ScanLinesComplete(vs, n - 1, start, |vs|);
    var r := ScanLines(vs, n - 1, start, |vs|);
    if r.Ok? {
      var found := r.value;
      forall k | |start| <= k < |found| ensures found[k].entry.page == n {
        assert AcceptedIn(vs, n - 1, found[k]);
      }
      PagesCoveredExtend(vss, n, start, found);
      forall q | 0 <= q < n ensures PageCovered(vss[q], q, |vss[q]|, found) {
        if q == n - 1 {
          assert PageCovered(vs, n - 1, |vs|, found);
        }
      }
    }
  }

  /** The pass over the first `n` pages covers every accepted line of those pages. */
  lemma {:induction false} ScanPagesComplete(vss: seq<seq<Verdict>>, n: nat)
    requires n <= |vss|
    ensures ScanPages(vss, n).Ok? ==>
              forall q :: 0 <= q < n ==> PageCovered(vss[q], q, |vss[q]|, ScanPages(vss, n).value)
  {
    if n > 0 && ScanPages(vss, n).Ok? {
      ScanPagesComplete(vss, n - 1);
      ScanPagesValid(vss, n - 1);
      PageStepComplete(vss, n, ScanPages(vss, n - 1).value);
    }
  }

  /** An accepted entry's line, among its page's grouped lines, is accepted by `Assess` with the entry's level and text. */
  lemma AcceptedMeaning(prof: Profile, pages: seq<seq<Word>>, f: Found)
    requires Accepted(DocVerdicts(prof, pages, |pages|), f)
    ensures var lines := GroupedLines(pages[f.entry.page - 1]);
            && NonEmptyLines(lines)
            && f.line < |lines|
            && Assess(prof, lines, f.line, MeanGap(lines)) == Heading(f.entry.level, f.entry.text)
  {
    var p := f.entry.page - 1;
    var lines := GroupedLines(pages[p]);
    GroupedLinesNonEmpty(pages[p]);
    var vs := Verdicts(prof, lines, MeanGap(lines), |lines|);
    assert DocVerdicts(prof, pages, |pages|)[p] == vs;
    assert AcceptedIn(vs, p, f);
  }

  // ---------------------------------------------------------------
  // When the heading pass fails
  // ---------------------------------------------------------------

  /** The pass over a page fails exactly when one of its lines' verdicts is a failure. */
  lemma {:induction false} ScanLinesFails(vs: seq<Verdict>, page: nat, start: seq<Found>, n: nat)
    requires n <= |vs|
    ensures ScanLines(vs, page, start, n).Err? <==> exists i :: 0 <= i < n && vs[i] == Fails
  {
    if n > 0 {
      ScanLinesFails(vs, page, start, n - 1);
      if vs[n - 1] == Fails {
        assert exists i :: 0 <= i < n && vs[i] == Fails;
      }
      if exists i :: 0 <= i < n && vs[i] == Fails {
        var i :| 0 <= i < n && vs[i] == Fails;
        if i < n - 1 {
          assert exists j :: 0 <= j < n - 1 && vs[j] == Fails;
        }
      }
    }
  }

  /** The pass over the pages fails exactly when some line of some page has a failing verdict. */
  lemma {:induction false} ScanPagesFails(vss: seq<seq<Verdict>>, n: nat)
    requires n <= |vss|
    ensures ScanPages(vss, n).Err? <==> exists p, i :: 0 <= p < n && 0 <= i < |vss[p]| && vss[p][i] == Fails
  {
    if n > 0 {
      ScanPagesFails(vss, n - 1);
      var prev := ScanPages(vss, n - 1);
      if prev.Ok? {
        ScanLinesFails(vss[n - 1], n - 1, prev.value, |vss[n - 1]|);
      }
      if exists p, i :: 0 <= p < n && 0 <= i < |vss[p]| && vss[p][i] == Fails {
        var p, i :| 0 <= p < n && 0 <= i < |vss[p]| && vss[p][i] == Fails;
        if p < n - 1 {
          assert exists q, j :: 0 <= q < n - 1 && 0 <= j < |vss[q]| && vss[q][j] == Fails;
        }
      }
      if ScanPages(vss, n).Err? && prev.Err? {
        var p, i :| 0 <= p < n - 1 && 0 <= i < |vss[p]| && vss[p][i] == Fails;
        assert 0 <= p < n && 0 <= i < |vss[p]| && vss[p][i] == Fails;
      }
      if ScanPages(vss, n).Err? && prev.Ok? {
        var i :| 0 <= i < |vss[n - 1]| && vss[n - 1][i] == Fails;
        assert 0 <= n - 1 < n && 0 <= i < |vss[n - 1]| && vss[n - 1][i] == Fails;
      }
    }
  }

  /** Line `i` of page `p` (numbered from 0) makes the level choice raise `IndexError`. */
  ghost predicate FailsAt(prof: Profile, pages: seq<seq<Word>>, p: nat, i: nat) {
    && p < |pages|
    && var lines := GroupedLines(pages[p]);
    && NonEmptyLines(lines)
    && i < |lines|
    && Assess(prof, lines, i, MeanGap(lines)) == Fails
  }

  lemma FailsAtMeaning(prof: Profile, pages: seq<seq<Word>>, p: nat, i: nat)
    requires p < |pages|
    ensures var vss := DocVerdicts(prof, pages, |pages|);
            FailsAt(prof, pages, p, i) <==> i < |vss[p]| && vss[p][i] == Fails
  {
    var lines := GroupedLines(pages[p]);
    GroupedLinesNonEmpty(pages[p]);
    var vs := Verdicts(prof, lines, MeanGap(lines), |lines|);
    assert DocVerdicts(prof, pages, |pages|)[p] == vs;
    if i < |lines| {
    }
  }

  /** The profile of a document with a non-empty size sample. */
  function DocProfile(pages: seq<seq<Word>>): (r: Profile)
    requires |PagesSizes(Sampled(pages))| > 0
  {
    MakeProfile(PagesSizes(Sampled(pages)), PagesColors(Sampled(pages)))
  }

  /**
   * `extract_outline` raises `IndexError` exactly when some page was
   * sampled for sizes and some line of some page fails the level choice.
   */
  lemma ExtractFails(pages: seq<seq<Word>>)
    ensures Extract(pages).Err? <==>
              |PagesSizes(Sampled(pages))| > 0 && exists p, i :: FailsAt(DocProfile(pages), pages, p, i)
  {
    if |PagesSizes(Sampled(pages))| > 0 {
      var prof := DocProfile(pages);
      var vss := DocVerdicts(prof, pages, |pages|);
      ScanPagesFails(vss, |pages|);
      if exists p, i :: FailsAt(prof, pages, p, i) {
        var p, i :| FailsAt(prof, pages, p, i);
        FailsAtMeaning(prof, pages, p, i);
      }
      if Extract(pages).Err? {
        var p, i :| 0 <= p < |pages| && 0 <= i < |vss[p]| && vss[p][i] == Fails;
        FailsAtMeaning(prof, pages, p, i);
      }
    }
  }

  /**
   * The failure can only come from a page beyond the sample: on the first
   * five pages a line larger than the body size has a sampled size, so there
   * is a heading size to compare it with.
   */
  lemma SampledPagesNeverFail(pages: seq<seq<Word>>, p: nat, i: nat)
    requires |PagesSizes(Sampled(pages))| > 0 && p < SamplePages
    ensures !FailsAt(DocProfile(pages), pages, p, i)
  {
    if p < |pages| {
      var lines := GroupedLines(pages[p]);
      GroupedLinesNonEmpty(pages[p]);
      if i < |lines| {
        FirstWordSampled(pages, p, i);
        var sample := Sampled(pages);
        SampledLineNeverFails(PagesSizes(sample), PagesColors(sample), lines, i, MeanGap(lines));
      }
    }
  }

  /** The size of the first word of a line on a sampled page is in the size sample. */
  lemma FirstWordSampled(pages: seq<seq<Word>>, p: nat, i: nat)
    requires p < |pages| && p < SamplePages
    requires i < |GroupedLines(pages[p])| && |GroupedLines(pages[p])[i]| > 0
    ensures var w := GroupedLines(pages[p])[i][0];
            w.size.Some? ==> w.size.value in PagesSizes(Sampled(pages))
  {
    var w := GroupedLines(pages[p])[i][0];
    if w.size.Some? {
      LineWordIsInput(pages[p], i, w);
      var sample := Sampled(pages);
      assert sample[p] == pages[p];
      PagesSizesMeaning(sample, w.size.value);
    }
  }

  /** A line whose first word's size, if any, was sampled never fails the level choice. */
  lemma SampledLineNeverFails(sizes: seq<real>, colors: seq<seq<real>>, lines: seq<Line>, i: nat, avg: real)
    requires |sizes| > 0 && NonEmptyLines(lines) && i < |lines|
    requires lines[i][0].size.Some? ==> lines[i][0].size.value in sizes
    ensures Assess(MakeProfile(sizes, colors), lines, i, avg) != Fails
  {
    var prof := MakeProfile(sizes, colors);
    AssessFails(prof, lines, i, avg);
    var size := SignalsOf(prof, lines, i).size;
    if size > prof.body {
      assert lines[i][0].size == Some(size);
      SampledSizeHasHeading(sizes, colors, size);
    }
  }

  /** A sampled size above the body size guarantees at least one heading size. */
  lemma SampledSizeHasHeading(sizes: seq<real>, colors: seq<seq<real>>, x: real)
    requires |sizes| > 0 && x in sizes && x > MakeProfile(sizes, colors).body
    ensures |MakeProfile(sizes, colors).headings| > 0
  {
    HeadingSizesBounds(sizes, MakeProfile(sizes, colors).body);
  }

  /** A document of at most five pages never raises `IndexError`. */
  lemma ShortDocumentsSucceed(pages: seq<seq<Word>>)
    requires |pages| <= SamplePages
    ensures Extract(pages).Ok?
  {
    ExtractFails(pages);
    if |PagesSizes(Sampled(pages))| > 0 {
      forall p: nat, i: nat ensures !FailsAt(DocProfile(pages), pages, p, i) {
        if p < SamplePages {
          SampledPagesNeverFail(pages, p, i);
        }
      }
    }
  }

  /**
   * Every outline entry comes from a line of its page with the entry's
   * text, 3 to 100 characters long, a score of at least 4 (doubled: 8), and
   * the level chosen for its size; entries strictly follow (page, line)
   * order and none repeats the one before it.
   */
  lemma ExtractTrace(pages: seq<seq<Word>>)
    requires Extract(pages).Ok? && |PagesSizes(Sampled(pages))| > 0
    ensures var outline := Extract(pages).value.outline;
            exists found :: Entries(found) == outline && TraceValid(DocVerdicts(DocProfile(pages), pages, |pages|), found)
  {
    var vss := DocVerdicts(DocProfile(pages), pages, |pages|);
    ScanPagesValid(vss, |pages|);
    var found := ScanPages(vss, |pages|).value;
    assert Entries(found) == Extract(pages).value.outline;
  }

  /** Line `i` of `lines` is accepted with entry `e`'s text and level. */
  predicate AcceptedLine(prof: Profile, lines: seq<Line>, i: nat, e: Entry)
    requires NonEmptyLines(lines) && i < |lines|
  {
    var s := SignalsOf(prof, lines, i);
    && e.text == s.text
    && MinTextLength <= |s.text| <= MaxTextLength
    && Score(prof, s, MeanGap(lines)) >= Threshold
    && LevelFor(prof, s.size, s.bold) == Some(e.level)
  }

  /** Entry `e` is the reading of an accepted line of its page. */
  ghost predicate EntryOnPage(prof: Profile, pages: seq<seq<Word>>, e: Entry) {
    && 1 <= e.page <= |pages|
    && var lines := GroupedLines(pages[e.page - 1]);
    && NonEmptyLines(lines)
    && exists i :: 0 <= i < |lines| && AcceptedLine(prof, lines, i, e)
  }

  /** An entry of a valid trace, read back as a line of its page. */
  lemma FoundAccepted(prof: Profile, pages: seq<seq<Word>>, f: Found)
    requires Accepted(DocVerdicts(prof, pages, |pages|), f)
    ensures EntryOnPage(prof, pages, f.entry)
  {
    AcceptedMeaning(prof, pages, f);
    var lines := GroupedLines(pages[f.entry.page - 1]);
    AssessMeaning(prof, lines, f.line, MeanGap(lines), f.entry.level);
    assert AcceptedLine(prof, lines, f.line, f.entry);
  }

  /**
   * Every outline entry is the reading of a line of its page: the entry's
   * text, 3 to 100 characters long, a score of at least 4 (doubled: 8), and
   * the level chosen for its size.
   */
  lemma ExtractEntry(pages: seq<seq<Word>>, k: nat)
    requires Extract(pages).Ok? && k < |Extract(pages).value.outline|
    ensures |PagesSizes(Sampled(pages))| > 0
    ensures EntryOnPage(DocProfile(pages), pages, Extract(pages).value.outline[k])
  {
    ExtractTrace(pages);
    var vss := DocVerdicts(DocProfile(pages), pages, |pages|);
    var found: seq<Found> :| Entries(found) == Extract(pages).value.outline && TraceValid(vss, found);
    assert Accepted(vss, found[k]);
    FoundAccepted(DocProfile(pages), pages, found[k]);
    assert Extract(pages).value.outline[k] == found[k].entry;
  }

  /** Entries are in non-decreasing page order and none repeats the one before it. */
  predicate InOrder(outline: seq<Entry>) {
    forall k :: 0 < k < |outline| ==>
      outline[k - 1].page <= outline[k].page && !Repeats(outline[k - 1].text, outline[k].text)
  }

  lemma EntriesOrdered(found: seq<Found>)
    requires Ordered(found)
    ensures InOrder(Entries(found))
  {
    forall k | 0 < k < |found| ensures found[k - 1].entry.page <= found[k].entry.page {
      assert Precedes(found[k - 1], found[k].entry.page, found[k].line);
    }
  }

  /** The outline is in page order and no entry repeats the one before it. */
  lemma ExtractOrdered(pages: seq<seq<Word>>)
    requires Extract(pages).Ok?
    ensures InOrder(Extract(pages).value.outline)
  {
    if |PagesSizes(Sampled(pages))| > 0 {
      ExtractTrace(pages);
      var vss := DocVerdicts(DocProfile(pages), pages, |pages|);
      var found: seq<Found> :| Entries(found) == Extract(pages).value.outline && TraceValid(vss, found);
      EntriesOrdered(found);
    }
  }

  /** The outline is the trace of the heading pass over all pages. */
  lemma ExtractIsTrace(pages: seq<seq<Word>>)
    requires Extract(pages).Ok? && |PagesSizes(Sampled(pages))| > 0
    ensures var vss := DocVerdicts(DocProfile(pages), pages, |pages|);
            ScanPages(vss, |pages|).Ok? && Entries(ScanPages(vss, |pages|).value) == Extract(pages).value.outline
  {
  }

  /** An accepted line's verdict in the document's verdicts. */
  lemma LineVerdict(prof: Profile, pages: seq<seq<Word>>, p: nat, i: nat, e: Entry)
    requires p < |pages|
    requires var lines := GroupedLines(pages[p]);
             NonEmptyLines(lines) && i < |lines| && AcceptedLine(prof, lines, i, e)
    ensures var vss := DocVerdicts(prof, pages, |pages|);
            i < |vss[p]| && vss[p][i] == Heading(e.level, e.text)
  {
    var lines := GroupedLines(pages[p]);
    AssessMeaning(prof, lines, i, MeanGap(lines), e.level);
    assert DocVerdicts(prof, pages, |pages|)[p] == Verdicts(prof, lines, MeanGap(lines), |lines|);
  }

  /** The trace of a successful pass over all pages is valid and covers every accepted line. */
  lemma ScanComplete(vss: seq<seq<Verdict>>)
    ensures ScanPages(vss, |vss|).Ok? ==>
              TraceValid(vss, ScanPages(vss, |vss|).value) && DocCovered(vss, ScanPages(vss, |vss|).value)
  {
    ScanPagesValid(vss, |vss|);
    ScanPagesComplete(vss, |vss|);
  }

  /**
   * Every accepted line of every page is in the outline, unless its text
   * repeats the entry admitted just before it: the entries come from a
   * valid trace that covers each such line.
   */
  lemma ExtractComplete(pages: seq<seq<Word>>, p: nat, i: nat, e: Entry)
    requires Extract(pages).Ok? && |PagesSizes(Sampled(pages))| > 0 && p < |pages|
    ensures var lines := GroupedLines(pages[p]);
            NonEmptyLines(lines) && i < |lines| && e.page == p + 1 && AcceptedLine(DocProfile(pages), lines, i, e) ==>
              exists found ::
                && Entries(found) == Extract(pages).value.outline
                && TraceValid(DocVerdicts(DocProfile(pages), pages, |pages|), found)
                && Covered(found, p, i, e.level, e.text)
  {
    var prof := DocProfile(pages);
    var lines := GroupedLines(pages[p]);
    if NonEmptyLines(lines) && i < |lines| && e.page == p + 1 && AcceptedLine(prof, lines, i, e) {
      var vss := DocVerdicts(prof, pages, |pages|);
      ExtractIsTrace(pages);
      ScanComplete(vss);
      LineVerdict(prof, pages, p, i, e);
      var found := ScanPages(vss, |pages|).value;
      assert PageCovered(vss[p], p, |vss[p]|, found);
    }
  }

  /** Every accepted line's entry, or an entry its text repeats, is in the outline. */
  lemma ExtractCovers(pages: seq<seq<Word>>, p: nat, i: nat, e: Entry)
    requires Extract(pages).Ok? && |PagesSizes(Sampled(pages))| > 0 && p < |pages|
    ensures var lines := GroupedLines(pages[p]);
            var outline := Extract(pages).value.outline;
            NonEmptyLines(lines) && i < |lines| && e.page == p + 1 && AcceptedLine(DocProfile(pages), lines, i, e) ==>
              e in outline || exists k :: 0 <= k < |outline| && outline[k].page <= e.page && Repeats(outline[k].text, e.text)
  {
    ExtractComplete(pages, p, i, e);
    var lines := GroupedLines(pages[p]);
    if NonEmptyLines(lines) && i < |lines| && e.page == p + 1 && AcceptedLine(DocProfile(pages), lines, i, e) {
      var outline := Extract(pages).value.outline;
      var found: seq<Found> :| Entries(found) == outline && Covered(found, p, i, e.level, e.text);
      CoveredEntry(found, p, i, e);
    }
  }

  /** A covered line's entry, or an earlier entry its text repeats, is among the trace's entries. */
  lemma CoveredEntry(found: seq<Found>, p: nat, i: nat, e: Entry)
    requires e.page == p + 1 && Covered(found, p, i, e.level, e.text)
    ensures var es := Entries(found);
            e in es || exists k :: 0 <= k < |es| && es[k].page <= e.page && Repeats(es[k].text, e.text)
  {
    var es := Entries(found);
    if exists k :: 0 <= k < |found| && found[k] == Found(Entry(e.level, e.text, p + 1), i) {
      var k :| 0 <= k < |found| && found[k] == Found(Entry(e.level, e.text, p + 1), i);
      assert es[k] == e;
    } else {
      var k :| 0 <= k < |found| && LastBefore(found, k, p + 1, i) && Repeats(found[k].entry.text, e.text);
      assert es[k] == found[k].entry;
    }
  }

  /**
   * With no sized word on the first five pages the result is an empty
   * title and outline. Otherwise a non-empty title is the text of the first
   * line passing the title test on one of the first two pages, every
   * earlier page offering no title.
   */
  lemma ExtractTitle(pages: seq<seq<Word>>)
    requires Extract(pages).Ok?
    ensures PagesSizes(Sampled(pages)) == [] ==> Extract(pages).value == Document("", [])
    ensures |PagesSizes(Sampled(pages))| > 0 ==>
              var potential := DocProfile(pages).potential;
              var t := Extract(pages).value.title;
              t != "" ==>
                && |potential| > 0
                && exists p, k :: 0 <= p < TitlePages && p < |pages|
                     && (forall q :: 0 <= q < p ==> TitleOnPage(GroupedLines(pages[q]), potential) == "")
                     && var lines := GroupedLines(pages[p]);
                     && 0 <= k < |lines| && TitleLine(lines[k], potential[0]) && t == LineText(lines[k])
                     && forall j :: 0 <= j < k ==> !TitleLine(lines[j], potential[0])
  {
    if |PagesSizes(Sampled(pages))| > 0 {
      var potential := DocProfile(pages).potential;
      ExtractTitleIs(pages);
      DocumentTitleStripped(pages, potential);
      TitleSound(pages, potential);
    }
  }

  /** A page among the first two that offers a title after pages offering none gives the title. */
  lemma ExtractTitleFound(pages: seq<seq<Word>>, p: nat)
    requires Extract(pages).Ok?
    ensures |PagesSizes(Sampled(pages))| > 0 && p < TitlePages && p < |pages| ==>
              var potential := DocProfile(pages).potential;
              (forall q :: 0 <= q < p ==> TitleOnPage(GroupedLines(pages[q]), potential) == "")
              && TitleOnPage(GroupedLines(pages[p]), potential) != ""
              ==> Extract(pages).value.title == TitleOnPage(GroupedLines(pages[p]), potential)
  {
    if |PagesSizes(Sampled(pages))| > 0 {
      var potential := DocProfile(pages).potential;
      ExtractTitleIs(pages);
      DocumentTitleStripped(pages, potential);
      TitleComplete(pages, potential, p);
    }
  }

  /** A successful extraction with sized words returns the stripped document title. */
  lemma ExtractTitleIs(pages: seq<seq<Word>>)
    requires Extract(pages).Ok? && |PagesSizes(Sampled(pages))| > 0
    ensures Extract(pages).value.title == Strip(DocumentTitle(pages, DocProfile(pages).potential))
  {
  }

  // ---------------------------------------------------------------
  // A document that raises IndexError
  // ---------------------------------------------------------------

  /** A size sample of one size, with no colours, has that size as body size and no heading size. */
  lemma OneSizeProfile(x: real)
    ensures var prof := MakeProfile([x], []);
            prof.body == x && prof.headings == [] && prof.levels == map[]
  {
    assert [x][..0] == [];
    assert LargerThan([x], x) == [];
    assert PotentialSizes([x], x) == [];
    ProfileParts([x], [], x, []);
  }

  /** An empty page adds no size and no colour to a sample. */
  lemma EmptyPageSamplesNothing(pages: seq<seq<Word>>)
    ensures PagesSizes(pages + [[]]) == PagesSizes(pages)
    ensures PagesColors(pages + [[]]) == PagesColors(pages)
  {
    assert (pages + [[]])[..|pages|] == pages;
  }

  /** A sample of one page holds that page's sizes and colours. */
  lemma SinglePageSample(page: seq<Word>)
    ensures PagesSizes([page]) == SizesOf(page)
    ensures PagesColors([page]) == ColorsOf(page)
  {
    assert [page][..0] == [];
  }

  /** The sizes and colours of the first `k` pages when the first holds one word and the others none. */
  lemma {:induction false} LeadingWordSample(w: Word, pages: seq<seq<Word>>, k: nat)
    requires w.size.Some? && w.color.None?
    requires 1 <= k <= |pages| && pages[0] == [w]
    requires forall p :: 1 <= p < k ==> pages[p] == []
    ensures PagesSizes(pages[..k]) == [w.size.value]
    ensures PagesColors(pages[..k]) == []
  {
    if k == 1 {
      assert pages[..1] == [[w]];
      SinglePageSample([w]);
      assert [w][..0] == [];
    } else {
      LeadingWordSample(w, pages, k - 1);
      assert pages[..k] == pages[..k - 1] + [[]];
      EmptyPageSamplesNothing(pages[..k - 1]);
    }
  }

  /** The sizes and colours sampled from a first page of one word and four empty pages. */
  lemma FirstPageSample(w: Word, pages: seq<seq<Word>>)
    requires w.size.Some? && w.color.None?
    requires |pages| > SamplePages && pages[0] == [w]
    requires forall p :: 1 <= p < SamplePages ==> pages[p] == []
    ensures PagesSizes(Sampled(pages)) == [w.size.value]
    ensures PagesColors(Sampled(pages)) == []
  {
    LeadingWordSample(w, pages, SamplePages);
  }

  /** The text of a line holding only a word with text "HEADING". */
  lemma HeadingWordText(w: Word)
    requires w.text == "HEADING"
    ensures LineText([w]) == "HEADING"
  {
    assert Texts([w]) == ["HEADING"] by { assert [w][..0] == []; }
    var t := "HEADING";
    assert LeadingSpace(t) == 0 && TrailingSpace(t) == 0;
    assert t[0..][..|t| - 0] == t;
  }

  /** A word in the font "Arial-Bold" is bold. */
  lemma ArialBoldIsBold(w: Word)
    requires w.fontname == "Arial-Bold"
    ensures IsBold(w)
  {
    var f := Lower(w.fontname);
    LowerAt(w.fontname);
    assert f[6..10] == "bold";
    assert OccursAt(f, "bold", 6);
  }

  /** "HEADING" is short and all capitals. */
  lemma HeadingCasing()
    ensures CasingBonus("HEADING") == 3
  {
    assert IsUpperChar("HEADING"[0]);
  }

  /**
   * A line whose level choice has no heading size to compare with: a bold,
   * capitalised, short line larger than the body size, near the left margin,
   * under a profile with no heading size.
   */
  lemma LargeBoldLineFails(prof: Profile, lines: seq<Line>, i: nat, avg: real)
    requires NonEmptyLines(lines) && i < |lines|
    requires prof.headings == [] && prof.levels == map[]
    requires var s := SignalsOf(prof, lines, i);
             && s.size > prof.body && s.bold && s.indent < IndentLimit
             && CasingBonus(s.text) == 3 && MinTextLength <= |s.text| <= MaxTextLength
             && s.wordCount <= BriefWords
    ensures Assess(prof, lines, i, avg) == Fails
  {
    var s := SignalsOf(prof, lines, i);
    assert BaseScore(prof, s, avg) >= 9;
  }

  /** The same for a page whose only line is the single word `h`. */
  lemma SingleWordLineFails(prof: Profile, h: Word, avg: real)
    requires prof.headings == [] && prof.levels == map[]
    requires h.size.Some? && h.size.value > prof.body && IsBold(h) && h.x0 < IndentLimit
    requires CasingBonus(LineText([h])) == 3 && MinTextLength <= |LineText([h])| <= MaxTextLength
    ensures Assess(prof, [[h]], 0, avg) == Fails
  {
    LargeBoldLineFails(prof, [[h]], 0, avg);
  }

  /**
   * A sized body word on the first page and a bold, capitalised word of a
   * larger size alone on the sixth page: the sample holds only the body
   * size, so there is no heading size, and the sixth page's line raises
   * `IndexError`.
   */
  lemma SixthPageFails(doc: seq<seq<Word>>)
    requires doc == [[Word("body", 100.0, 110.0, 100.0, Some(10.0), "Times-Roman", None)], [], [], [], [],
                     [Word("HEADING", 100.0, 120.0, 10.0, Some(20.0), "Arial-Bold", None)]]
    ensures Extract(doc).Err?
  {
    OneWordSample(doc[0][0], doc);
    HeadingPageFails(DocProfile(doc), doc, doc[5][0]);
    PageFailure(doc, 5, 0);
  }

  /** The single line of a sixth page holding only the heading word of `SixthPageFails` fails. */
  lemma HeadingPageFails(prof: Profile, doc: seq<seq<Word>>, heading: Word)
    requires prof.body == 10.0 && prof.headings == [] && prof.levels == map[]
    requires |doc| == 6 && doc[5] == [heading]
    requires heading == Word("HEADING", 100.0, 120.0, 10.0, Some(20.0), "Arial-Bold", None)
    ensures FailsAt(prof, doc, 5, 0)
  {
    OneWordPage(heading);
    HeadingWordText(heading);
    ArialBoldIsBold(heading);
    HeadingCasing();
    SingleWordLineFails(prof, heading, MeanGap([[heading]]));
  }

  /** The profile of a document whose sampled pages hold one sized, colourless word on the first page. */
  lemma OneWordSample(w: Word, pages: seq<seq<Word>>)
    requires w.size.Some? && w.color.None?
    requires |pages| > SamplePages && pages[0] == [w]
    requires forall p :: 1 <= p < SamplePages ==> pages[p] == []
    ensures |PagesSizes(Sampled(pages))| > 0
    ensures var prof := DocProfile(pages);
            prof.body == w.size.value && prof.headings == [] && prof.levels == map[]
  {
    FirstPageSample(w, pages);
    OneSizeProfile(w.size.value);
  }

  /** A failing line on any page makes the whole extraction fail. */
  lemma PageFailure(pages: seq<seq<Word>>, p: nat, i: nat)
    requires |PagesSizes(Sampled(pages))| > 0 && FailsAt(DocProfile(pages), pages, p, i)
    ensures Extract(pages).Err?
  {
    ExtractFails(pages);
  }
}
