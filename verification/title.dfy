/**
 * Title detection: the first line on the first two pages whose first word
 * has the largest candidate heading size and whose text is short.
 */
module Title {
  import opened Wrappers
  import opened Text
  import opened Layout

  /** Number of leading pages searched for the title. */
  const TitlePages: nat := 2
  /** A title must be shorter than this many characters. */
  const TitleLengthLimit: nat := 100

  /** The test applied to each line: its first word has size `largest` and its text is under the limit. */
  predicate TitleLine(line: Line, largest: real) {
    |line| > 0 && line[0].size == Some(largest) && |LineText(line)| < TitleLengthLimit
  }

  /** Position of the first line passing the title test, `|lines|` if there is none. */
  function FirstTitleLine(lines: seq<Line>, largest: real): (k: nat)
    ensures k <= |lines|
    ensures k < |lines| ==> TitleLine(lines[k], largest)
  {
    if |lines| == 0 then 0
    else if TitleLine(lines[0], largest) then 0
    else 1 + FirstTitleLine(lines[1..], largest)
  }

  /** No line before the one `FirstTitleLine` finds passes the title test. */
  lemma {:induction false} FirstTitleLineIsFirst(lines: seq<Line>, largest: real)
    ensures forall j :: 0 <= j < FirstTitleLine(lines, largest) ==> !TitleLine(lines[j], largest)
  {
    if |lines| > 0 && !TitleLine(lines[0], largest) {
      FirstTitleLineIsFirst(lines[1..], largest);
      forall j | 1 <= j < FirstTitleLine(lines, largest) ensures !TitleLine(lines[j], largest) {
        assert lines[1..][j - 1] == lines[j];
      }
    }
  }

  /**
   * The title one page offers: the text of its first line passing the title
   * test, empty when no line passes or there are no candidate sizes.
   */
  function TitleOnPage(lines: seq<Line>, potential: seq<real>): (t: string)
    ensures |potential| == 0 ==> t == ""
  {
    if |potential| == 0 then ""
    else
      var k := FirstTitleLine(lines, potential[0]);
      if k < |lines| then LineText(lines[k]) else ""
  }

  /** The title each of the first two pages offers, in page order. */
  function PageTitles(pages: seq<seq<Word>>, potential: seq<real>): (ts: seq<string>)
    ensures |ts| == if |pages| < TitlePages then |pages| else TitlePages
  {
    var n := if |pages| < TitlePages then |pages| else TitlePages;
    seq(n, i requires 0 <= i < n => TitleOnPage(GroupedLines(pages[i]), potential))
  }

  /** The first non-empty string of `ts`, empty if there is none. */
  function FirstNonEmpty(ts: seq<string>): (t: string)
    ensures t == "" || t in ts
  {
    if |ts| == 0 then ""
    else if ts[0] != "" then ts[0]
    else FirstNonEmpty(ts[1..])
  }

  /** A non-empty result of `FirstNonEmpty` sits at an index with only empty strings before it. */
  lemma {:induction false} FirstNonEmptyIndex(ts: seq<string>) returns (i: nat)
    requires FirstNonEmpty(ts) != ""
    ensures i < |ts| && ts[i] == FirstNonEmpty(ts)
    ensures forall j :: 0 <= j < i ==> ts[j] == ""
  {
    if ts[0] != "" {
      i := 0;
    } else {
      var i' := FirstNonEmptyIndex(ts[1..]);
      i := i' + 1;
      forall j | 1 <= j < i ensures ts[j] == "" {
        assert ts[1..][j - 1] == ts[j];
      }
    }
  }

  /** When every string before position `p` is empty and `ts[p]` is not, `ts[p]` is the first non-empty one. */
  lemma {:induction false} FirstNonEmptyAt(ts: seq<string>, p: nat)
    requires p < |ts| && ts[p] != ""
    requires forall q :: 0 <= q < p ==> ts[q] == ""
    ensures FirstNonEmpty(ts) == ts[p]
  {
    if p > 0 {
      assert ts[1..][p - 1] == ts[p];
      forall q | 0 <= q < p - 1 ensures ts[1..][q] == "" {
        assert ts[1..][q] == ts[q + 1];
      }
      FirstNonEmptyAt(ts[1..], p - 1);
    }
  }

  /** A sequence of empty strings has no non-empty first element. */
  lemma {:induction false} FirstNonEmptyNone(ts: seq<string>)
    requires forall i :: 0 <= i < |ts| ==> ts[i] == ""
    ensures FirstNonEmpty(ts) == ""
  {
    if |ts| > 0 {
      assert forall i :: 0 <= i < |ts[1..]| ==> ts[1..][i] == ts[i + 1];
      FirstNonEmptyNone(ts[1..]);
    }
  }

  /**
   * The title of a document whose candidate heading sizes are `potential`:
   * the first non-empty page title among the first two pages. A page whose
   * first passing line has empty text ends the scan of that page without
   * ending the search.
   */
  function DocumentTitle(pages: seq<seq<Word>>, potential: seq<real>): (r: string)
  {
    FirstNonEmpty(PageTitles(pages, potential))
  }

  /** The title is already stripped, so the final `strip` of `extract_outline` changes nothing. */
  lemma DocumentTitleStripped(pages: seq<seq<Word>>, potential: seq<real>)
    ensures Strip(DocumentTitle(pages, potential)) == DocumentTitle(pages, potential)
  {
    var ts := PageTitles(pages, potential);
    var d := DocumentTitle(pages, potential);
    if d != "" {
      var p := FirstNonEmptyIndex(ts);
      var lines := GroupedLines(pages[p]);
      var k := FirstTitleLine(lines, potential[0]);
      StripIdempotent(Join(Texts(lines[k]), " "));
    } else {
      StripOfTrimmed(d);
    }
  }

  /** The title loop of `extract_outline`: pages in order, stopping at the first non-empty title. */
  method FindTitle(pages: seq<seq<Word>>, potential: seq<real>) returns (title: string)
    ensures title == DocumentTitle(pages, potential)
  {
    title := "";
    var n := if |pages| < TitlePages then |pages| else TitlePages;
    ghost var ts := PageTitles(pages, potential);
    var pageIdx := 0;
    while pageIdx < n
      invariant pageIdx <= n == |ts|
      invariant title == ""
      invariant FirstNonEmpty(ts) == FirstNonEmpty(ts[pageIdx..])
    {
      var lines := GroupLines(pages[pageIdx]);
      title := PageTitle(lines, potential);
      assert ts[pageIdx..][0] == ts[pageIdx] == title;
      if title != "" {
        break;
      }
      assert ts[pageIdx..][1..] == ts[pageIdx + 1..];
      pageIdx := pageIdx + 1;
    }
  }

  /**
   * The inner loop of the title search over the lines of one page: the
   * text of the first line passing the title test, empty if there is none.
   */
  method PageTitle(lines: seq<Line>, potential: seq<real>) returns (title: string)
    ensures title == TitleOnPage(lines, potential)
  {
    title := "";
    if |potential| > 0 {
      FirstTitleLineIsFirst(lines, potential[0]);
    }
    var i := 0;
    while i < |lines|
      invariant i <= |lines|
      invariant title == ""
      invariant |potential| > 0 ==> i <= FirstTitleLine(lines, potential[0])
    {
      var line := lines[i];
      if |line| == 0 {
        i := i + 1;
        continue;
      }
      var fontSize := line[0].size;
      var fullText := LineText(line);
      if |potential| > 0 && fontSize == Some(potential[0]) && |fullText| < TitleLengthLimit {
        title := fullText;
        break;
      }
      i := i + 1;
    }
  }

  /**
   * The title is empty or the text of a line on one of the first two pages
   * that passes the title test and is the first such line of its page; every
   * earlier page offered no title.
   */
  lemma TitleSound(pages: seq<seq<Word>>, potential: seq<real>)
    ensures var t := DocumentTitle(pages, potential);
            t != "" ==>
              && |potential| > 0
              && exists p, k :: 0 <= p < TitlePages && p < |pages|
                   && (forall q :: 0 <= q < p ==> TitleOnPage(GroupedLines(pages[q]), potential) == "")
                   && var lines := GroupedLines(pages[p]);
                   && 0 <= k < |lines| && TitleLine(lines[k], potential[0]) && LineText(lines[k]) == t
                   && forall j :: 0 <= j < k ==> !TitleLine(lines[j], potential[0])
  {
    var t := DocumentTitle(pages, potential);
    if t != "" {
      var ts := PageTitles(pages, potential);
      var p := FirstNonEmptyIndex(ts);
      var k := TitleLineOf(GroupedLines(pages[p]), potential);
      forall q | 0 <= q < p ensures TitleOnPage(GroupedLines(pages[q]), potential) == "" {
        assert ts[q] == "";
      }
    }
  }

  /** A page offering a title offers the text of its first line passing the title test. */
  lemma TitleLineOf(lines: seq<Line>, potential: seq<real>) returns (k: nat)
    requires TitleOnPage(lines, potential) != ""
    ensures |potential| > 0 && k < |lines|
    ensures TitleLine(lines[k], potential[0]) && LineText(lines[k]) == TitleOnPage(lines, potential)
    ensures forall j :: 0 <= j < k ==> !TitleLine(lines[j], potential[0])
  {
    k := FirstTitleLine(lines, potential[0]);
    FirstTitleLineIsFirst(lines, potential[0]);
  }

  /**
   * When the pages before page `p` (one of the first two) offer no title and
   * page `p` offers one, that is the title; when no line of the first two
   * pages passes the title test, the title is empty.
   */
  lemma TitleComplete(pages: seq<seq<Word>>, potential: seq<real>, p: nat)
    ensures p < TitlePages && p < |pages|
            && (forall q :: 0 <= q < p ==> TitleOnPage(GroupedLines(pages[q]), potential) == "")
            && TitleOnPage(GroupedLines(pages[p]), potential) != ""
            ==> DocumentTitle(pages, potential) == TitleOnPage(GroupedLines(pages[p]), potential)
    ensures |potential| > 0 &&
            (forall p, k :: 0 <= p < TitlePages && p < |pages| && 0 <= k < |GroupedLines(pages[p])|
               ==> !TitleLine(GroupedLines(pages[p])[k], potential[0]))
            ==> DocumentTitle(pages, potential) == ""
  {
    var ts := PageTitles(pages, potential);
    if p < TitlePages && p < |pages|
       && (forall q :: 0 <= q < p ==> TitleOnPage(GroupedLines(pages[q]), potential) == "")
       && TitleOnPage(GroupedLines(pages[p]), potential) != ""
    {
      FirstNonEmptyAt(ts, p);
    }
    if |potential| > 0 &&
       (forall p, k :: 0 <= p < TitlePages && p < |pages| && 0 <= k < |GroupedLines(pages[p])|
          ==> !TitleLine(GroupedLines(pages[p])[k], potential[0]))
    {
      forall i | 0 <= i < |ts| ensures ts[i] == "" {
        var lines := GroupedLines(pages[i]);
        assert FirstTitleLine(lines, potential[0]) == |lines|;
      }
      FirstNonEmptyNone(ts);
    }
  }
}
