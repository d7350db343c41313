/**
 * Words as the layout extractor reports them, the font predicates on a word
 * (`is_bold`, `get_color_tuple`) and the line grouper `group_lines`.
 */
module Layout {
  import opened Wrappers
  import opened Text
  import opened Sorting

  /**
   * One extracted word: its text, bounding box (`top`, `bottom`, `x0`), font
   * size (absent when the extractor gave none), font name ("" when absent)
   * and fill colour (`None` when absent or not a list of numbers, which is
   * what `get_color_tuple` turns into `None`).
   */
  datatype Word = Word(
    text: string,
    top: real,
    bottom: real,
    x0: real,
    size: Option<real>,
    fontname: string,
    color: Option<seq<real>>)

  /** A visual line: words left to right. */
  type Line = seq<Word>

  /** `group_lines`' default `y_tolerance`, the only value its callers use. */
  const YTolerance: real := 3.0

  /** `is_bold`: the lower-cased font name contains "bold", "black" or "demi". */
  predicate IsBold(w: Word) {
    var f := Lower(w.fontname);
    Contains(f, "bold") || Contains(f, "black") || Contains(f, "demi")
  }

  /** A font name counts as bold when "bold", "black" or "demi" occurs in it, in any case. */
  lemma IsBoldMeaning(w: Word)
    ensures IsBold(w) <==>
              || ContainsIgnoringCase(w.fontname, "bold")
              || ContainsIgnoringCase(w.fontname, "black")
              || ContainsIgnoringCase(w.fontname, "demi")
  {
    ContainsLower(w.fontname, "bold");
    ContainsLower(w.fontname, "black");
    ContainsLower(w.fontname, "demi");
  }

  /** `get_color_tuple(w)` is truthy: a colour is present and is not the empty tuple. */
  predicate HasColor(w: Word) {
    w.color.Some? && |w.color.value| > 0
  }

  function WordX0(w: Word): (r: real) { w.x0 }

  /** The texts of the words of a line, in order. */
  function Texts(line: Line): (ts: seq<string>)
    ensures |ts| == |line|
  {
    if |line| == 0 then [] else Texts(line[..|line| - 1]) + [line[|line| - 1].text]
  }

  /** The text of a line: its words joined by single spaces, stripped. */
  function LineText(line: Line): (r: string)
  {
    Strip(Join(Texts(line), " "))
  }

  /** The `k`-th text is the `k`-th word's. */
  lemma {:induction false} TextsAt(line: Line, k: nat)
    requires k < |line|
    ensures Texts(line)[k] == line[k].text
  {
    if k < |line| - 1 {
      TextsAt(line[..|line| - 1], k);
    }
  }

  /** A line's text never begins or ends with whitespace; a one-word line's text is that word's stripped text. */
  lemma LineTextTrimmed(line: Line)
    ensures Trimmed(LineText(line))
    ensures |line| == 1 ==> LineText(line) == Strip(line[0].text)
  {
    StripTrims(Join(Texts(line), " "));
    if |line| == 1 {
      TextsAt(line, 0);
    }
  }

  /**
   * When every word's text is non-empty with no surrounding whitespace,
   * stripping changes nothing: the line's text is its words joined by
   * single spaces.
   */
  lemma LineTextJoined(line: Line)
    requires forall k :: 0 <= k < |line| ==> line[k].text != [] && Trimmed(line[k].text)
    ensures LineText(line) == Join(Texts(line), " ")
  {
    var ts := Texts(line);
    if |line| > 0 {
      var j := Join(ts, " ");
      JoinEnds(ts, " ");
      TextsAt(line, 0);
      TextsAt(line, |line| - 1);
      var first := ts[0];
      var last := ts[|ts| - 1];
      assert j[0] == first[0] by { assert j[..|first|] == first; }
      assert j[|j| - 1] == last[|last| - 1] by { assert j[|j| - |last|..] == last; }
      StripOfTrimmed(j);
    }
  }

  // ---------------------------------------------------------------
  // Bucketing: the `defaultdict` of `group_lines`, in key insertion order
  // ---------------------------------------------------------------

  /** One entry of the bucket dictionary: its key and the words appended to it. */
  datatype Bucket = Bucket(key: real, words: seq<Word>)

  function BucketKey(b: Bucket): (r: real) { b.key }

  /** `top` lies within the vertical tolerance of a bucket key. */
  predicate Near(top: real, key: real) {
    -YTolerance <= top - key <= YTolerance
  }

  /** Index of the first bucket, in insertion order, whose key is near `top`; `|bs|` if none is. */
  function FirstNear(bs: seq<Bucket>, top: real): (j: nat)
    ensures j <= |bs|
    ensures j < |bs| ==> Near(top, bs[j].key)
  {
    if |bs| == 0 then 0
    else if Near(top, bs[0].key) then 0
    else 1 + FirstNear(bs[1..], top)
  }

  /** `FirstNear` finds position `j` exactly when `j` is near `top`, or past the end, and nothing before it is. */
  lemma {:induction false} FirstNearMeaning(bs: seq<Bucket>, top: real, j: nat)
    ensures FirstNear(bs, top) == j <==>
              && j <= |bs|
              && (j < |bs| ==> Near(top, bs[j].key))
              && forall k :: 0 <= k < j ==> !Near(top, bs[k].key)
  {
    if |bs| > 0 && !Near(top, bs[0].key) && j > 0 {
      FirstNearMeaning(bs[1..], top, j - 1);
      forall k | 1 <= k <= j && k < |bs| ensures bs[1..][k - 1] == bs[k] {
      }
    }
  }

  /** Puts `w` into the first near bucket, or opens a new bucket keyed by `w.top`. */
  function Place(bs: seq<Bucket>, w: Word): (r: seq<Bucket>)
  {
    var j := FirstNear(bs, w.top);
    if j < |bs| then bs[j := Bucket(bs[j].key, bs[j].words + [w])]
    else bs + [Bucket(w.top, [w])]
  }

  /** The bucket dictionary after the words have been placed one by one. */
  function BucketsOf(words: seq<Word>): (r: seq<Bucket>)
  {
    if |words| == 0 then []
    else Place(BucketsOf(words[..|words| - 1]), words[|words| - 1])
  }

  /** The words of each bucket, sorted left to right. */
  function SortLines(bs: seq<Bucket>): (lines: seq<Line>)
    ensures |lines| == |bs|
  {
    if |bs| == 0 then [] else SortLines(bs[..|bs| - 1]) + [SortBy(bs[|bs| - 1].words, WordX0)]
  }

  lemma {:induction false} SortLinesAt(bs: seq<Bucket>, i: nat)
    requires i < |bs|
    ensures SortLines(bs)[i] == SortBy(bs[i].words, WordX0)
  {
    if i < |bs| - 1 {
      SortLinesAt(bs[..|bs| - 1], i);
    }
  }

  /** Buckets sorted by key, each sorted left to right. */
  function LinesOf(bs: seq<Bucket>): (lines: seq<Line>)
    ensures |lines| == |bs|
  {
    SortLines(SortBy(bs, BucketKey))
  }

  /** The result of `group_lines(words)`. */
  function GroupedLines(words: seq<Word>): (r: seq<Line>)
  {
    LinesOf(BucketsOf(words))
  }

  /** The bucket key of each line of `GroupedLines(words)`. */
  function LineKeys(words: seq<Word>): (keys: seq<real>)
    ensures |keys| == |GroupedLines(words)|
  {
    var sorted := SortBy(BucketsOf(words), BucketKey);
    seq(|sorted|, i requires 0 <= i < |sorted| => sorted[i].key)
  }

  /** `group_lines`: buckets the words in one pass, then sorts buckets and words. */
  method GroupLines(words: seq<Word>) returns (lines: seq<Line>)
    ensures lines == GroupedLines(words)
  {
    var buckets: seq<Bucket> := [];
    for i := 0 to |words|
      invariant buckets == BucketsOf(words[..i])
    {
      var word := words[i];
      ghost var before := buckets;
      var added := false;
      var j := 0;
      while j < |buckets|
        invariant j <= |buckets|
        invariant buckets == before && !added
        invariant forall k :: 0 <= k < j ==> !Near(word.top, buckets[k].key)
      {
        var key := buckets[j].key;
        if -YTolerance <= word.top - key <= YTolerance {
          buckets := buckets[j := Bucket(key, buckets[j].words + [word])];
          added := true;
          break;
        }
        j := j + 1;
      }
      FirstNearMeaning(before, word.top, j);
      if !added {
        buckets := buckets + [Bucket(word.top, [word])];
      }
      assert words[..i + 1][..i] == words[..i];
    }
    assert words[..|words|] == words;
    lines := LinesOf(buckets);
  }

  // ---------------------------------------------------------------
  // Invariants of the bucket dictionary
  // ---------------------------------------------------------------

  /** Each bucket is non-empty and keyed by the `top` of its first word. */
  ghost predicate Keyed(bs: seq<Bucket>) {
    forall j :: 0 <= j < |bs| ==> |bs[j].words| > 0 && bs[j].words[0].top == bs[j].key
  }

  /** Every word is within the tolerance of its bucket's key. */
  ghost predicate WithinTolerance(bs: seq<Bucket>) {
    forall j, w :: 0 <= j < |bs| && w in bs[j].words ==> Near(w.top, bs[j].key)
  }

  /** The keys of any two buckets are further apart than the tolerance. */
  ghost predicate KeysApart(bs: seq<Bucket>) {
    forall j, k :: 0 <= j < |bs| && 0 <= k < |bs| && j != k ==> !Near(bs[j].key, bs[k].key)
  }

  ghost predicate BucketsValid(bs: seq<Bucket>) {
    Keyed(bs) && WithinTolerance(bs) && KeysApart(bs)
  }

  /** All words placed into the buckets, with multiplicity. */
  ghost function Bag(bs: seq<Bucket>): (r: multiset<Word>)
  {
    if |bs| == 0 then multiset{} else Bag(bs[..|bs| - 1]) + multiset(bs[|bs| - 1].words)
  }

  lemma {:induction false} BagAppend(a: seq<Bucket>, b: seq<Bucket>)
    ensures Bag(a + b) == Bag(a) + Bag(b)
    decreases |b|
  {
    if |b| == 0 {
      assert a + b == a;
    } else {
      assert (a + b)[..|a + b| - 1] == a + b[..|b| - 1];
      BagAppend(a, b[..|b| - 1]);
    }
  }

  lemma BagSingle(b: Bucket)
    ensures Bag([b]) == multiset(b.words)
  {
    assert [b][..0] == [];
  }

  lemma BagUpdate(bs: seq<Bucket>, j: nat, b: Bucket)
    requires j < |bs|
    ensures Bag(bs[j := b]) + multiset(bs[j].words) == Bag(bs) + multiset(b.words)
  {
    assert bs == bs[..j] + [bs[j]] + bs[j + 1..];
    assert bs[j := b] == bs[..j] + [b] + bs[j + 1..];
    BagAppend(bs[..j] + [bs[j]], bs[j + 1..]);
    BagAppend(bs[..j], [bs[j]]);
    BagAppend(bs[..j] + [b], bs[j + 1..]);
    BagAppend(bs[..j], [b]);
    BagSingle(b);
    BagSingle(bs[j]);
  }

  /** Reordering the buckets does not change the words they hold. */
  lemma {:induction false} BagPermutation(a: seq<Bucket>, b: seq<Bucket>)
    requires multiset(a) == multiset(b)
    ensures Bag(a) == Bag(b)
    decreases |a|
  {
    if |a| == 0 {
      assert |b| == |multiset(b)| == 0;
    } else {
      var x := a[|a| - 1];
      var a' := a[..|a| - 1];
      assert a == a' + [x];
      assert x in multiset(b);
      var k :| 0 <= k < |b| && b[k] == x;
      var b' := b[..k] + b[k + 1..];
      assert b == b[..k] + [x] + b[k + 1..];
      RemoveBoth(a', b, k);
      BagPermutation(a', b');
      BagAppend(b[..k] + [x], b[k + 1..]);
      BagAppend(b[..k], [x]);
      BagAppend(b[..k], b[k + 1..]);
      BagSingle(x);
    }
  }

  /** Removing the last element of one side and a copy of it from the other keeps two sequences permutations. */
  lemma RemoveBoth<T>(a: seq<T>, b: seq<T>, k: nat)
    requires k < |b| && multiset(a + [b[k]]) == multiset(b)
    ensures multiset(a) == multiset(b[..k] + b[k + 1..])
  {
    assert b == b[..k] + [b[k]] + b[k + 1..];
    assert multiset(b) == multiset(b[..k]) + multiset{b[k]} + multiset(b[k + 1..]);
    assert multiset(a + [b[k]]) == multiset(a) + multiset{b[k]};
    var rest := b[..k] + b[k + 1..];
    assert multiset(rest) == multiset(b[..k]) + multiset(b[k + 1..]);
    forall y ensures multiset(a)[y] == multiset(rest)[y] {
      assert multiset(a + [b[k]])[y] == multiset(b)[y];
    }
  }

  /** Appending to bucket `j`, the first near one, keeps the buckets valid. */
  lemma JoinValid(bs: seq<Bucket>, w: Word, j: nat)
    requires BucketsValid(bs)
    requires j < |bs| && Near(w.top, bs[j].key)
    ensures BucketsValid(bs[j := Bucket(bs[j].key, bs[j].words + [w])])
  {
    var r := bs[j := Bucket(bs[j].key, bs[j].words + [w])];
    assert KeysApart(r) by {
      forall k, m | 0 <= k < |r| && 0 <= m < |r| && k != m ensures !Near(r[k].key, r[m].key) {
        assert r[k].key == bs[k].key && r[m].key == bs[m].key;
      }
    }
    assert WithinTolerance(r) by {
      forall k, v | 0 <= k < |r| && v in r[k].words ensures Near(v.top, r[k].key) {
        if k == j && v !in bs[j].words {
          assert v == w;
        }
      }
    }
    assert Keyed(r) by {
      forall k | 0 <= k < |r| ensures |r[k].words| > 0 && r[k].words[0].top == r[k].key {
        if k == j {
          assert r[k].words[0] == bs[j].words[0];
        }
      }
    }
  }

  /** Opening a bucket for a word far from every key keeps the buckets valid. */
  lemma OpenValid(bs: seq<Bucket>, w: Word)
    requires BucketsValid(bs)
    requires forall k :: 0 <= k < |bs| ==> !Near(w.top, bs[k].key)
    ensures BucketsValid(bs + [Bucket(w.top, [w])])
  {
    var r := bs + [Bucket(w.top, [w])];
    assert KeysApart(r) by {
      forall k, m | 0 <= k < |r| && 0 <= m < |r| && k != m ensures !Near(r[k].key, r[m].key) {
        if k == |bs| {
          assert !Near(w.top, bs[m].key);
        } else if m == |bs| {
          assert !Near(w.top, bs[k].key);
        }
      }
    }
    assert WithinTolerance(r) by {
      forall k, v | 0 <= k < |r| && v in r[k].words ensures Near(v.top, r[k].key) {
        if k < |bs| {
          assert r[k] == bs[k];
        }
      }
    }
  }

  /** Placing a word keeps the buckets valid. */
  lemma PlaceValid(bs: seq<Bucket>, w: Word)
    requires BucketsValid(bs)
    ensures BucketsValid(Place(bs, w))
  {
    var j := FirstNear(bs, w.top);
    FirstNearMeaning(bs, w.top, j);
    if j < |bs| {
      JoinValid(bs, w, j);
    } else {
      OpenValid(bs, w);
    }
  }

  /**
   * Placing a word appends it to the first near bucket, or opens a new
   * bucket keyed by its top when none is near; every other bucket stays as
   * it was. So the word is added exactly once, every existing key keeps its
   * place and at most one bucket is added.
   */
  lemma PlaceAddsWord(bs: seq<Bucket>, w: Word)
    ensures var j := FirstNear(bs, w.top);
            && (j < |bs| ==> |Place(bs, w)| == |bs| && Place(bs, w)[j].words == bs[j].words + [w])
            && (j == |bs| ==> Place(bs, w) == bs + [Bucket(w.top, [w])])
            && forall k :: 0 <= k < |bs| && k != j ==> Place(bs, w)[k] == bs[k]
    ensures Bag(Place(bs, w)) == Bag(bs) + multiset{w}
    ensures |bs| <= |Place(bs, w)| <= |bs| + 1
    ensures forall j :: 0 <= j < |bs| ==> Place(bs, w)[j].key == bs[j].key
  {
    var j := FirstNear(bs, w.top);
    var r := Place(bs, w);
    if j < |bs| {
      var b := Bucket(bs[j].key, bs[j].words + [w]);
      assert r == bs[j := b];
      BagUpdate(bs, j, b);
      assert multiset(b.words) == multiset(bs[j].words) + multiset{w};
      forall y ensures Bag(r)[y] == (Bag(bs) + multiset{w})[y] {
        assert (Bag(r) + multiset(bs[j].words))[y] == (Bag(bs) + multiset(b.words))[y];
      }
    } else {
      BagAppend(bs, [Bucket(w.top, [w])]);
      BagSingle(Bucket(w.top, [w]));
    }
  }

  /** Placing a word adds exactly that word to the buckets' words. */
  lemma PlaceBag(bs: seq<Bucket>, w: Word)
    ensures Bag(Place(bs, w)) == Bag(bs) + multiset{w}
  {
    PlaceAddsWord(bs, w);
  }

  /** The dictionary built by `group_lines` is valid. */
  lemma {:induction false} BucketsOfValid(words: seq<Word>)
    ensures BucketsValid(BucketsOf(words))
  {
    if |words| > 0 {
      var p := words[..|words| - 1];
      BucketsOfValid(p);
      PlaceValid(BucketsOf(p), words[|words| - 1]);
    }
  }

  /** The dictionary built by `group_lines` holds exactly the input words. */
  lemma {:induction false} BucketsOfBag(words: seq<Word>)
    ensures Bag(BucketsOf(words)) == multiset(words)
  {
    if |words| > 0 {
      var p := words[..|words| - 1];
      var w := words[|words| - 1];
      BucketsOfBag(p);
      PlaceBag(BucketsOf(p), w);
      assert words == p + [w];
      assert multiset(words) == multiset(p) + multiset{w};
    }
  }

  /**
   * The key of a bucket is never recomputed: the buckets built from a prefix
   * of the words keep their keys, in the same positions, as more words arrive.
   */
  lemma {:induction false} KeysStable(words: seq<Word>, n: nat)
    requires n <= |words|
    ensures |BucketsOf(words[..n])| <= |BucketsOf(words)|
    ensures forall j :: 0 <= j < |BucketsOf(words[..n])| ==> BucketsOf(words)[j].key == BucketsOf(words[..n])[j].key
    decreases |words| - n
  {
    if n < |words| {
      var p := words[..|words| - 1];
      assert words[..n] == p[..n];
      KeysStable(p, n);
      PlaceAddsWord(BucketsOf(p), words[|words| - 1]);
    } else {
      assert words[..n] == words;
    }
  }

  // ---------------------------------------------------------------
  // Properties of the lines
  // ---------------------------------------------------------------

  /** Sorting the buckets by key keeps them valid. */
  lemma SortedBucketsValid(bs: seq<Bucket>)
    requires BucketsValid(bs)
    ensures BucketsValid(SortBy(bs, BucketKey))
  {
    var s := SortBy(bs, BucketKey);
    assert Distinct(bs) by {
      forall i, j | 0 <= i < j < |bs| ensures bs[i] != bs[j] {
        assert !Near(bs[i].key, bs[j].key);
      }
    }
    SortByPermutes(bs, BucketKey);
    DistinctPermutation(bs, s);
    PermutedValid(bs, s);
  }

  /** A reordering without repeated buckets keeps the bucket invariants. */
  lemma PermutedValid(bs: seq<Bucket>, s: seq<Bucket>)
    requires BucketsValid(bs) && multiset(s) == multiset(bs) && Distinct(s)
    ensures BucketsValid(s)
  {
    forall i | 0 <= i < |s| ensures s[i] in bs {
      assert s[i] in multiset(bs);
    }
    forall i, j | 0 <= i < |s| && 0 <= j < |s| && i != j ensures !Near(s[i].key, s[j].key) {
      var a :| 0 <= a < |bs| && bs[a] == s[i];
      var b :| 0 <= b < |bs| && bs[b] == s[j];
    }
  }

  /**
   * `group_lines` returns non-empty lines, each with a key: every word of a
   * line lies within the tolerance of its key, some word of the line sits
   * exactly at the key, and the keys ascend with gaps larger than the
   * tolerance (top of the page first).
   */
  lemma GroupedLinesShape(words: seq<Word>)
    ensures var lines := GroupedLines(words);
            var keys := LineKeys(words);
            && (forall i :: 0 <= i < |lines| ==> |lines[i]| > 0)
            && (forall i, w :: 0 <= i < |lines| && w in lines[i] ==> Near(w.top, keys[i]))
            && (forall i :: 0 <= i < |lines| ==> exists w :: w in lines[i] && w.top == keys[i])
            && (forall i, j :: 0 <= i < j < |keys| ==> keys[i] + YTolerance < keys[j])
  {
    var bs := BucketsOf(words);
    var s := SortBy(bs, BucketKey);
    var lines := GroupedLines(words);
    var keys := LineKeys(words);
    BucketsOfValid(words);
    SortedBucketsValid(bs);
    SortBySorted(bs, BucketKey);
    forall i | 0 <= i < |lines| ensures multiset(lines[i]) == multiset(s[i].words) {
      SortLinesAt(s, i);
      SortByPermutes(s[i].words, WordX0);
    }
    forall i | 0 <= i < |lines| ensures |lines[i]| > 0 && exists w: Word :: w in lines[i] && w.top == keys[i] {
      assert s[i].words[0] in multiset(lines[i]);
    }
    forall i, w: Word | 0 <= i < |lines| && w in lines[i] ensures Near(w.top, keys[i]) {
      assert w in multiset(s[i].words);
    }
    forall i, j | 0 <= i < j < |keys| ensures keys[i] + YTolerance < keys[j] {
      assert BucketKey(s[i]) <= BucketKey(s[j]);
      assert !Near(s[j].key, s[i].key);
    }
  }

  /** Each line of `group_lines` is ordered left to right by `x0`. */
  lemma GroupedLinesSorted(words: seq<Word>)
    ensures forall i :: 0 <= i < |GroupedLines(words)| ==> SortedBy(GroupedLines(words)[i], WordX0)
  {
    var s := SortBy(BucketsOf(words), BucketKey);
    forall i | 0 <= i < |GroupedLines(words)| ensures SortedBy(GroupedLines(words)[i], WordX0) {
      SortLinesAt(s, i);
      SortBySorted(s[i].words, WordX0);
    }
  }

  /** All words of the lines, with multiplicity. */
  ghost function LineBag(lines: seq<Line>): (r: multiset<Word>)
  {
    if |lines| == 0 then multiset{} else LineBag(lines[..|lines| - 1]) + multiset(lines[|lines| - 1])
  }

  lemma {:induction false} LineBagOfBuckets(lines: seq<Line>, bs: seq<Bucket>)
    requires |lines| == |bs|
    requires forall i :: 0 <= i < |bs| ==> multiset(lines[i]) == multiset(bs[i].words)
    ensures LineBag(lines) == Bag(bs)
  {
    if |bs| > 0 {
      LineBagOfBuckets(lines[..|lines| - 1], bs[..|bs| - 1]);
    }
  }

  /**
   * `group_lines` partitions its input: every word appears in exactly one
   * line, as often as in the input, and no word is invented.
   */
  lemma GroupedLinesPartition(words: seq<Word>)
    ensures LineBag(GroupedLines(words)) == multiset(words)
  {
    var bs := BucketsOf(words);
    var s := SortBy(bs, BucketKey);
    BucketsOfBag(words);
    SortByPermutes(bs, BucketKey);
    BagPermutation(bs, s);
    forall i | 0 <= i < |s| ensures multiset(GroupedLines(words)[i]) == multiset(s[i].words) {
      SortLinesAt(s, i);
      SortByPermutes(s[i].words, WordX0);
    }
    LineBagOfBuckets(GroupedLines(words), s);
  }

  lemma {:induction false} LineBagMember(lines: seq<Line>, i: nat, w: Word)
    requires i < |lines| && w in lines[i]
    ensures w in LineBag(lines)
  {
    if i < |lines| - 1 {
      LineBagMember(lines[..|lines| - 1], i, w);
    }
  }

  /** Every word of every line is one of the input words. */
  lemma LineWordIsInput(words: seq<Word>, i: nat, w: Word)
    requires i < |GroupedLines(words)| && w in GroupedLines(words)[i]
    ensures w in words
  {
    GroupedLinesPartition(words);
    LineBagMember(GroupedLines(words), i, w);
  }

  /** A page holding a single word forms one line of that word. */
  lemma OneWordPage(w: Word)
    ensures GroupedLines([w]) == [[w]]
  {
    var b := Bucket(w.top, [w]);
    assert [w][..0] == [];
    assert BucketsOf([w]) == [b];
    assert [b][..0] == [];
    assert SortBy([b], BucketKey) == [b];
    assert SortBy([w], WordX0) == [w];
    assert SortLines([b]) == [[w]];
  }
}
