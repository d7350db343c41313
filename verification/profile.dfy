/**
 * The typography profile: the font sizes and colours sampled from the first
 * pages, the body size (their mode), the heading sizes and their levels,
 * and the common colours.
 */
module Profile {
  import opened Wrappers
  import opened Sorting
  import opened Layout

  /** Number of leading pages sampled for the profile. */
  const SamplePages: nat := 5
  /** Number of heading sizes mapped to a level. */
  const MaxHeadingSizes: nat := 3
  /** Number of colours counted as common. */
  const MaxCommonColors: nat := 5

  datatype Level = H1 | H2 | H3

  /** The level `H{i+1}` given to the `i`-th heading size. */
  function LevelAt(i: nat): (r: Level)
    requires i < MaxHeadingSizes
  {
    if i == 0 then H1 else if i == 1 then H2 else H3
  }

  /** `n` of `Hn`. */
  function LevelNumber(l: Level): (r: nat)
  {
    match l
    case H1 => 1
    case H2 => 2
    case H3 => 3
  }

  /** The typography profile of one document. */
  datatype Profile = Profile(
    body: real,                      // body_font_size
    potential: seq<real>,            // potential_heading_sizes
    headings: seq<real>,             // heading_sizes
    levels: map<real, Level>,        // size_to_level
    common: seq<seq<real>>)          // common_colors

  // ---------------------------------------------------------------
  // Sampling
  // ---------------------------------------------------------------

  /** The sizes of the words that carry one, in word order. */
  function SizesOf(words: seq<Word>): (r: seq<real>)
  {
    if |words| == 0 then []
    else
      var w := words[|words| - 1];
      SizesOf(words[..|words| - 1]) + (if w.size.Some? then [w.size.value] else [])
  }

  /** The colours of the words whose colour is present and non-empty, in word order. */
  function ColorsOf(words: seq<Word>): (r: seq<seq<real>>)
  {
    if |words| == 0 then []
    else
      var w := words[|words| - 1];
      ColorsOf(words[..|words| - 1]) + (if HasColor(w) then [w.color.value] else [])
  }

  /** The sizes of all words of `pages`, page by page. */
  function PagesSizes(pages: seq<seq<Word>>): (r: seq<real>)
  {
    if |pages| == 0 then [] else PagesSizes(pages[..|pages| - 1]) + SizesOf(pages[|pages| - 1])
  }

  /** The present, non-empty colours of all words of `pages`, page by page. */
  function PagesColors(pages: seq<seq<Word>>): (r: seq<seq<real>>)
  {
    if |pages| == 0 then [] else PagesColors(pages[..|pages| - 1]) + ColorsOf(pages[|pages| - 1])
  }

  /** The pages sampled for sizes and colours: the first five, or all when there are fewer. */
  function Sampled(pages: seq<seq<Word>>): (r: seq<seq<Word>>)
  {
    if |pages| <= SamplePages then pages else pages[..SamplePages]
  }

  /** The loop that fills `all_font_sizes` and `all_colors` from the sampled pages. */
  method CollectSample(pages: seq<seq<Word>>) returns (sizes: seq<real>, colors: seq<seq<real>>)
    ensures sizes == PagesSizes(Sampled(pages))
    ensures colors == PagesColors(Sampled(pages))
  {
    var sample := Sampled(pages);
    sizes, colors := [], [];
    for p := 0 to |sample|
      invariant sizes == PagesSizes(sample[..p])
      invariant colors == PagesColors(sample[..p])
    {
      assert sample[..p + 1][..p] == sample[..p];
      sizes := sizes + SizesOf(sample[p]);
      colors := colors + ColorsOf(sample[p]);
    }
    assert sample[..|sample|] == sample;
  }

  lemma {:induction false} SizesOfMeaning(words: seq<Word>, x: real)
    ensures x in SizesOf(words) <==> exists w :: w in words && w.size == Some(x)
  {
    if |words| > 0 {
      var p := words[..|words| - 1];
      SizesOfMeaning(p, x);
      assert words == p + [words[|words| - 1]];
    }
  }

  /** A colour is collected exactly when some word carries it as a present, non-empty colour. */
  lemma {:induction false} ColorsOfMeaning(words: seq<Word>, c: seq<real>)
    ensures c in ColorsOf(words) <==> exists w :: w in words && HasColor(w) && w.color.value == c
    ensures c in ColorsOf(words) ==> |c| > 0
  {
    if |words| > 0 {
      var p := words[..|words| - 1];
      ColorsOfMeaning(p, c);
      assert words == p + [words[|words| - 1]];
    }
  }

  /** A size is sampled exactly when some word of the sampled pages has that size. */
  lemma {:induction false} PagesSizesMeaning(pages: seq<seq<Word>>, x: real)
    ensures x in PagesSizes(pages) <==> exists p, w :: 0 <= p < |pages| && w in pages[p] && w.size == Some(x)
  {
    if |pages| > 0 {
      var q := pages[..|pages| - 1];
      var last := pages[|pages| - 1];
      PagesSizesMeaning(q, x);
      SizesOfMeaning(last, x);
      assert PagesSizes(pages) == PagesSizes(q) + SizesOf(last);
      if x in PagesSizes(q) {
        var p: int, w: Word :| 0 <= p < |q| && w in q[p] && w.size == Some(x);
        assert w in pages[p];
      } else if x in SizesOf(last) {
        var w: Word :| w in last && w.size == Some(x);
        assert w in pages[|pages| - 1];
      }
      if exists p, w :: 0 <= p < |pages| && w in pages[p] && w.size == Some(x) {
        var p: int, w: Word :| 0 <= p < |pages| && w in pages[p] && w.size == Some(x);
        if p < |q| {
          assert w in q[p];
        } else {
          assert w in last;
        }
      }
    }
  }

  // ---------------------------------------------------------------
  // Counting
  // ---------------------------------------------------------------

  /** The keys of `Counter(s)`: the distinct values of `s` in order of first occurrence. */
  function Dedup<T(==,!new)>(s: seq<T>): (r: seq<T>)
    ensures Distinct(r)
    ensures forall x :: x in r <==> x in s
    ensures |r| <= |s|
  {
    if |s| == 0 then []
    else
      var d := Dedup(s[..|s| - 1]);
      var x := s[|s| - 1];
      assert forall y :: y in s <==> y in s[..|s| - 1] || y == x;
      if x in d then d else d + [x]
  }

  /** Every occurrence of `b` in `s` comes after an occurrence of `a`: `a` was observed first. */
  predicate SeenFirst<T(==)>(s: seq<T>, a: T, b: T) {
    forall m :: 0 <= m < |s| && s[m] == b ==> a in s[..m]
  }

  /** The distinct values keep the order in which they were first observed. */
  lemma {:induction false} DedupOrdered<T(!new)>(s: seq<T>, i: nat, j: nat)
    requires i < j < |Dedup(s)|
    ensures SeenFirst(s, Dedup(s)[i], Dedup(s)[j])
  {
    var p := s[..|s| - 1];
    var d := Dedup(p);
    var r := Dedup(s);
    assert r[i] == d[i];
    assert p == s[..|p|];
    forall m | 0 <= m < |s| && s[m] == r[j] ensures r[i] in s[..m] {
      if m < |p| {
        assert p[m] == r[j];
        assert j < |d|;
        DedupOrdered(p, i, j);
        assert p[..m] == s[..m];
      } else {
        assert d[i] in p;
      }
    }
  }

  /**
   * The most common value of `s` (as a counter reports it) scanned from position `i` on, with
   * `best` the first position of maximal count among `s[..i]`.
   */
  function ModeFrom(s: seq<real>, i: nat, best: nat): (k: nat)
    requires best < i <= |s|
    requires forall j :: 0 <= j < i ==> multiset(s)[s[j]] <= multiset(s)[s[best]]
    requires forall j :: 0 <= j < best ==> multiset(s)[s[j]] < multiset(s)[s[best]]
    ensures k < |s|
    ensures forall j :: 0 <= j < |s| ==> multiset(s)[s[j]] <= multiset(s)[s[k]]
    ensures forall j :: 0 <= j < k ==> multiset(s)[s[j]] < multiset(s)[s[k]]
    decreases |s| - i
  {
    if i == |s| then best
    else if multiset(s)[s[i]] > multiset(s)[s[best]] then ModeFrom(s, i + 1, i)
    else ModeFrom(s, i + 1, best)
  }

  /**
   * Position of the most common value of `s`, the body size: a value that occurs at
   * least as often as any other, and the first such value to be observed
   * (every value seen before it occurs strictly less often).
   */
  function ModeIndex(s: seq<real>): (k: nat)
    requires |s| > 0
    ensures k < |s|
    ensures forall j :: 0 <= j < |s| ==> multiset(s)[s[j]] <= multiset(s)[s[k]]
    ensures forall j :: 0 <= j < k ==> multiset(s)[s[j]] < multiset(s)[s[k]]
  {
    ModeFrom(s, 1, 0)
  }

  // ---------------------------------------------------------------
  // Heading sizes and levels
  // ---------------------------------------------------------------

  /** `s` is strictly descending. */
  predicate StrictlyDescending(s: seq<real>) {
    forall i, j :: 0 <= i < j < |s| ==> s[i] > s[j]
  }

  function Negated(x: real): (r: real) { -x }

  /** The sizes larger than `body`, in their original order and with repeats. */
  function LargerThan(sizes: seq<real>, body: real): (r: seq<real>)
    ensures forall x :: x in r <==> x in sizes && x > body
  {
    if |sizes| == 0 then []
    else
      var x := sizes[|sizes| - 1];
      assert forall y :: y in sizes <==> y in sizes[..|sizes| - 1] || y == x;
      LargerThan(sizes[..|sizes| - 1], body) + (if x > body then [x] else [])
  }

  /** The candidate heading sizes: the distinct sizes larger than `body`, largest first. */
  function PotentialSizes(sizes: seq<real>, body: real): (r: seq<real>)
  {
    SortBy(Dedup(LargerThan(sizes, body)), Negated)
  }

  /** The first `n` elements of `s`: `s[:n]`. */
  function Prefix<T>(s: seq<T>, n: nat): (r: seq<T>)
    ensures |r| <= n && |r| <= |s|
    ensures r == s[..|r|]
  {
    if |s| <= n then s else s[..n]
  }

  /** `size_to_level`: the `i`-th heading size (from 0) maps to level `H{i+1}`. */
  function LevelMap(hs: seq<real>): (r: map<real, Level>)
    requires |hs| <= MaxHeadingSizes
  {
    if |hs| == 0 then map[]
    else LevelMap(hs[..|hs| - 1])[hs[|hs| - 1] := LevelAt(|hs| - 1)]
  }

  /** The profile derived from a non-empty size sample and the colour sample. */
  function MakeProfile(sizes: seq<real>, colors: seq<seq<real>>): (r: Profile)
    requires |sizes| > 0
  {
    var body := sizes[ModeIndex(sizes)];
    var potential := PotentialSizes(sizes, body);
    var headings := Prefix(potential, MaxHeadingSizes);
    Profile(body, potential, headings, LevelMap(headings), CommonColors(colors))
  }

  /**
   * The candidate sizes are exactly the distinct sampled sizes larger than
   * the body size, in strictly descending order.
   */
  lemma PotentialSizesMeaning(sizes: seq<real>, body: real)
    ensures var p := PotentialSizes(sizes, body);
            && StrictlyDescending(p)
            && (forall x :: x in p <==> x in sizes && x > body)
  {
    var d := Dedup(LargerThan(sizes, body));
    SortBySorted(d, Negated);
    SortByPermutes(d, Negated);
    SortedDistinctDescending(d, SortBy(d, Negated));
  }

  /** A permutation of distinct sizes sorted by negated size is strictly descending. */
  lemma SortedDistinctDescending(d: seq<real>, p: seq<real>)
    requires Distinct(d) && multiset(p) == multiset(d) && SortedBy(p, Negated)
    ensures StrictlyDescending(p) && forall x :: x in p <==> x in d
  {
    DistinctPermutation(d, p);
    forall x ensures x in p <==> x in d {
      assert x in p <==> x in multiset(p);
    }
    forall i, j | 0 <= i < j < |p| ensures p[i] > p[j] {
      assert Negated(p[i]) <= Negated(p[j]);
    }
  }

  /**
   * The heading sizes: at most three, strictly descending, all sampled and
   * larger than the body size, and the largest such: any other sampled size
   * above the body size is smaller than each of them, and then there are three.
   */
  lemma HeadingSizesBounds(sizes: seq<real>, body: real)
    ensures var h := Prefix(PotentialSizes(sizes, body), MaxHeadingSizes);
            && |h| <= MaxHeadingSizes
            && StrictlyDescending(h)
            && (forall x :: x in h ==> x in sizes && x > body)
            && (forall x :: x in sizes && x > body && x !in h ==>
                  |h| == MaxHeadingSizes && forall i :: 0 <= i < |h| ==> x < h[i])
  {
    PotentialSizesMeaning(sizes, body);
    DescendingPrefix(PotentialSizes(sizes, body), sizes, body);
  }

  /** The first three of the strictly descending sizes above `body` bound the rest from above. */
  lemma DescendingPrefix(p: seq<real>, sizes: seq<real>, body: real)
    requires StrictlyDescending(p) && forall x :: x in p <==> x in sizes && x > body
    ensures var h := Prefix(p, MaxHeadingSizes);
            && |h| <= MaxHeadingSizes
            && StrictlyDescending(h)
            && (forall x :: x in h ==> x in sizes && x > body)
            && (forall x :: x in sizes && x > body && x !in h ==>
                  |h| == MaxHeadingSizes && forall i :: 0 <= i < |h| ==> x < h[i])
  {
    var h := Prefix(p, MaxHeadingSizes);
    forall x | x in h ensures x in p {
      var k :| 0 <= k < |h| && h[k] == x;
      assert p[k] == x;
    }
    forall x | x in sizes && x > body && x !in h
      ensures |h| == MaxHeadingSizes && forall i :: 0 <= i < |h| ==> x < h[i]
    {
      var k :| 0 <= k < |p| && p[k] == x;
      assert k >= |h|;
    }
  }

  /** `size_to_level` maps exactly the heading sizes, the `i`-th to `H{i+1}`. */
  lemma {:induction false} LevelMapMeaning(hs: seq<real>)
    requires |hs| <= MaxHeadingSizes && StrictlyDescending(hs)
    ensures LevelMap(hs).Keys == set x | x in hs
    ensures forall i :: 0 <= i < |hs| ==> LevelMap(hs)[hs[i]] == LevelAt(i)
  {
    if |hs| > 0 {
      var p := hs[..|hs| - 1];
      LevelMapMeaning(p);
      var m := LevelMap(hs);
      assert forall x :: x in hs <==> x in p || x == hs[|hs| - 1];
      forall i | 0 <= i < |hs| ensures m[hs[i]] == LevelAt(i) {
        if i < |p| {
          assert hs[i] == p[i] && hs[i] != hs[|hs| - 1];
        }
      }
    }
  }

  /** A larger heading size never gets a deeper level than a smaller one. */
  lemma LevelMapOrdered(hs: seq<real>, a: real, b: real)
    requires |hs| <= MaxHeadingSizes && StrictlyDescending(hs)
    requires a in LevelMap(hs) && b in LevelMap(hs) && a > b
    ensures LevelNumber(LevelMap(hs)[a]) < LevelNumber(LevelMap(hs)[b])
  {
    LevelMapMeaning(hs);
    var i :| 0 <= i < |hs| && hs[i] == a;
    var j :| 0 <= j < |hs| && hs[j] == b;
    assert i < j;
  }

  // ---------------------------------------------------------------
  // Common colours
  // ---------------------------------------------------------------

  /** Minus the number of times a colour occurs in `colors`: ascending order is most frequent first. */
  function NegCount(colors: seq<seq<real>>): (r: seq<real> -> real)
  {
    c => -(multiset(colors)[c] as real)
  }

  /** `common_colors`: the (at most) five most frequent colours, most frequent first, ties in order of first occurrence. */
  function CommonColors(colors: seq<seq<real>>): (r: seq<seq<real>>)
  {
    Prefix(SortBy(Dedup(colors), NegCount(colors)), MaxCommonColors)
  }

  /**
   * The common colours are at most five distinct sampled colours, as many as
   * there are up to five, and no colour left out occurs more often than any
   * colour kept; between equally frequent colours, the one observed first is
   * kept.
   */
  lemma CommonColorsTop(colors: seq<seq<real>>)
    ensures var c := CommonColors(colors);
            && |c| <= MaxCommonColors
            && Distinct(c)
            && (forall x :: x in c ==> x in colors)
            && (|c| == MaxCommonColors || forall x :: x in colors ==> x in c)
            && (forall x, i :: x in colors && x !in c && 0 <= i < |c| ==>
                  multiset(colors)[x] <= multiset(colors)[c[i]])
            && (forall x, i ::
                  x in colors && x !in c && 0 <= i < |c| && multiset(colors)[x] == multiset(colors)[c[i]]
                  ==> SeenFirst(colors, c[i], x))
  {
    var key := NegCount(colors);
    var l := SortBy(Dedup(colors), key);
    var c := CommonColors(colors);
    RankedColors(colors);
    forall x, i | x in colors && x !in c && 0 <= i < |c| ensures multiset(colors)[x] <= multiset(colors)[c[i]] {
      var k :| 0 <= k < |l| && l[k] == x;
      assert k >= |c|;
      assert key(l[i]) <= key(l[k]);
    }
    forall x, i | x in colors && x !in c && 0 <= i < |c| && multiset(colors)[x] == multiset(colors)[c[i]]
      ensures SeenFirst(colors, c[i], x)
    {
      var k :| 0 <= k < |l| && l[k] == x;
      assert k >= |c|;
      CommonColorsTie(colors, i, k);
    }
  }

  /** The distinct colours ranked by frequency: without repeats, most frequent first, and exactly the sampled colours. */
  lemma RankedColors(colors: seq<seq<real>>)
    ensures var l := SortBy(Dedup(colors), NegCount(colors));
            && Distinct(l)
            && SortedBy(l, NegCount(colors))
            && forall x :: x in l <==> x in colors
  {
    var d := Dedup(colors);
    var l := SortBy(d, NegCount(colors));
    SortBySorted(d, NegCount(colors));
    SortByPermutes(d, NegCount(colors));
    DistinctPermutation(d, l);
    forall x ensures x in l <==> x in d {
      assert x in l <==> x in multiset(l);
    }
  }


  /** A colour ranked below an equally frequent one was observed after it. */
  lemma CommonColorsTie(colors: seq<seq<real>>, i: nat, k: nat)
    requires i < k < |SortBy(Dedup(colors), NegCount(colors))|
    requires var l := SortBy(Dedup(colors), NegCount(colors));
             multiset(colors)[l[i]] == multiset(colors)[l[k]]
    ensures var l := SortBy(Dedup(colors), NegCount(colors));
            SeenFirst(colors, l[i], l[k])
  {
    var d := Dedup(colors);
    var l := SortBy(d, NegCount(colors));
    SortByKeepsTies(d, NegCount(colors), i, k);
    var i', k' :| 0 <= i' < k' < |d| && d[i'] == l[i] && d[k'] == l[k];
    DedupOrdered(colors, i', k');
  }

  // ---------------------------------------------------------------
  // A worked example
  // ---------------------------------------------------------------

  /** Sizes 12, 12, 12, 18, 12: body size 12, one heading size 18, mapped to H1. */
  lemma FourTwelvesOneEighteen()
    ensures var p := MakeProfile([12.0, 12.0, 12.0, 18.0, 12.0], []);
            p.body == 12.0 && p.headings == [18.0] && p.levels == map[18.0 := H1]
  {
    var s := [12.0, 12.0, 12.0, 18.0, 12.0];
    ExampleBody(s);
    ExamplePotential(s);
    ProfileParts(s, [], 12.0, [18.0]);
    assert LevelMap([18.0]) == map[18.0 := H1] by { assert [18.0][..0] == []; }
  }

  lemma ProfileParts(sizes: seq<real>, colors: seq<seq<real>>, body: real, potential: seq<real>)
    requires |sizes| > 0 && sizes[ModeIndex(sizes)] == body && PotentialSizes(sizes, body) == potential
    requires |potential| <= MaxHeadingSizes
    ensures var p := MakeProfile(sizes, colors);
            p.body == body && p.headings == potential && p.levels == LevelMap(potential)
  {
  }

  lemma ExamplePotential(s: seq<real>)
    requires s == [12.0, 12.0, 12.0, 18.0, 12.0]
    ensures PotentialSizes(s, 12.0) == [18.0]
  {
    ExampleLarger(s);
    assert Dedup([18.0]) == [18.0] by { assert [18.0][..0] == []; }
    assert SortBy([18.0], Negated) == [18.0] by { assert [18.0][..0] == []; }
  }

  lemma ExampleBody(s: seq<real>)
    requires s == [12.0, 12.0, 12.0, 18.0, 12.0]
    ensures s[ModeIndex(s)] == 12.0
  {
    var k := ModeIndex(s);
    assert multiset(s)[12.0] == 4 && multiset(s)[18.0] == 1;
    assert multiset(s)[s[k]] >= multiset(s)[s[0]];
  }

  lemma ExampleLarger(s: seq<real>)
    requires s == [12.0, 12.0, 12.0, 18.0, 12.0]
    ensures LargerThan(s, 12.0) == [18.0]
  {
    assert LargerThan([12.0], 12.0) == [] by { assert [12.0][..0] == []; }
    assert LargerThan([12.0, 12.0], 12.0) == [] by { assert [12.0, 12.0][..1] == [12.0]; }
    assert LargerThan([12.0, 12.0, 12.0], 12.0) == [] by { assert [12.0, 12.0, 12.0][..2] == [12.0, 12.0]; }
    assert LargerThan(s[..4], 12.0) == [18.0] by { assert s[..4][..3] == [12.0, 12.0, 12.0]; }
  }
}
