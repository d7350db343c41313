# Outline inference from PDF word layout

A model of `extract_outline` (in `main.py`), a heading detector for PDF documents.
It receives the words of every page with their font size, font name, colour and
bounding box, and returns a document title plus an outline: a list of headings,
each with a level H1, H2 or H3, its text and its page number (from 1).

The extraction runs in four stages, each modelled here:

1. **Line grouping** (`group_lines`). Words go into buckets in reading order.
   A word joins the first bucket whose key lies within 3 points of its top;
   otherwise it opens a new bucket keyed by its own top. The buckets are then
   sorted by key, and the words of each bucket by their left edge.
2. **Typography profile.** The first five pages are sampled. The most common
   size is the body size. Larger distinct sizes, largest first, are the
   candidate heading sizes. The first three of them map to H1–H3. The five most
   frequent colours count as common.
3. **Title.** On the first two pages, look for the first line whose first word
   has the largest candidate size and whose text is under 100 characters. The
   title is that line's text on the first page that offers a non-empty one.
4. **Heading pass.** Every page is scanned line by line:
   - Lines shorter than 3 or longer than 100 characters are skipped.
   - Every other line gets an additive score from: heading size, bold font,
     uncommon colour, small indent, a large gap above, capitals or title case,
     a numbered prefix, and brevity.
   - A line scoring at least 4 becomes a heading with a level.
   - A heading is dropped when its text, ignoring case, repeats or extends the
     previous heading's text.

Files:

- `wrappers.dfy`: `Option` and `Result`.
- `text.dfy`: the string operations the source uses and a matcher for the
  numbered-heading pattern `^\d+(\.\d+)*\s+[A-Za-z]`. The string operations are
  strip, lower, isupper, istitle, startswith, `in` and join.
- `sorting.dfy`: Python's stable `sorted`, modelled as an insertion sort.
- `layout.dfy`: words, `is_bold`, the colour test, and `group_lines`. The
  source's `group_lines` is imperative, so the model has both a method
  `GroupLines` and a function `GroupedLines` that specifies it.
- `profile.dfy`: the sample, the body size, the heading sizes, the level map
  and the common colours.
- `title.dfy`: the title loop, as methods with `break`, specified by functions.
- `outline.dfy`: the average gap, scoring, level choice and duplicate filter.
  Also the whole extraction, both as the method `ExtractOutline` and as the
  function `Extract` that specifies it.

Numbers and failure:

- Scores are kept **doubled**, so that the 1.5 capitals bonus is an integer.
  The threshold 4 becomes 8, and the brevity condition "score >= 3" becomes 6.
- Font sizes, positions and gaps are `real`.
- When a bold line larger than the body size has no heading size to compare
  with, the source's level choice reads `heading_sizes[0]` of an empty list
  (main.py:170) and raises `IndexError`. The model returns
  `Err(IndexError(page, line))` there. `Outline.ExtractFails` characterises
  exactly when this happens. `Outline.SampledPagesNeverFail` shows it cannot
  happen on the five sampled pages. `Outline.SixthPageFails` gives a document
  where it does happen.

The source comment at main.py:154 cites "1. Introduction" as an example of a
numbered heading. The pattern at main.py:155, however, needs a digit after every
dot, so "1. Introduction" does not match, while "2.1 Scope" does. The model
follows the pattern (`Text.NumberedExamples`).

## Model

| member | source | states |
|---|---|---|
| Layout.GroupLines | main.py:12-24 | the bucketing loop and the two sorts compute exactly `GroupedLines(words)` |
| Layout.FirstNearMeaning | main.py:16-20 | the bucket a word joins is the first bucket, in insertion order, whose key is within the tolerance of its top, and no earlier bucket is |
| Layout.PlaceAddsWord | main.py:14-22 | placing a word appends it to the first near bucket, or opens a bucket keyed by its top when none is near; every other bucket is unchanged, so the word is added exactly once and no key moves |
| Layout.KeysStable | main.py:16-22 | a bucket key is never recomputed: the buckets built from a prefix of the words keep their keys, in place, as more words arrive |
| Layout.BucketsOfValid | main.py:14-22 | after every placement, each word is within the tolerance of its bucket's key, each bucket has a word exactly at its key, and keys are pairwise further apart than the tolerance |
| Layout.BucketsOfBag | main.py:14-22 | the buckets hold exactly the input words, with multiplicity |
| Layout.SortedBucketsValid | main.py:23 | sorting the buckets by key keeps those bucket invariants |
| Layout.GroupedLinesShape | main.py:12-24 | lines are non-empty, every word of a line is near the line's key, some word sits at the key, and keys ascend with gaps above the tolerance |
| Layout.GroupedLinesSorted | main.py:24 | each line is ordered left to right by `x0` |
| Layout.GroupedLinesPartition | main.py:12-24 | the lines together hold exactly the input words, with multiplicity |
| Layout.LineWordIsInput | main.py:12-24 | every word of every line is an input word |
| Layout.IsBoldMeaning | main.py:26-28 | a word is bold exactly when "bold", "black" or "demi" occurs in its font name, ignoring case |
| Layout.OneWordPage | main.py:12-24 | a page holding one word forms one line of that word |
| Sorting.SortByPermutes | main.py:23-24 | `sorted` returns a permutation of its input |
| Sorting.SortBySorted | main.py:23-24 | `sorted` returns its input in non-decreasing key order |
| Sorting.SortByStable | main.py:23-24 | `sorted` is stable: elements with equal keys keep their input order |
| Sorting.SortByKeepsTies | main.py:23-24 | of two elements with the same key, the one first in the output of `sorted` was first in its input |
| Sorting.InsertBySorted | main.py:23-24 | inserting into a sorted sequence keeps it sorted |
| Text.JoinLength | main.py:113 | `sep.join(parts)` has the parts' total length plus one separator between each two |
| Text.JoinEnds | main.py:113 | `sep.join(parts)` starts with the first part and ends with the last |
| Layout.LineTextTrimmed | main.py:113 | a line's text has no surrounding whitespace, and a one-word line's text is its stripped word |
| Layout.LineTextJoined | main.py:113 | when every word is non-empty with no surrounding whitespace, the line's text is the words joined by single spaces |
| Text.StripTrims | main.py:113 | `strip` returns an infix of its input with no whitespace at either end, and what it cuts off on each side is whitespace only |
| Text.StripOfTrimmed | main.py:113 | `strip` leaves text without surrounding whitespace unchanged |
| Text.StripIdempotent | main.py:184 | stripping the already stripped title changes nothing |
| Text.ContainsLower | main.py:27-28 | searching the lower-cased name finds a marker exactly when some window of the name matches it character by character after lowering |
| Text.TitleTextMeaning | main.py:151 | `istitle` holds exactly when there is a letter and each letter is upper case exactly when it starts a run of letters |
| Text.MatchesNumberedMeaning | main.py:155 | the matcher accepts exactly the strings that split as dotted number, whitespace, letter, which is the language of the pattern |
| Text.NumberedExamples | main.py:154-156 | "1. Introduction" does not match the numbered pattern and "2.1 Scope" does |
| Profile.CollectSample | main.py:44-47 | the sampling loop collects the sizes and colours of the first five pages, page by page |
| Profile.ColorsOfMeaning | main.py:47 | a colour is collected exactly when some word carries it as a present list of numbers that `get_color_tuple` returns truthy (non-empty) |
| Profile.PagesSizesMeaning | main.py:44-46 | a size is sampled exactly when some word of a sampled page carries it |
| Profile.ModeIndex | main.py:53 | the body size occurs at least as often as any size, and every size seen before it occurs strictly less often |
| Profile.Dedup | main.py:57 | the distinct sizes hold each sampled value exactly once |
| Profile.DedupOrdered | main.py:64 | the distinct values keep the order in which they were first observed, as a counter's keys do |
| Profile.LargerThan | main.py:57 | the filtered sizes are exactly the sizes larger than the body size |
| Profile.PotentialSizesMeaning | main.py:57 | candidate sizes are strictly descending and are exactly the sampled sizes larger than the body size |
| Profile.HeadingSizesBounds | main.py:57-60 | at most three heading sizes, strictly descending, each sampled and larger than the body size, and any candidate left out is smaller than all three |
| Profile.LevelMapMeaning | main.py:61 | `size_to_level` maps exactly the heading sizes, the `i`-th to `H{i+1}` |
| Profile.LevelMapOrdered | main.py:61 | a larger mapped size gets a strictly higher level |
| Profile.CommonColorsTop | main.py:64 | at most five distinct sampled colours, all of them when there are fewer, no colour left out is more frequent than one kept, and of two equally frequent colours the one observed first is kept |
| Profile.CommonColorsTie | main.py:64 | of two equally frequent colours, the one ranked first was observed first |
| Profile.FourTwelvesOneEighteen | main.py:53-61 | sizes 12, 12, 12, 18, 12 give body size 12, heading sizes [18] and the map 18 to H1 |
| Title.FindTitle | main.py:66-85 | the title loop returns `DocumentTitle`: the first non-empty page title of the first two pages |
| Title.PageTitle | main.py:73-82 | the inner loop returns the text of the page's first line passing the title test, or "" |
| Title.FirstTitleLineIsFirst | main.py:73-82 | no line before the one found passes the title test |
| Title.FirstNonEmptyIndex | main.py:84-85 | a non-empty title comes from a page all of whose predecessors offered an empty title |
| Title.TitleSound | main.py:66-85 | a non-empty title is the text of the first line passing the title test on one of the first two pages, and every earlier page offered no title |
| Title.FirstNonEmptyAt | main.py:84-85 | when the pages before page `p` offer no title and page `p` offers one, the search stops there with that title |
| Title.DocumentTitleStripped | main.py:184 | the title found is already stripped, so the final `strip` leaves it unchanged |
| Title.TitleComplete | main.py:66-85 | when the pages before page `p` (page 1 or 2) offer no title and page `p` offers one, that is the title; with no passing line on the first two pages the title is empty |
| Outline.GroupedLinesNonEmpty | main.py:103-104 | grouped lines are never empty, so the skip of empty lines never fires |
| Outline.AverageGap | main.py:93-100 | the gap loop computes `MeanGap`: the mean of the positive gaps, 5 when there are none |
| Outline.PositiveGapsMeaning | main.py:93-99 | a gap is collected exactly when it is positive and lies between two consecutive lines |
| Outline.MeanGapPositive | main.py:100 | the average gap is always positive |
| Outline.MeanGapBetween | main.py:93-100 | the average gap lies between any bounds on the positive gaps |
| Outline.SizeBonus | main.py:129-130 | the size bonus is non-zero exactly when the size is a heading size |
| Outline.SizeBonusTiers | main.py:129-130 | with at most three strictly descending heading sizes, the `i`-th earns 3 - i (doubled: 6 - 2i), so a larger heading size earns a strictly larger bonus |
| Outline.StartsWithArticleMeaning | main.py:150 | the lower-cased article test holds exactly when the text begins with "the " or "a ", each letter in either case |
| Outline.CasingBonusMeaning | main.py:148-152 | the capitals bonus is 1.5 (3 doubled) exactly for a text under 50 characters with a capital and no small letter; otherwise 1 (2 doubled) exactly for a text with a letter, each letter a capital exactly when it begins a run of letters, not beginning with "the " or "a "; otherwise 0 |
| Outline.ScoreLine | main.py:126-160 | the scoring block computes `Score` |
| Outline.ScoreRange | main.py:126-160 | a score lies between 0 and 12.5 |
| Outline.HeadingBaseScore | main.py:158-163 | a line reaching the threshold scored at least 3 before the brevity bonus |
| Outline.BriefLargestIsHeading | main.py:129-163 | a line of at most five words in the largest heading size always reaches the threshold |
| Outline.ProfileConsistent | main.py:57-61 | a derived profile has descending heading sizes above the body size, mapped to H1–H3 in order |
| Outline.LevelForMeaning | main.py:164-172 | the level choice fails exactly for a bold line larger than the body size when there is no heading size; a heading size gets its mapped level; a line neither mapped nor larger and bold gets H3 |
| Outline.LevelMonotone | main.py:164-172 | among bold lines larger than the body size, a larger size never gets a lower level |
| Outline.PlainUnmappedIsH3 | main.py:164-172 | an unmapped line that is not bold is H3 |
| Outline.AssessLine | main.py:102-172 | the per-line block computes `Assess`: skip, heading, or the `IndexError` |
| Outline.AssessMeaning | main.py:113-172 | a line becomes a heading at a level exactly when its length is within bounds, its score reaches the threshold and the level choice gives that level |
| Outline.AssessFails | main.py:169-170 | the `IndexError` arises only for a line larger than the body size when there is no heading size |
| Outline.AdmitOrdered | main.py:175-181 | admitting a line read after every entry so far keeps the entries in strict (page, line) order with no entry repeating the one before it |
| Outline.BackgroundRepeats | main.py:176 | "background information" after "Background" is a repeat and is dropped |
| Outline.EntriesAdmit | main.py:175-181 | the duplicate filter appends the entry to the outline exactly when it is not a repeat |
| Outline.HeadingPass | main.py:102-181 | the heading loop over one page returns the scan of that page's verdicts: its entries, or the `IndexError` at the first failing line |
| Outline.ExtractOutline | main.py:36-186 | the whole extraction computes `Extract` |
| Outline.ScanLinesFails | main.py:102-181 | the pass over a page fails exactly when some line of it fails |
| Outline.ScanPagesFails | main.py:88-181 | the pass over the document fails exactly when some line of some page fails |
| Outline.ExtractFails | main.py:49-181 | extraction raises exactly when some size was sampled and some line of some page fails the level choice |
| Outline.SampledPagesNeverFail | main.py:44-60 | no line of the first five pages can fail |
| Outline.SampledLineNeverFails | main.py:107-172 | a line whose size was sampled never fails the level choice |
| Outline.ShortDocumentsSucceed | main.py:44-181 | a document of at most five pages never raises |
| Outline.SixthPageFails | main.py:44-172 | a body word on page 1 and a bold capitalised larger word alone on page 6 make the extraction raise |
| Outline.ExtractTrace | main.py:88-181 | every outline is the entry list of an ordered trace of accepted lines |
| Outline.ExtractEntry | main.py:102-181 | every entry comes from a line of its page that is accepted with the entry's level and text |
| Outline.ExtractOrdered | main.py:88-181 | entries appear in page order, with non-decreasing page numbers |
| Outline.ScanLinesComplete | main.py:102-181 | the pass over a page admits every accepted line unless its text repeats the entry admitted last before that line |
| Outline.ScanPagesComplete | main.py:88-181 | the pass over the pages covers every accepted line of every page in the same way |
| Outline.ExtractComplete | main.py:102-181 | in a successful extraction, every line accepted with an entry's level and text is, in the valid trace behind the outline, either that entry at that line or a repeat of the entry admitted last before it |
| Outline.ExtractCovers | main.py:102-181 | every accepted line's entry is in the outline, or the outline holds an entry on the same or an earlier page whose text it repeats |
| Outline.ExtractTitle | main.py:49-85 | with no sampled size the result is an empty title and outline; otherwise a non-empty title is the text of the first line passing the title test on one of the first two pages, and every earlier page offered no title |
| Outline.ExtractTitleFound | main.py:66-85 | in a successful extraction, a page among the first two that offers a title after pages offering none gives the title |

## Left out

- Opening PDFs with pdfplumber and extracting words is not modelled. A document
  is given as its pages of words, and a word carries the attributes
  `extract_words` reports.
- The command-line driver `main` is not part of this model. That includes the
  input and output folders, the Docker path test, JSON writing and the dummy
  outline.
- Python floats are modelled as exact reals: no rounding in the gap sum, the
  mean or the 1.5 factor.
- Text.Lower: lowers ASCII capitals only; Python's `lower` also folds
  non-ASCII letters.
- Text.IsSpace: ASCII whitespace only; Python's `strip` and the pattern's `\s`
  also accept Unicode whitespace.
- Text.IsTitleText: cased characters are the ASCII letters only; Python's
  `istitle` and `isupper` also consider non-ASCII letters.
- Text.MatchesNumbered: digits are the ASCII digits only; the pattern's `\d`
  also accepts other Unicode digits.
- Layout.GroupLines: the tolerance is fixed at its default of 3, because no
  caller passes another value.
- Layout.Word: `x0` and `top` are always present, so the defaults 999 and 0
  at main.py:109 and 111 never apply.
- Layout.HasColor: `get_color_tuple` becomes the word's optional colour. An
  attribute that is not a list of numbers counts as absent.
- Title.FindTitle: reads the same words per page as the heading pass. The
  source extracts the first two pages again with only the size attribute,
  which can merge words that differ only in font or colour.
- Outline.GroupedLinesNonEmpty: `group_lines` never returns an empty line, so
  the skip of empty lines at main.py:103-104 is never reached; it is not
  modelled as a branch of the heading pass.
