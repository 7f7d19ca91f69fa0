# Director analysis, modelled in Dafny

This project models the analysis layer of `director_analysis.py`. The script loads a JSON
document that maps film directors to aggregate figures: how many of their films are in
the IMDB top 1000, the average rating of those films, and per-decade buckets. It then
draws two charts. Between loading and drawing, three pieces of logic shape the data, and
they are what is modelled here:

- `analyze_directors(data, top_n)` keeps the directors with a positive `count_in_top1000`,
  in the document's insertion order. It projects each one to `{name, count, avg_rating}`,
  sorts by count with the largest first, and returns the first `top_n` entries. Python's
  sort is stable, so directors with equal counts stay in insertion order.
- `analyze_decades(data, director_name)` returns `None` for a name that is not in the
  document. Otherwise it keeps the director's decade buckets except `"unknown"` and
  decades whose integer value is 0 or less. It projects each bucket to
  `{decade, count, avg_rating}`, using 0 when the bucket has no rating, and sorts by the
  decade's integer value.
- The decade chart's file name is made from the director's name, with spaces and `/`
  replaced by `_`.

Files:

- `wrappers.dfy`: `Option`, standing for Python's `None`.
- `json_object.dfy`: a JSON object as a sequence of key/value pairs in insertion order
  (a Python `dict`), with `Get` for `key in o` and `o[key]`.
- `decade_label.dfy`: decade labels (`"unknown"` or an integer literal) and `ParseInt`,
  which plays the role of Python's `int`.
- `stable_sort.dfy`: the library's stable `list.sort(key=...)`. The sort is an insertion
  sort on a local sequence. Stability is stated key class by key class: for every key
  value, the elements with that key keep their order (`StablePermutation`). An
  independent selection sort (`SelectionSort`) is the reference definition. A sorted
  stable permutation is unique (`StableSortUnique`), so the insertion sort's result
  equals the reference's.
- `director_analysis.dfy`: the data model and the two analyses as methods with loops,
  the specification functions `Qualifying`, `Ranking`, `AnalyzableDecades` and
  `Timeline` that they are proved against, lemmas about those functions, and `SafeName`.

The methods' results are equal to functions of their inputs (`Ranking(data)[..n]` and
`Timeline(decades)`). So calling an analysis twice on the same data gives the same
result.

A reversed sort on the count (`reverse=True`) is modelled as an ascending sort on the
negated count (`ByCountDescending`). The two give the same order, ties included, because
Python's reversed sort also keeps equal elements in their original order.

Sorting on `int(decade)` makes the timeline non-decreasing, not strictly ascending: two
labels such as `"1990"` and `"01990"` have the same value (director_analysis.py:52,60).
The model proves non-decreasing order for every document. `TimelineStrict` proves strict
order when the labels are unique and no charted label has a leading zero.

## Model

| member | source | states |
|---|---|---|
| `DirectorAnalysis.Qualifying` | director_analysis.py:25-33 | no contract; defines the loop's list: the directors with `count_in_top1000 > 0`, in insertion order, each projected to name, count and rating (its properties are in `QualifyingMembers`) |
| `DirectorAnalysis.ByCountDescending` | director_analysis.py:36 | no contract; defines the sort key as the negated count, which stands for `key=count` with `reverse=True` (see the paragraph above) |
| `DirectorAnalysis.Ranking` | director_analysis.py:36 | no contract; defines the sorted list before the `[:top_n]` cut as the reference stable sort of `Qualifying` on that key (its properties are in `RankingMembers` and `RankingOrder`) |
| `DirectorAnalysis.AnalyzeDirectors` | director_analysis.py:22-39 | the result has `min(top_n, number of qualifying directors)` entries, with no padding; it is a prefix of the full ranking; counts are non-increasing; every entry has a positive count, and its count and rating are those of the record stored under its name |
| `DirectorAnalysis.QualifyingMembers` | director_analysis.py:27-33 | every director with a positive count is in the loop's list, and every entry of the list has a positive count and is the projection of some director's record |
| `DirectorAnalysis.RankingMembers` | director_analysis.py:29-39 | the sorted list is as long as the filtered list; it contains every qualifying director; each entry has a positive count and equals the projection of the record that the name looks up |
| `DirectorAnalysis.RankingOrder` | director_analysis.py:36 | the sorted list is non-increasing by count, and for every count the directors with that count keep their insertion order |
| `DirectorAnalysis.AnalyzeDecades` | director_analysis.py:41-61 | `None` exactly when no key of the document is the name; otherwise the director's timeline, with no `"unknown"` label and no decade of 0 or less, in non-decreasing order of decade |
| `DirectorAnalysis.Analyzable` | director_analysis.py:52 | no contract; defines the loop's test `decade != "unknown" and int(decade) > 0` |
| `DirectorAnalysis.RatingOrZero` | director_analysis.py:56 | no contract; defines `info["avg_rating"] if "avg_rating" in info else 0` |
| `DirectorAnalysis.AnalyzableDecades` | director_analysis.py:51-57 | no contract; defines the loop's list: the buckets that pass `Analyzable`, in the object's order, each projected to label, count and `RatingOrZero` (its properties are in `AnalyzableDecadesMembers`) |
| `DirectorAnalysis.DecadeValue` | director_analysis.py:60 | no contract; defines the sort key `int(x["decade"])` on a timeline entry |
| `DirectorAnalysis.Timeline` | director_analysis.py:59-60 | no contract; defines the sorted list as the reference stable sort of `AnalyzableDecades` on `DecadeValue` (its properties are in `TimelineContents` and `TimelineStrict`) |
| `DirectorAnalysis.AnalyzableDecadesMembers` | director_analysis.py:51-57 | a bucket is in the loop's list exactly when its label is not `"unknown"` and its decade is positive, and it appears there with its own label, count and rating-or-0 |
| `DirectorAnalysis.TimelineContents` | director_analysis.py:51-61 | the timeline keeps every other bucket; each entry has a label that parses to a positive integer and the count of its bucket; its rating is the bucket's rating when present and 0 otherwise; entries are non-decreasing by decade, and buckets with the same decade keep the order of the director's `decades` object (a stable permutation of the loop's list) |
| `DirectorAnalysis.AnalyzableDecadesDistinct` | director_analysis.py:51-57 | with unique bucket labels, no label occurs twice in the loop's list |
| `DirectorAnalysis.SameDecadeSameRow` | director_analysis.py:52-60 | with unique labels and no charted label with a leading zero, two charted buckets with the same `int(decade)` are the same bucket |
| `DirectorAnalysis.TimelineStrict` | director_analysis.py:59-60 | with unique labels and no charted label with a leading zero, the timeline is strictly ascending by `int(decade)` |
| `DirectorAnalysis.Replace` | director_analysis.py:176 | one-character `str.replace`: same length, every occurrence of the target becomes the replacement, every other character is kept |
| `DirectorAnalysis.SafeName` | director_analysis.py:176 | the sanitised name has no space and no `/`, has the input's length, turns each space or `/` into `_`, and keeps every other character |
| `DirectorAnalysis.ExampleRanking` | director_analysis.py:22-39 | for a document with one director "A" of count 5, the top-1 ranking is that director with its count and rating |
| `DirectorAnalysis.ExampleTimeline` | director_analysis.py:41-61 | for that director's buckets `"1990"`, `"2000"` and `"unknown"`, the timeline is the 1990 and 2000 buckets in that order, with their counts and ratings |
| `StableSort.Sort` | director_analysis.py:36 | the library sort used at lines 36 and 60: the result is sorted by the key, is a stable permutation of the input, and equals the reference `SelectionSort` |
| `StableSort.SelectionSortStable` | director_analysis.py:36 | the reference sort keeps, for every key, the input order of the elements with that key |
| `StableSort.SelectionSortSorted` | director_analysis.py:36 | the reference sort's result is in non-decreasing key order |
| `StableSort.StableSortUnique` | director_analysis.py:36 | two sorted stable permutations of one another are equal, so a stable sort's result is determined by its input |
| `StableSort.StableIsPermutation` | director_analysis.py:36 | a stable permutation has the same multiset of elements and the same length as the input |
| `JsonObject.Get` | director_analysis.py:43-47 | `None` exactly when no entry has the key; otherwise the value of an entry with that key |
| `JsonObject.GetEntry` | director_analysis.py:27-32 | in an object with unique keys, looking up an entry's key gives that entry's value |
| `DecadeLabel.ParseInt` | director_analysis.py:52 | no contract; defines Python's `int` on an optional minus sign followed by ASCII digits, read most significant digit first (its properties are in `ParseIntPositive` and `ParseIntInjective`) |
| `DecadeLabel.ParseIntPositive` | director_analysis.py:52 | `int(label) > 0` exactly when the label has no minus sign and has a digit other than 0 |
| `DecadeLabel.ParseIntInjective` | director_analysis.py:60 | two positive labels without a leading zero have the same `int` value only when they are the same string |
| `DecadeLabel.DigitsValueInjective` | director_analysis.py:60 | digit strings without a leading zero are determined by their value |
| `StableSort.DistinctPermutation` | director_analysis.py:60 | a permutation of a sequence without repeated elements has none either |

## Left out

- `load_data` (director_analysis.py:9-20): reading the file, `json.load`, the error
  messages and `sys.exit` are I/O. The model starts from the parsed document.
- `visualize_top_directors` and `visualize_director_decades` (director_analysis.py:63-126):
  chart drawing, `os.makedirs`, `savefig` and `show` are side effects on the screen and
  the file system. This includes the `:.1f` rating formatting.
- `main` (director_analysis.py:128-184), except the name sanitisation at line 176: the
  command-line options, path joins, the output path built at line 177, and the
  `if decades_data` test that skips the chart.
- The message printed for an unknown director (director_analysis.py:44) is output; only
  the `None` result is modelled.
- Ratings are JSON numbers that are only copied. They are modelled as `real`, and a
  missing decade rating becomes `0.0`. Floating-point behaviour is not modelled.
- Counts are unbounded integers. The test on them is `> 0`, so no range is assumed.
- `AnalyzeDirectors`: `top_n` is a `nat`. Python's slicing with a negative `top_n`
  (dropping entries from the end) is not modelled. The command line's default is 15.
- `AnalyzeDecades`: the director's decade labels must be `"unknown"` or an optional
  minus sign followed by ASCII decimal digits. Most other labels make `int` raise. The
  other forms `int` accepts are not modelled: a `+` sign, surrounding blanks, `_`
  separators, and decimal digits outside ASCII (such as Arabic-Indic `"١٩٩٠"` or
  full-width `"１９９０"`). Nor is the error path for literals longer than the
  interpreter's integer string conversion limit (4300 digits by default in Python 3.11
  and later and in the 3.7 to 3.10 security releases, configurable with
  `sys.set_int_max_str_digits`): on them `int` raises `ValueError`, while
  `AnalyzeDecades` reads them like any other label.
- `AnalyzeDecades` promises non-decreasing order of decade, as the code gives. It does
  not promise strictly ascending order, because two distinct labels can have the same
  `int` value (`"1990"` and `"01990"`). Strict order holds under the conditions of
  `TimelineStrict`: unique labels and no charted label with a leading zero.
- `AnalyzeDirectors` requires the document's keys to be unique, as a Python `dict`'s are.
  The JSON object is a sequence of pairs, which keeps the insertion order that
  `dict.items()` follows.
- `StableSort.Sort`: the library's sort algorithm is replaced by an insertion sort. Only
  its result is modelled, and a stable sort's result is unique.
