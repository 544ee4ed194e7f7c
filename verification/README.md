# tabpy scripts: a Dafny model

This project models the logic inside three TabPy scripts of the tabpy
repository and proves properties of it.

- **Week-range expansion** (`src/explode_week_range.py`). The "Week #"
  column is normalised: each field is stripped and every whitespace run
  becomes one space. The field is then split on commas. Each part becomes
  one of three things:
  - the integers `a..b` for a part `"a-b"`;
  - the integer `n` for a part `"n"`;
  - its stripped text, when Python's `int()` refuses it.

  Each table row is repeated once per resulting value, with that value in
  "Week #".
- **Graph-coordinate projection** (`main` in `src/nodes.py`). Rows are
  (from, to, base) triples. The rows whose base is exactly "original" form
  a simple undirected graph. A named layout places the graph's nodes.
  - Every row receives one of four values:
    - 0.0 when an endpoint is unplaced;
    - otherwise the degree of the node it reads (dimension "weight");
    - its x (dimension "x");
    - its y (any other dimension).
  - "Mirrored" rows read their to-node.
  - Degenerate input and unknown layouts give all-`None` results.
- **Radar coordinates** (`calculate_radar_coords` in `src/radar.py`).
  - Rows are grouped by data label, and each label's occurrences are
    counted.
  - Counts are min-max normalised.
  - Each label gets an angle from its index among the sorted distinct
    labels.
  - Every row receives its label's x, y or count. x and y are negated on
    "mirrored" rows.

Modules:

| module | file | models |
|---|---|---|
| `Basics` | `basics.dfy` | `Option`, `Result`, ASCII `str.lower()` |
| `Whitespace` | `whitespace.dfy` | `str.isspace()`, `str.strip()`, `re.sub(r'\s+', ' ', s)` |
| `Splitting` | `splitting.dfy` | `str.split(sep)` and `sep.join` |
| `IntParse` | `int_parse.dfy` | `int(text)` and `str(n)` |
| `WeekRange` | `week_range.dfy` | `explode_row` and `explode_week_range` |
| `Graph` | `graph.dfy` | `nx.Graph`, `add_edges_from`, `degree` |
| `Nodes` | `nodes.dfy` | `main` of `src/nodes.py` |
| `StringOrder` | `string_order.dfy` | Python's `str` order and the sorted keys of `groupby` |
| `Radar` | `radar.dfy` | `calculate_radar_coords` |

Behaviour of the code worth knowing, each point stated by the members
named:

- **Radar angles.** Angles follow the labels' sorted order, because
  `groupby` sorts its keys by default (`src/radar.py:65`). A label's angle
  index is its rank among the distinct labels. See `Radar.KeyPosition`
  and `Radar.AnglesDistinct`.
- **Mirrored graph rows.** A "mirrored" row reads its to-node. A mirrored
  row (B, A) therefore reads A: the swap at `src/nodes.py:102-103` undoes
  the reversal of the edge. See `Nodes.CircularScenario`.
- **Graph dimension.** There is no dimension error in the graph script.
  "x" selects the first coordinate, "weight" the degree, and anything
  else the second coordinate.
- **Graph errors.** An unknown layout gives `None` for every row, and is
  not an error. Lists of different lengths are truncated by `zip`, and
  are not an error.
- **Self-loops.** `degree` counts a self-loop twice, as networkx does.
  It is not the plain number of distinct neighbours.
- **Equal counts.** When every radar label occurs equally often, the
  min-max normalisation divides 0 by 0. The model keeps that as NaN and
  does not guard it away.
- **`None` endpoints.** A `None` endpoint on an original edge after the
  first one makes networkx raise. This is `Failure(NoneNode)`.
- **Long numerals.** `int()` refuses a numeral of more than 4300 digits.
  This is CPython's default `sys.int_info.default_max_str_digits`. Such a
  part is kept as text. See `IntParse.TooManyDigits` and
  `WeekRange.PartTooLong`.
- **Information separators.** `str.isspace()`, and so `strip()` and `\s`,
  count U+001C..U+001F as whitespace, but `int()` does not skip them and
  raises on any text holding one. The normalisation at
  `src/explode_week_range.py:8` turns them into plain spaces first, so no
  part of a normalised field holds one. See `IntParse.ParseStripped` and
  `WeekRange.NormalizedHasNoSeparators`.

## Model

| member | source | states |
|---|---|---|
| Basics.LowerChar | src/radar.py:52 | lower-casing maps an ASCII capital 32 code points up, 'A' (U+0041) to 'a' (U+0061), and leaves every other character alone; no capital remains |
| Basics.LowerEqual | src/nodes.py:56 | two dimensions lower-case to the same text exactly when they have the same length and differ, position by position, at most in ASCII case |
| Basics.LowerIdempotent | src/nodes.py:56 | lower-casing an already lower-cased dimension changes nothing |
| Whitespace.LeadingSpacesSpec | src/explode_week_range.py:16 | the run `strip` removes at the front is all whitespace and is maximal |
| Whitespace.TrailingSpacesSpec | src/explode_week_range.py:16 | the run `strip` removes at the back is all whitespace and is maximal |
| Whitespace.StripSpec | src/explode_week_range.py:16 | `part.strip()` is the slice between the two maximal whitespace runs and neither starts nor ends with whitespace |
| Whitespace.StripSplits | src/explode_week_range.py:16 | any text is its strip with a whitespace run on either side |
| Whitespace.StripBlank | src/explode_week_range.py:16 | a text of whitespace only strips to the empty text |
| Whitespace.StripPlain | src/explode_week_range.py:16 | a text with no whitespace at either end is its own strip |
| Whitespace.StripPadded | src/explode_week_range.py:16 | whitespace padding on either side of a text that neither starts nor ends with whitespace is exactly what `strip` removes |
| Whitespace.StripIdempotent | src/explode_week_range.py:16 | stripping twice equals stripping once |
| Whitespace.StripTrimStart | src/explode_week_range.py:16 | `lstrip` before `strip` changes nothing |
| Whitespace.StripTrimEnd | src/explode_week_range.py:16 | `rstrip` before `strip` changes nothing |
| Whitespace.StripVisible | src/explode_week_range.py:8 | stripping keeps every non-whitespace character, in order |
| Whitespace.VisibleAppend | src/explode_week_range.py:8 | the non-whitespace characters of a concatenation are those of each side, in order |
| Whitespace.CollapseEnds | src/explode_week_range.py:8 | `re.sub(r'\s+', ' ', s)` is empty only on empty input and starts (ends) with whitespace exactly when its input does |
| Whitespace.CollapseSingleSpaced | src/explode_week_range.py:8 | after the substitution every whitespace character is a plain space and no two are adjacent |
| Whitespace.CollapseVisible | src/explode_week_range.py:8 | the substitution keeps every non-whitespace character, in order |
| Whitespace.CollapseFixed | src/explode_week_range.py:8 | a single-spaced text is left alone by the substitution |
| Whitespace.CollapseRun | src/explode_week_range.py:8 | a whitespace run between two visible characters becomes exactly one space, so "Week  1" becomes "Week 1" and never "Week1"; the text on either side is substituted independently |
| Whitespace.NormalizeShape | src/explode_week_range.py:8 | the normalised field is single-spaced, has no whitespace at either end, and keeps every non-whitespace character in order |
| Whitespace.NormalFixed | src/explode_week_range.py:8 | a field already in normal form is unchanged by the normalisation |
| Whitespace.NormalizeIdempotent | src/explode_week_range.py:8 | normalising twice equals normalising once |
| Splitting.Split | src/explode_week_range.py:12 | `week.split(',')` gives one more piece than there are commas, no piece holds a comma, and joining the pieces with commas gives back the field |
| Splitting.SplitPrefix | src/explode_week_range.py:12 | a comma-free prefix ends up at the head of the first piece |
| Splitting.SplitJoin | src/explode_week_range.py:12 | splitting the comma-join of comma-free pieces gives back the pieces |
| Splitting.SplitConcat | src/explode_week_range.py:12 | the pieces of `a + ',' + b` are the pieces of `a` followed by those of `b` |
| IntParse.ParseInt | src/explode_week_range.py:20 | `int()` succeeds only on text holding a digit and no information separator (U+001C..U+001F), and without a minus sign it never yields a negative number |
| IntParse.ParseSigned | src/explode_week_range.py:23 | on text already stripped, `int()` likewise succeeds only when the text holds a digit, and without a minus sign never yields a negative number |
| IntParse.ShowNat | src/explode_week_range.py:23 | `str(n)` of a natural number is non-empty and all digits |
| IntParse.ShowNatValue | src/explode_week_range.py:23 | `str(n)` is a numeral whose value is `n` |
| IntParse.ShowNatPlain | src/explode_week_range.py:23 | `str(n)` holds no whitespace and no sign |
| IntParse.ParseShowNat | src/explode_week_range.py:23 | `int(str(n)) == n` for every natural `n` that `str` can render (at most 4300 digits) |
| IntParse.ParseShow | src/explode_week_range.py:20 | `int(str(n)) == n` for every integer `n` that `str` can render (at most 4300 digits; beyond that `str` itself raises) |
| IntParse.TooManyDigits | src/explode_week_range.py:20-26 | a numeral of more than 4300 digits is refused by `int()` (`ValueError`), whatever whitespace surrounds it |
| IntParse.ParsePaddedNat | src/explode_week_range.py:20 | `int()` ignores whitespace around a rendered number, except an information separator, which makes it raise |
| IntParse.ParseStripped | src/explode_week_range.py:20 | `int()` gives on a text the answer it gives on the text's strip, unless the text holds an information separator anywhere, which it refuses |
| IntParse.ParseTrimmed | src/explode_week_range.py:20 | stripping either end of a text `int()` accepts does not change its value |
| WeekRange.Range | src/explode_week_range.py:21 | `range(a, b + 1)` has `b - a + 1` elements (none when `a > b`), the `i`-th being `a + i` |
| WeekRange.ExplodePart | src/explode_week_range.py:15-26 | a part expands either to its stripped text alone or to non-negative integers only |
| WeekRange.PartWithoutDash | src/explode_week_range.py:22-26 | a part without a dash yields exactly one value |
| WeekRange.PartRange | src/explode_week_range.py:19-21 | a part `x-y` with dash-free sides whose two pieces after `strip` and `split('-')`, `x` without its leading and `y` without its trailing whitespace, `int()` accepts (with any sign, leading zeros, underscores or inner whitespace, as in " 5 - 7") expands to x, x+1, ..., y in ascending order, and to nothing when x > y |
| WeekRange.PartRangeRefused | src/explode_week_range.py:19-26 | a part `x-y` with dash-free sides one of whose two pieces `int()` refuses ("5-", "Week 1-2", "1-2a") is kept as its stripped text |
| WeekRange.PartSingle | src/explode_week_range.py:22-23 | a dash-free part whose stripped text `int()` accepts (" 5", "+5", "05", "1_0") expands to that value alone |
| WeekRange.PartRefused | src/explode_week_range.py:19-26 | a dash-free part whose stripped text `int()` refuses ("1a", "W3", "1.5", "1 2") is kept as that text |
| WeekRange.NormalizedHasNoSeparators | src/explode_week_range.py:8 | no information separator survives the normalisation, so `int()` and `strip()` agree on the whitespace of every part |
| WeekRange.PartTooLong | src/explode_week_range.py:22-26 | a dash-free numeral longer than the digit limit of `int()` is kept as its stripped text |
| WeekRange.PartWithoutDigits | src/explode_week_range.py:24-26 | a part with no digit, such as a word, an empty part or a lone dash, yields its stripped text alone |
| WeekRange.PartManyDashes | src/explode_week_range.py:19-26 | a part with two or more dashes yields its stripped text alone |
| WeekRange.PartLeadingDash | src/explode_week_range.py:19-26 | a part starting with a dash, such as "-5", yields its stripped text alone |
| WeekRange.ExplodePartValues | src/explode_week_range.py:15-26 | every value a part yields is a non-negative integer or a text |
| WeekRange.ExplodePartsValues | src/explode_week_range.py:11-28 | every value a field yields is a non-negative integer or a text |
| WeekRange.ExplodePartsAppend | src/explode_week_range.py:15-28 | expanding two runs of parts is expanding each and concatenating |
| WeekRange.FieldConcat | src/explode_week_range.py:11-28 | a field's expansion is the concatenation, in comma order, of the expansions on either side of any comma |
| WeekRange.FieldSinglePart | src/explode_week_range.py:12-15 | a field without commas is expanded as one part |
| WeekRange.EmptyFieldExample | src/explode_week_range.py:24-26 | an empty field yields one empty text |
| WeekRange.TrailingComma | src/explode_week_range.py:12-26 | a trailing comma adds exactly one empty text after the values of the field before it |
| WeekRange.SingleNumberExample | src/explode_week_range.py:12-23 | the field "7" yields the integer 7 alone |
| WeekRange.NegativeExample | src/explode_week_range.py:19-26 | "-5" is kept as the text "-5" |
| WeekRange.DoubleRangeExample | src/explode_week_range.py:19-26 | "1-2-3" is kept as the text "1-2-3" |
| WeekRange.ExpandRow | src/explode_week_range.py:34-37 | a row's copies, one per value, hold that value in "Week #" and every other column unchanged |
| WeekRange.ExplodeRowsAppend | src/explode_week_range.py:32-37 | the output for two stretches of rows is the output for each, concatenated in order |
| WeekRange.ExplodeRowsShape | src/explode_week_range.py:32-37 | every output row has the input's columns and agrees outside "Week #" with some input row |
| WeekRange.ExplodeRowsBlock | src/explode_week_range.py:32-37 | input row `k` contributes exactly its copies, one per value in order, right after the rows of the rows before it |
| WeekRange.ExplodeWeekRange | src/explode_week_range.py:6-41 | a missing "Week #" column and a non-text week cell are exactly the two failures; otherwise the result is rectangular, keeps the columns when non-empty, is the row-by-row expansion of the normalised fields, and each row agrees with some input row |
| Graph.BuildGraphSpec | src/nodes.py:74-75 | the graph built from the edges holds exactly their endpoints, and two nodes are neighbours exactly when some edge joins them in either direction |
| Graph.DegreeSpec | src/nodes.py:105-106 | `G.degree(n)` is the number of distinct neighbours of `n` in the edge list, plus one when some edge is a self-loop on `n` |
| Nodes.OriginalPairsSpec | src/nodes.py:64-68 | every edge comes from a row whose base is "original", every such row gives an edge, and there are no more edges than rows |
| Nodes.OriginalPairsAppend | src/nodes.py:64-68 | the edge list keeps row order: the edges of two stretches of rows are those of the first followed by those of the second |
| Nodes.NoOriginalRows | src/nodes.py:64-71 | rows none of whose bases is "original" give an empty edge list, the `not edges` case |
| Nodes.FirstOriginalPair | src/nodes.py:64-71 | `edges[0]`, checked for `None` at line 71, is the pair of the first row whose base is "original" |
| Nodes.OriginalNodesSpec | src/nodes.py:64-68 | a node is named by an original row exactly when some row whose base is "original" has it as an endpoint |
| Nodes.GraphNodesAreOriginalNodes | src/nodes.py:64-75 | once no original endpoint is `None`, the graph built from the edges has exactly the nodes named by the original rows |
| Nodes.OtherRowsAddNoEdges | src/nodes.py:64-68 | inserting a row whose base is not "original" anywhere leaves the edge list unchanged |
| Nodes.ProjectRow | src/nodes.py:97-109 | a row always gets a number, and 0.0 when either endpoint is `None` or unplaced |
| Nodes.Coordinates | src/nodes.py:48-111 | degenerate input gives `None` per `to_nodes` entry; a later `None` endpoint is exactly the failure; an unknown layout gives `None` per `from_nodes` entry; otherwise one number per zipped row |
| Nodes.GraphHoldsPlaced | src/nodes.py:74-93 | every placed node is a node of the graph of original edges |
| Nodes.MissingEndpointIsZero | src/nodes.py:98-100 | a row with an endpoint missing from the positions yields 0.0 whatever the dimension |
| Nodes.PlacedRowValue | src/nodes.py:102-109 | a placed row reads the to-node when mirrored, else the from-node; "weight" gives that node's distinct neighbours in the original edges plus one for a self-loop, "x" its first coordinate, anything else its second |
| Nodes.MirroredSwapsEndpoints | src/nodes.py:102-103 | a mirrored row (a, b) has the value of a non-mirrored row (b, a) |
| Nodes.DimensionCaseInsensitive | src/nodes.py:56 | the result depends on the dimension only through its lower-cased form |
| Nodes.SelectsFirstCoordinate | src/nodes.py:56-57 | exactly "x" and "X" select the first coordinate |
| Nodes.CircularScenario | src/nodes.py:95-111 | rows (A, B, original) and (B, A, mirrored) under the circular layout both read A's x |
| StringOrder.LessIrreflexive | src/radar.py:65 | no string sorts before itself |
| StringOrder.LessTransitive | src/radar.py:65 | the string order is transitive |
| StringOrder.LessTotal | src/radar.py:65 | two different strings are ordered one way or the other |
| StringOrder.LessAsymmetric | src/radar.py:65 | two strings are never ordered both ways |
| StringOrder.InsertSpec | src/radar.py:65 | inserting a key into sorted distinct keys keeps them sorted and adds exactly that key |
| StringOrder.SortedKeysSpec | src/radar.py:65 | the group keys are strictly ascending and are exactly the labels present |
| StringOrder.Index | src/radar.py:73-77 | a label's index points at that label |
| StringOrder.DistinctCard | src/radar.py:73-74 | `len(distinct_values)` counts a list without repeats fully |
| StringOrder.SortedIndexIsRank | src/radar.py:73-77 | in sorted distinct keys, the key at index `i` has exactly `i` keys below it |
| Radar.CountIsMultiplicity | src/radar.py:65 | a label's group size is its number of occurrences among the rows |
| Radar.SeqMin | src/radar.py:69-70 | `.min()` is at most every count and is one of them |
| Radar.SeqMax | src/radar.py:69-70 | `.max()` is at least every count and is one of them |
| Radar.Normalize | src/radar.py:68-70 | min-max normalisation is NaN exactly when the minimum and maximum counts coincide |
| Radar.AmplitudeRange | src/radar.py:68-70 | unless all counts are equal, a label's normalised count lies in [0, 1], is 0 exactly for the least frequent labels and 1 exactly for the most frequent; otherwise it is NaN |
| Radar.CountsRange | src/radar.py:68-70 | the column minimum and maximum are the least and greatest counts over the rows |
| Radar.ColumnBounds | src/radar.py:68-70 | any least and greatest row counts are the column's minimum and maximum |
| Radar.Turns | src/radar.py:77 | the angle `i * 2 * pi / n` of index `i < n` lies within one turn |
| Radar.KeyPosition | src/radar.py:65-79 | a label's angle index is its rank among the distinct labels, and there are as many keys as distinct labels |
| Radar.AnglesDistinct | src/radar.py:73-79 | each label's angle lies in [0, 1) turns and different labels get different angles |
| Radar.CalculateRadarCoords | src/radar.py:44-113 | lists of different lengths are exactly the shape error; otherwise a lower-cased dimension outside x, y, size is exactly the dimension error; otherwise one value per row |
| Radar.SizeIsCount | src/radar.py:110-111 | with "size", each row holds the number of rows sharing its label, never negated |
| Radar.CoordinateValue | src/radar.py:86-104 | with x or y, a row holds its label's normalised count times the cosine (sine) of the label's angle plus the label's noise, both from the label's rank, negated on mirrored rows |
| Radar.EqualCountsGiveNaN | src/radar.py:68-92 | when every label occurs equally often, every x and y is NaN |
| Radar.MirroredNegates | src/radar.py:99-104 | a mirrored row holds the negation of a non-mirrored row of the same label |
| Radar.SameLabelSameValue | src/radar.py:86-104 | rows with the same label and the same mirroring get the same value |
| Radar.IgnoresAmplitudeAndThreads | src/radar.py:55-62 | the contents of the amplitude and thread lists never affect the result |
| Radar.SizeExample | src/radar.py:65-111 | labels a, a, b with "size" give 2, 2, 1 |

## Left out

- The `cache_pickle` and `cache_json` decorators are left out. They are file I/O with md5 keys, and `cache_json` is commented off `main`.
- The write of `input.json` at `src/nodes.py:61-62` is left out. It is file I/O. When `./cache` is missing, this write raises `FileNotFoundError` before any coordinate is computed: `src/nodes.py` never creates the directory, and only `src/radar.py:13` does. The model assumes the write succeeds.
- WeekRange.ExplodeWeekRange: the assignment at `src/explode_week_range.py:8` also rewrites the caller's DataFrame in place, so its "Week #" column is left normalised. The model is pure and returns only the exploded table.
- The CSV read and write, and the fixed path around `explode_week_range`, are I/O.
- The TabPy glue is left out: the `_arg*` bindings, the unwrapping of singleton lists, the radar glue's `str(dimension[0])`, and the top-level `return`. It only reshapes the arguments.
- The networkx layout algorithms, the spring constant `k` and the seed are left out. Positions are an abstract map parameter, which is assumed to place only nodes of the graph, as every networkx layout does. The numerics are floating point inside a foreign library.
- Numpy's cosine and sine and the seeded normal noise are abstract functions held in `Radar.Trig`. Floating-point rounding is not modelled; arithmetic is on reals.
- Nodes.PlacedRowValue: the degree is stated as a real number. Python returns an `int` there, which only matters to the caller's typing.
- Radar.SizeIsCount: the count is stated as a real number. Python returns an `int` there, which only matters to the caller's typing.
- Nodes.ProjectRow: `str(dimension)` on non-string dimensions is not modelled; the dimension is a string.
- IntParse.ParseInt: non-ASCII decimal digits, which Python's `int()` also accepts, are not modelled. The week fields this serves are ASCII.
- IntParse.ParseInt: the digit limit is fixed at CPython's default of 4300. `PYTHONINTMAXSTRDIGITS`, `-X int_max_str_digits` and `sys.set_int_max_str_digits` can change it, and CPython before 3.10.7 has no limit.
- Basics.LowerChar: only ASCII capitals are lowered, where `str.lower()` lowers all of Unicode. For the keywords compared ("x", "y", "size", "weight"), full Unicode lowering gives the same equality outcome.
- Basics.LowerEqual: the equivalence is that of ASCII lowering. Python's `lower()` also equates other pairs, such as U+212A KELVIN SIGN and "k", which `LowerEqual` keeps apart.
- Radar.CalculateRadarCoords: labels are strings only. A `None` or NaN label, which `groupby` drops and the left merge then fills with NaN, is not modelled.
- WeekRange.ExplodeWeekRange: non-string week cells are modelled only as the error they cause. The DataFrame index and column order, and the dtype pandas infers for the mixed "Week #" column, are not modelled; a table is a set of columns and a sequence of rows.
- WeekRange.ExplodeWeekRange: when any week cell is not text the model fails with `NonTextWeek`. In pandas the `.str` accessor turns such a cell into NaN, and the later `split` raises, so both fail.
