# csv2model rate-law resolver in Dafny

This project models the rate-law resolver of `csv2model`. The program reads three CSV files:
- a rate-law file (template id to template text);
- a parameter file (parameter name to value);
- a reaction file (substrates, products, rate-law id, modifiers, parameter refs).

It then prints one resolved rate law per reaction row.

For each row the resolver works in three steps:
1. It splits the species and parameter-ref fields on single spaces.
2. It looks up the template by id.
3. It rewrites the template in four passes, in this order:
   - `[S<n>]` becomes a substrate;
   - `[P<n>]` becomes a product;
   - `[MOD<n>]` becomes a modifier;
   - `{name}` becomes the values of the matching parameter refs.

Each pass re-splits the text left by the one before. It uses `re.split` with a pattern that has exactly one capturing group.

Modules:

- `Errors`: the exceptions that end a run (a KeyError for an unknown rate law or parameter, a ValueError from `int()`, an IndexError for a short row or a bad species index, a StopIteration on a file without its header row), and `Result`.
- `Text`: `str.split(' ')`, `int()` on digit strings and its inverse `Show`, and Python's `s[k:]`.
- `Tokenizer`: the four `re.split` patterns. `Split` scans left to right for leftmost, non-overlapping matches. It is proved correct in both directions:
  - its result has the `re.split` shape (literal text at even positions, token bodies at odd positions) and rebuilds the input;
  - it is the only decomposition of that shape that rebuilds the input.
- `Resolver`: the species passes and the parameter pass. Each is a specification function plus the loop the program runs, proved equal to it. It also holds the whole per-row resolution.
- `Tables`: the two dictionaries filled row by row from the rate-law and parameter files.
- `Csv2Model`: the reaction loop and the whole run. The loop prints rows in order until the first exception.
- `Scenarios`: concrete rows worked through the model. They include the worked example `{kcat}*[S1]` → `0.5*A` and the program's quirks.

Four behaviours of `csv2model.py` shape the model:
- Any exception ends the whole run; nothing is skipped per reaction.
- A parameter ref matches when its type (the text before its first `_`) is a *prefix* of a split segment, literal text included. Every matching ref contributes its value, in list order; there is no first-match cut-off.
- An unmatched `{name}` is printed as the bare `name`, because `re.split` drops the braces.
- A segment counts as a species token when it merely contains the head letters of its pass (`s`/`S`, `p`/`P`, `mod` in any case). So a species name inserted by an earlier pass is re-read by later passes.

## Model

| member | source | states |
|---|---|---|
| Text.SplitOn | csv2model.py:45-48 | `field.split(' ')` always has at least one piece |
| Text.SplitOnJoin | csv2model.py:45-48 | joining the pieces with the separator gives back the field, and no piece contains the separator |
| Text.SplitOnAbsent | csv2model.py:45-48 | a field without a space is a single piece; an empty field gives `[""]` |
| Text.SplitOnFirstPiece | csv2model.py:107 | the first piece of `ref.split('_')` is a prefix of the ref, holds no `_`, and is followed by `_` when shorter than the ref |
| Text.SplitOnPrefix | csv2model.py:107 | the first piece of `a + "_" + b` is `a` when `a` holds no `_` |
| Text.ParseInt | csv2model.py:65 | `int()` succeeds exactly on a non-empty ASCII digit string |
| Text.ParseShow | csv2model.py:65 | `int()` of the decimal text of `n` gives back `n` |
| Tokenizer.RunSpec | csv2model.py:58 | the greedy run of `\d` or `\w` covers only class characters and stops at the first character outside the class |
| Tokenizer.MatchAtExact | csv2model.py:58-100 | the match test at a position finds a match of the pattern exactly when one starts there, with its body length; at most one body length matches |
| Tokenizer.BodyAvoidsDelimiters | csv2model.py:58-100 | a token body never contains the pattern's opening or closing delimiter |
| Tokenizer.SplitFromCorrect | csv2model.py:58-100 | scanning from any position after a match-free stretch yields the `re.split` shape and rebuilds the rest of the text |
| Tokenizer.SplitCorrect | csv2model.py:58-100 | `re.split` returns an odd-length list with match-free literals at even positions and token bodies at odd positions; putting the delimiters back rebuilds the input |
| Tokenizer.SplitFromUnique | csv2model.py:58-100 | from any scan position inside the first literal, the scan returns the one decomposition of that shape that rebuilds the text |
| Tokenizer.SplitUnique | csv2model.py:58-100 | any decomposition with the `re.split` shape that rebuilds the input is the split, so the leftmost non-overlapping scan is fixed by the shape |
| Tokenizer.NoOpenNoToken | csv2model.py:58-100 | text without the opening delimiter holds no match |
| Tokenizer.SplitOfPlain | csv2model.py:58-100 | text with no match splits into itself alone |
| Tokenizer.SplitOfOneToken | csv2model.py:58-100 | one token between two match-free stretches splits into those three parts |
| Resolver.PyIndex | csv2model.py:66 | `names[i]` succeeds exactly for `-len <= i < len` and gives `names[i mod len]`, so negative indices count from the end; otherwise IndexError |
| Resolver.SubstituteSpecies | csv2model.py:58-96 | the loop building `newLaw` over the split pieces returns the species pass: each mentioning non-empty piece is replaced by `names[int(piece[h:]) - 1]`, every other piece is copied, and the first error ends the pass |
| Resolver.SpeciesStep | csv2model.py:62-68 | one piece's result extends the pass over the pieces before it, and its error is the error of the whole pass |
| Resolver.SubstituteAllSticky | csv2model.py:62-68 | once a prefix of the pieces fails, the whole pass fails with that error |
| Resolver.UnmentionedHasNoToken | csv2model.py:64 | a piece without the head letters of a pass holds no token of that pass |
| Resolver.SpeciesPassUnmentioned | csv2model.py:74-96 | text without the head letters of a pass (e.g. no `p`/`P`) comes through that pass unchanged, for any species list |
| Resolver.HeadDigitsSegment | csv2model.py:64-66 | head letters followed by the digits of `k` form a token body that resolves to `names[k - 1]` |
| Resolver.SubstituteAllMiddle | csv2model.py:62-70 | with plain text on both sides, a pass over three pieces keeps the outer text and substitutes the middle one |
| Resolver.SpeciesPassOneToken | csv2model.py:58-96 | a token with index `k` between plain text becomes the `k`-th name for `1 <= k <= len`, the last name for `k == 0`, and an IndexError for `k - 1` past the end |
| Resolver.SpeciesPassEmptyIndex | csv2model.py:65 | a token with no digits (`[S]`, `[P]`, `[MOD]`) fails with the ValueError of `int("")` |
| Resolver.Matching | csv2model.py:106-108 | a ref is among the matches of a segment exactly when it is one of the reaction's refs and its type is a prefix of the segment |
| Resolver.LookupAll | csv2model.py:109 | the lookups succeed exactly when every matching ref is in the parameter table; otherwise the KeyError names the first missing one |
| Resolver.MatchingPrefix | csv2model.py:106-110 | the matches among the first `j` refs come first, in list order, among all matches |
| Resolver.LookupAllSticky | csv2model.py:109 | once a lookup fails, the later lookups do not change the error |
| Resolver.ParamStep | csv2model.py:106-108 | ref `j` joins the matches exactly when its type starts the segment |
| Resolver.ParamFound | csv2model.py:108-110 | a matching ref found in the table appends its value |
| Resolver.ParamMissing | csv2model.py:108-109 | a matching ref missing from the table decides the segment with its KeyError |
| Resolver.ResolveParamSegment | csv2model.py:104-113 | the inner loop with its `parameterAdded` flag returns all matching values concatenated in ref order, or the segment itself when nothing matched, or the first KeyError |
| Resolver.SubstituteParameters | csv2model.py:100-116 | the parameter loop returns the parameter pass: empty pieces are skipped, every other piece is resolved as above, and the first KeyError ends the pass |
| Resolver.SubstituteParamsSticky | csv2model.py:103-113 | once a prefix of the pieces fails, the parameter pass fails with that error |
| Resolver.MatchingNone | csv2model.py:106-108 | when no ref type starts the segment, nothing matches |
| Resolver.ParameterPassUnmatched | csv2model.py:111-113 | an unmatched `{name}` is printed as the bare `name`, its braces dropped |
| Resolver.EmptyRefSegment | csv2model.py:106-109 | when the table has no key `""`, the ref `""` matches every non-empty segment, and its lookup fails |
| Resolver.SubstituteParamsEmptyRef | csv2model.py:103-113 | when the table has no key `""` and the refs are `[""]`, the pass fails with KeyError `""` exactly when some piece is non-empty, and gives `""` otherwise |
| Resolver.ParameterPassEmptyField | csv2model.py:48 | when the parameter table has no key `""`, an empty parameters field turns any non-empty text reaching the parameter pass into KeyError `""` |
| Resolver.ResolveReaction | csv2model.py:38-116 | one reaction: split the fields, look up the template (KeyError if unknown), then the substrate, product, modifier and parameter passes, each on the previous output; the first error wins |
| Tables.TableOf | csv2model.py:15-17 | the table builds exactly when every data row has at least two cells; otherwise the IndexError is that of the first short row |
| Tables.TableOfKeys | csv2model.py:15-17 | a key is in the table exactly when some data row has it as its first cell |
| Tables.TableOfLastWins | csv2model.py:15-17 | a row that no later row overrides leaves its second cell under its key |
| Tables.TableOfContents | csv2model.py:15-17 | the keys are exactly the rows' first cells, and each key holds the second cell of the last row that names it |
| Tables.TableOfSticky | csv2model.py:15-17 | once a row fails, the rows after it do not matter |
| Tables.BuildTable | csv2model.py:9-27 | the loop filling the dictionary after skipping the header row returns the table of the data rows; a file without a header row fails |
| Csv2Model.ReactionOf | csv2model.py:38-42 | a row yields a reaction exactly when it has at least five cells, and the reaction holds those cells in order |
| Csv2Model.EmitMeaning | csv2model.py:36-117 | what is printed is exactly the laws of the rows before the first failing row, in order; the failure, if any, is that row's error |
| Csv2Model.EmitSticky | csv2model.py:36-117 | after a failure nothing more is printed and the failure stands |
| Csv2Model.EmitAfterSuccess | csv2model.py:36-117 | when the first rows get through, the later rows print after them as if alone |
| Csv2Model.EmitAppend | csv2model.py:36-117 | the run over `a + b` is the run over `a`, followed, when that got through, by the run over `b` |
| Csv2Model.EmitStopsAt | csv2model.py:36-117 | a failing row after rows that got through ends the run with its error, whatever follows |
| Csv2Model.ResultsAppend | csv2model.py:36-117 | each row is resolved on its own, so the results of `a + b` are those of `a` followed by those of `b` |
| Csv2Model.ResultsAt | csv2model.py:36-117 | the result at position `k` is row `k` resolved alone |
| Csv2Model.ResultsAround | csv2model.py:36-117 | the results of a file are those before a row, the row's own, and those after it |
| Csv2Model.ResolveAllAppend | csv2model.py:36-117 | rows after a failing row are never looked at, and rows before it print as if alone |
| Csv2Model.ResolveAllStopsAt | csv2model.py:36-117 | the first failing row ends the reaction loop with its exception, after the laws of the rows before it |
| Csv2Model.ResolveAllStep | csv2model.py:36-117 | a row that resolves adds its law to what is printed |
| Csv2Model.ResolveLineOf | csv2model.py:38-116 | one pass of the reaction loop: a short row is an IndexError, otherwise the row is resolved |
| Csv2Model.PrintReactions | csv2model.py:36-117 | the reaction loop prints the rows' laws in order and stops at the first exception |
| Csv2Model.RunCsv2Model | csv2model.py:6-117 | the rate-law table, then the parameter table, then the reaction loop; a failing table ends the run before any reaction |
| Scenarios.SubstrateToken | csv2model.py:58-70 | `{kcat}*[S1]` with substrates `A` gives `{kcat}*A` |
| Scenarios.ZeroIndexIsLast | csv2model.py:65-66 | `[S0]` selects the last substrate |
| Scenarios.IndexPastEnd | csv2model.py:78-79 | `[P3]` with two products is an IndexError for index 2 |
| Scenarios.ProductLetterInName | csv2model.py:77-78 | the plain text `ATP` is read as a product token and fails in `int("TP")` |
| Scenarios.SpeciesNameReread | csv2model.py:58-83 | a substrate `ATP` inserted by the substrate pass is re-read by the product pass and fails |
| Scenarios.KcatType | csv2model.py:107 | the type of the ref `kcat_enz1` is `kcat` |
| Scenarios.KcatSegments | csv2model.py:104-113 | segments starting with `kcat` take the ref's value; others are copied |
| Scenarios.KcatSplit | csv2model.py:100 | `{kcat}*A` splits into `""`, `kcat`, `*A` |
| Scenarios.ParameterToken | csv2model.py:100-116 | `{kcat}*A` with ref `kcat_enz1` = `0.5` gives `0.5*A` |
| Scenarios.LiteralTextMatched | csv2model.py:104-110 | the literal text `kcat*2` starts with the type `kcat` and is replaced whole by the value |
| Scenarios.SameTypeConcatenated | csv2model.py:106-110 | two refs of the same type both contribute, side by side, whatever their values (`2.0` and `3.0` give `2.03.0`) |
| Scenarios.PlainAfterSubstrates | csv2model.py:77 | `{kcat}*A` mentions no product and no modifier |
| Scenarios.KcatRow | csv2model.py:36-117 | the row `A`, `B`, `mm`, ``, `kcat_enz1` with template `{kcat}*[S1]` and `kcat_enz1` = `0.5` prints `0.5*A` |

## Left out

- File opening, CSV parsing, the three "Opening …" messages, `print` and `sys.argv` (csv2model.py:8, 11-12, 20, 22-23, 31-33, 117, 121) are I/O. Each file is given as its parsed rows, and the output is the sequence of printed laws together with the exception that stopped the run, if any.
- Tables.BuildTable: parameter values are kept as the cell text; `float(line[1])` and the `str(float)` rendering at csv2model.py:27 and 109 are not modelled. So a value prints as written (`0.5`, where Python would print `5` as `5.0`), and a cell that `float()` rejects does not fail the build.
- Text.ParseInt: accepts exactly the non-empty ASCII digit strings. Python's `int()` also takes surrounding whitespace, a sign, underscores between digits and non-ASCII digits. Apart from non-ASCII digits, which `\d` in a token body also matches (see the Tokenizer line below), none of these can occur in a token body. All of them can occur in a plain-text piece that mentions the head letters. For example, the piece `S-1` reaches `int("-1")`: Python selects `names[-2]`, while the model reports a ValueError.
- Tokenizer: `\d` and `\w` are read as ASCII. Python's `re` also accepts other Unicode digits and letters.
- `csv2model.py` assigns no species indices and emits no equations; none of that is modelled.
