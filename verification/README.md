# Text transforms: the grid adapter and its neighbours

A Dafny model of the pure text transforms in `transforms.py`. Each transform maps one
string to another.

The centre of the model is the grid adapter `make_grid_transform`. It reads a text as a
grid of rows and cells. A tab anywhere in the input switches on tab-separated cells;
otherwise every character is its own cell. A CRLF anywhere switches the line terminator
from LF to CRLF. The adapter then applies a grid operation and writes the grid back in
the same layout. `transpose` (`zip(*rows)`) and `rotate` (`zip(*reversed(rows))`) are
the two transforms built on it.

Around it the model covers these string transforms:

- `answerize`, for ASCII text
- `reverse`
- the Nutrimatic query helpers `add ?` and `add A* between`
- the three line sorts: `alphabetical`, `by length` and `reverse`
- the path-separator tools `2unix url` and `2windows url`

Files:

- `text.dfy`: the Python string primitives everything rests on. `str.split` and
  `str.join` become `Split` and `Join`, `list(s)` becomes `Cells`, and `s[::-1]` and
  `reversed` become `Reverse`. It also holds the `'\r\n' in s` test.
- `grid.dfy`: grids as `seq<seq<string>>`, with `zip(*g)` as `Transpose` and
  `zip(*reversed(g))` as `Rotate`. It also proves shape, truncation, involution and
  period-four facts.
- `adapter.dfy`: layout detection, parse, serialise, the adapter itself, and the
  text-level `transpose` and `rotate`.
- `transforms.dfy`: `answerize`.
- `nutrimatic.dfy`: `add ?` and `add A* between`.
- `sorts.dfy`: the `_SORTS` table.
- `tools.dfy`: `2unix url` and `2windows url`.
- `examples.dfy`: worked instances, among them `transpose` of `a<TAB>b<LF>c<TAB>d`.

The adapter takes its grid operation as a Dafny function value (`Grid -> Grid`), just
as the Python closure takes any callable.

## Model

| member | source | states |
|---|---|---|
| Text.Split | transforms.py:13 | `data.split(sep)` always yields at least one piece. Joining the pieces with `sep` gives back the input. No piece contains `sep` anywhere, for separators of any length, so CRLF mode cuts at every `\r\n`. |
| Text.SplitCuts | transforms.py:12-13 | A text that contains the separator is cut into at least two pieces. |
| Text.Join | transforms.py:15 | `sep.join(parts)` of no parts is the empty text, and the joined text starts with the first part. |
| Text.JoinMultiset | transforms.py:15 | A join holds the parts' characters, plus one copy of the separator per pair of neighbouring parts. |
| Text.CharsPermutation | transforms.py:37-39 | Reordering the parts does not change their characters, counted with multiplicity. |
| Text.JoinPermutation | transforms.py:37-39 | Joining the same parts in another order gives a text with the same characters and the same length. |
| Text.Cells | transforms.py:13 | `list(line)` has one cell per character, and cell `i` is character `i`. |
| Text.SplitJoin | transforms.py:13-15 | Splitting on `c` a join with separator `c` recovers the parts, provided no part contains `c`. This is the `split`/`join` inverse the adapter relies on. |
| Text.JoinCells | transforms.py:13-15 | `''.join(list(line)) == line`: character mode loses nothing. |
| Text.CellsJoin | transforms.py:13-15 | `list(''.join(row)) == row` when every cell of the row is one character. |
| Text.JoinChars | transforms.py:15 | A character occurs in a join exactly when it occurs in a part, or in the separator with at least two parts. |
| Text.ContainsCrlf | transforms.py:12 | `'\r\n' in data` holds exactly when some position holds `\r` and the next holds `\n`. |
| Text.Reverse | transforms.py:64 | `x[::-1]`: position `i` of the result holds position `|x|-1-i` of the input, and the length is kept. |
| Text.ReverseReverse | transforms.py:64 | `reverse` is an involution. |
| Text.ReverseMultiset | transforms.py:64 | `reverse` keeps every character with its multiplicity. |
| GridAdapter.Newline.Text | transforms.py:12 | The terminator always ends in LF. CRLF is the two-character one, with a CR first; LF is one character. |
| GridAdapter.DetectLayout | transforms.py:11-12 | Tab mode holds if and only if the input contains a tab. The CRLF terminator is used if and only if the input contains `\r` directly followed by `\n`; otherwise LF. |
| GridAdapter.Parse | transforms.py:13 | The grid has one row per line of `data.split(new_line)`, so always at least one row. |
| GridAdapter.ParseRow | transforms.py:13 | In tab mode, `l.split('\t')` gives at least one cell, and no cell holds a tab. In character mode, `list(l)` gives one cell per character of the line. |
| GridAdapter.Serialise | transforms.py:15 | A grid with no rows is written as the empty text. Otherwise the text starts with the first row's cells joined by the delimiter. |
| GridAdapter.ApplyGrid | transforms.py:8-16 | `make_grid_transform(op)`: if `op` leaves the grid read from the text unchanged, the transform returns the text unchanged. |
| GridAdapter.TransposeText | transforms.py:66 | `transpose` of text with no tab and no CR gives text with no tab and no CR, so the output is read in the same character/LF layout. |
| GridAdapter.RotateText | transforms.py:65 | `rotate` of text with no tab and no CR gives text with no tab and no CR. |
| GridAdapter.JoinParseRow | transforms.py:13-15 | Re-joining the cells of one parsed line with the mode's delimiter gives the line back, in both modes. |
| GridAdapter.SerialiseParse | transforms.py:11-15 | For every text and every layout, serialising the parsed grid in that layout reproduces the text. This covers tab and character mode, LF and CRLF. |
| GridAdapter.IdentityRoundTrip | transforms.py:8-16 | The adapter built from the identity grid operation returns every input unchanged. |
| GridAdapter.ParseSerialise | transforms.py:11-15 | Take a grid whose cells are single characters other than tab, CR and LF, and serialise it in character/LF layout. That text is detected as character/LF layout and parses back to the same grid. |
| GridAdapter.ApplySerialised | transforms.py:8-16 | On the text of such a grid, the adapter computes exactly the grid operation: it reads the grid, applies the operation and writes the result in the same layout. |
| GridAdapter.PlainText | transforms.py:11-13 | Text with no tab and no CR is detected as character/LF layout. It parses to single-character cells that contain no tab, CR or LF. |
| GridAdapter.TransposePlain | transforms.py:66 | If every cell of the grid is plain (one character, not tab, CR or LF), every cell of its transpose is plain too. |
| GridAdapter.TransposeTextInvolution | transforms.py:66 | The text `transpose` applied twice returns the input. This holds for text with no tab and no CR whose lines all have the same non-zero length. |
| GridAdapter.RotatePlain | transforms.py:65 | If every cell of the grid is plain, every cell of its quarter turn is plain too. |
| GridAdapter.RotateTextStep | transforms.py:65 | On the text of a rectangular single-character grid, the text `rotate` is the grid `Rotate`. The result is again such a text, with its rows and columns swapped. |
| GridAdapter.RotateTextPeriodFour | transforms.py:65 | The text `rotate` applied four times returns the input, for text with no tab and no CR whose lines all have the same non-zero length. |
| Grid.MinWidth | transforms.py:66 | The length of the shortest row is a lower bound on the length of every row. |
| Grid.MinWidthAttained | transforms.py:66 | Some row is exactly that long. |
| Grid.Column | transforms.py:66 | The `i`-th tuple `zip` builds: cell `i` of every row, top to bottom. |
| Grid.Transpose | transforms.py:66 | `zip(*g)`: `zip()` of no rows is empty. Otherwise there are as many result rows as the shortest row has cells, and result row `i` is column `i`. |
| Grid.ZipStep | transforms.py:66 | `Transpose` agrees with `zip`'s step-by-step behaviour. It is empty as soon as one row is exhausted. Otherwise it emits the tuple of first cells, followed by the transpose of the remaining row tails. |
| Grid.TransposeCell | transforms.py:66 | Every transposed row has one cell per input row, and cell `[i][j]` of the transpose is cell `[j][i]` of the input. |
| Grid.TransposeTruncates | transforms.py:66 | A ragged grid transposes exactly like its truncation to the shortest row: extra cells are dropped silently. |
| Grid.TransposeShape | transforms.py:66 | Every row of the transpose has one cell per input row. |
| Grid.TransposeTwice | transforms.py:66 | Transposing twice gives the grid truncated to its shortest row. This holds for any grid with at least one row and no empty row. |
| Grid.TransposeInvolution | transforms.py:66 | Transposing twice restores a rectangular grid with at least one column. |
| Grid.TransposeRectangular | transforms.py:66 | An `n`-row, `w`-column grid with `w > 0` transposes to `w` rows of `n` cells. |
| Grid.Truncate | transforms.py:66 | Cutting to the first `w` columns keeps the row count and those cells, and makes every row `w` long. |
| Grid.TruncateRectangular | transforms.py:66 | Truncating a rectangular grid to its own width changes nothing. |
| Grid.Rotate | transforms.py:65 | `zip(*reversed(g))`: as many rows as the shortest row has cells. Row `i` is column `i` read from the bottom row up. |
| Grid.ColumnsReverse | transforms.py:65 | Reversing the rows keeps the shortest width. It turns every column into that column read bottom-up, which is why `rotate` is a clockwise quarter turn. |
| Grid.RotateRectangular | transforms.py:65 | An `n`-row, `w`-column grid with `w > 0` rotates to `w` rows of `n` cells. |
| Grid.HalfTurn | transforms.py:65 | A half turn: row `j` is row `n-1-j` of the input, reversed. |
| Grid.HalfTurnTwice | transforms.py:65 | Two half turns restore any grid. |
| Grid.RotateTwice | transforms.py:65 | Two quarter turns of a rectangular grid with a column are a half turn. |
| Grid.RotatedColumn | transforms.py:65 | Column `j` of a quarter-turned rectangular grid is row `n-1-j` of the input. |
| Grid.RotatePeriodFour | transforms.py:65 | Four quarter turns restore a rectangular grid with at least one column. |
| Transforms.UpperChar | transforms.py:62 | ASCII `str.upper` on one character: `a`..`z` move down 32 code points to `A`..`Z`; every other character is kept. |
| Transforms.Upper | transforms.py:62 | ASCII `x.upper()` keeps the length and upper-cases character by character. |
| Transforms.KeepAnswerChars | transforms.py:62 | `re.sub('[^A-Z0-9]', '', s)` never lengthens the text and leaves only `A`..`Z` and `0`..`9`. A single character is kept when it is an answer character and deleted otherwise. |
| Transforms.KeepAnswerCharsMembers | transforms.py:62 | A character occurs in the filtered text exactly when it occurs in the input and is an answer character. |
| Transforms.Answerize | transforms.py:62 | `answerize` never lengthens the text. Every character of its result is an upper-case ASCII letter or a digit. |
| Transforms.KeepAnswerCharsFixed | transforms.py:62 | The filter leaves text made only of answer characters unchanged. |
| Transforms.AnswerizeIdempotent | transforms.py:62 | `answerize` applied twice equals `answerize` applied once. |
| Transforms.KeepAnswerCharsConcat | transforms.py:62 | The filter distributes over concatenation. |
| Transforms.AnswerizeByCharacter | transforms.py:62 | A character-by-character reference for `answerize`. It distributes over concatenation. A single character becomes its upper-case form when that is a letter or digit, and disappears otherwise. |
| Nutrimatic.AddQuestion | transforms.py:32 | `add ?` is exactly twice as long as the query. Position `2i` holds query character `i` and position `2i+1` holds `?`. |
| Nutrimatic.Evens | transforms.py:32 | Taking every other character, from the first, gives `(n+1)/2` characters; character `i` is input position `2i`. |
| Nutrimatic.AddQuestionInverse | transforms.py:32 | Dropping the inserted `?`s recovers the query. |
| Nutrimatic.StarJoin | transforms.py:31 | `'A*'.join(x)` of a non-empty query has length `3n-2`. Position `k` holds query character `k/3`, `A` or `*` according to `k mod 3`. |
| Nutrimatic.AddStarBetween | transforms.py:31 | `add A* between` turns the empty query into `A*A*`. Otherwise the result has length `3n+2`. Position `k` holds query character `k/3` when `k mod 3 = 2`, `A` when it is 0, and `*` when it is 1. |
| Nutrimatic.Thirds | transforms.py:31 | Reading every third character from position 2 yields `n/3` characters, character `i` being position `3i+2`. |
| Nutrimatic.AddStarBetweenInverse | transforms.py:31 | Reading every third character back recovers any non-empty query. |
| Sorts.LexLe | transforms.py:37 | Python's `a <= b` on strings. A prefix of `b` is at most `b`. A string that has `b` as a proper prefix is above `b`. |
| Sorts.LexLeFirstDifference | transforms.py:37 | Otherwise the first position where the two strings differ decides, by code point, in both directions. |
| Sorts.LexLeTotal | transforms.py:37 | Python's string order is total. |
| Sorts.LexLeAntisymmetric | transforms.py:37 | Python's string order is antisymmetric. |
| Sorts.LexLeTransitive | transforms.py:37 | Python's string order is transitive. |
| Sorts.Insert | transforms.py:37 | Inserting into a sorted list keeps it sorted and adds exactly the one new line. |
| Sorts.Sort | transforms.py:37 | `sorted(lines)`: a permutation of the lines, as a multiset, in non-decreasing order. |
| Sorts.SortedUnique | transforms.py:37 | A multiset of lines has only one sorted arrangement. So `Sort` is the result of `sorted`, whatever algorithm it runs. |
| Sorts.SortAlphabetical | transforms.py:37 | `sort alphabetical` keeps the input's characters, as a multiset, and its length. A text without LF comes back unchanged. |
| Sorts.SortAlphabeticalLines | transforms.py:37 | `sort alphabetical` output lines are a multiset permutation of the input's LF-separated lines, in non-decreasing order. The line count is kept. |
| Sorts.SortAlphabeticalIdempotent | transforms.py:37 | `sort alphabetical` is idempotent. |
| Sorts.OfLength | transforms.py:38 | The lines of one given length, in their original order. |
| Sorts.InsertByLength | transforms.py:38 | Inserting by length keeps the lines ordered by length and adds exactly the one new line. A new line goes in front of the existing lines of its length. |
| Sorts.SortByLength | transforms.py:38 | `sorted(lines, key=len)`: a permutation, ordered by length, and stable. For every length, the lines of that length keep their input order. |
| Sorts.SortLinesByLength | transforms.py:38 | `sort by length` keeps the input's characters, as a multiset, and its length. A text without LF comes back unchanged. |
| Sorts.SortLinesByLengthLines | transforms.py:38 | `sort by length` output lines are a multiset permutation of the input lines, ordered by length, with the same relative order within each length. |
| Sorts.ReverseLines | transforms.py:39 | `sort reverse` keeps the input's characters, as a multiset, and its length. A text without LF comes back unchanged. |
| Sorts.ReverseLinesLines | transforms.py:39 | `sort reverse` output lines are the input lines in reverse order. |
| Sorts.ReverseLinesInvolution | transforms.py:39 | `sort reverse` applied twice returns the input. |
| Tools.ReplaceChar | transforms.py:47-49 | `s.replace(a, b)` for single characters keeps the length. Each position holds `b` where the input held `a`, and the input character elsewhere. |
| Tools.ToUnix | transforms.py:47 | `2unix url` leaves no backslash. |
| Tools.ToWindows | transforms.py:49 | `2windows url` leaves no forward slash. |
| Tools.ToWindowsAfterToUnix | transforms.py:47-49 | `2windows url` undoes `2unix url` if and only if the text had no forward slash. |
| Tools.ToUnixAfterToWindows | transforms.py:47-49 | `2unix url` undoes `2windows url` if and only if the text had no backslash. |
| Tools.ToolsIdempotent | transforms.py:47-49 | Both tools are idempotent. |
| Examples.AnswerizeExample | transforms.py:62 | A lower-case letter, a punctuation mark and a lower-case letter answerize to the two upper-case letters. |
| Examples.CrlfSplitExample | transforms.py:12-13 | `"a\r\nb".split("\r\n")` is `["a", "b"]`, for any two characters `a` and `b`. |
| Examples.SortExample | transforms.py:37 | `sorted(["banana", "apple", "cherry"])` is `["apple", "banana", "cherry"]`. |
| Examples.TransposeTabExample | transforms.py:66 | In tab mode, `transpose` of `a<TAB>b<LF>c<TAB>d` is `a<TAB>c<LF>b<TAB>d`. |

## Left out

- The case transforms (transforms.py:19-26): they rest on Unicode case rules, `str.title` word rules and `re` word-boundary matching.
- `from ANSWERIZE` and `from enumeration` (transforms.py:30, 33): these are not among the modelled Nutrimatic helpers. The second depends on `re.findall`.
- The GitHub and lobechat URL rewrites (transforms.py:43-46, 51): these are regex substitutions whose behaviour belongs to Python's `re`.
- `22unix url` and `2windows url2` (transforms.py:48, 50): multi-character replacements, not among the modelled tools.
- `linebreak 2comma` and `markdown link` (transforms.py:52-53): these depend on `int()` parsing, `str.split()` whitespace, `splitlines` line boundaries and `format` argument errors.
- `alphabet`, `length` and `unique` (transforms.py:61, 63, 67): the first two are constants or lengths. The output order of `unique` comes from a hash set and is unspecified.
- The `TRANSFORMS` table (transforms.py:56-68): a dictionary lookup with no logic of its own.
- Text.Split: the contract pins the pieces down only for separators that cannot overlap themselves, such as LF, tab and CRLF, the only ones the transforms use. For a separator like `aa` in `aaa`, both `["", "a"]` and `["a", ""]` meet the contract; the definition cuts at the leftmost occurrence, as Python does.
- Transforms.Upper: ASCII letters only; Python's `str.upper` also maps non-ASCII characters and can lengthen text (`ß` to `SS`).
- Transforms.Answerize: models ASCII upper-casing only. Python's `str.upper` also maps some non-ASCII characters to ASCII letters (dotless `ı` to `I`, long `ſ` to `S`), and it can lengthen text (`ß` to `SS`). Those characters survive Python's filter but are dropped here.
- GridAdapter.ParseSerialise: the parse-after-serialise direction is stated for character mode with LF terminators only. The serialise-after-parse round trip (`SerialiseParse`) covers every layout.
- GridAdapter.TransposeTextInvolution: the text-level involution and period-four facts are stated for character mode with LF. Tab-mode cells may themselves contain CR, so a text-level statement there needs more side conditions than the source promises.
- Python's `sorted` algorithm (Timsort) is not modelled. `Sorts.SortedUnique` shows that any correct sort yields the same lines. For `by length`, the stability condition fixes the result the same way.
