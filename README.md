# Boggle board extraction, modelled in Dafny

The backend of this Boggle helper sends a photo of a board to a local
vision-language model. It turns the model's free-text reply into a
canonical board string such as `"abcd eqgh ijkl mnop"` (`extract_board`
in `main.py`). This project models that conversion and proves its
properties. The conversion has three stages:

- **Fence stripper** (`Fence`): if the reply contains a Markdown code
  fence, only the text after the first fence, up to the second fence or the
  end of the reply, is kept, and a leading `json` language tag is dropped.
  The result is then stripped of surrounding whitespace and handed to the
  JSON parser.
- **Canonicaliser** (`Canon`): every cell of the parsed grid is stripped and
  lower-cased, and the digraph tile `qu` becomes `q`. The cells of a row are
  concatenated, and rows are joined with single spaces. `Canon.Canonicalise`
  is the source's nested loop. It is proved equal to the specification
  function `Canon.Board`, and the properties are proved about `Board`.
- **Outcome** (`Extract`): any connection error raised while calling the
  inference server (`requests.exceptions.ConnectionError`: a refused or
  reset connection, a failed name lookup, a connect timeout) is a 503.
  Any other exception is a 500 carrying its text. A reply the parser
  rejects is a 500 "invalid JSON" and never a board.

`Text` models the Python string methods used, restricted to ASCII:
`str.strip()` (whitespace is characters 9-13 and 28-32, as `str.isspace`
defines it), `str.lower()` and `str.startswith`. `Wrappers` holds the
`Option` type that the parser returns.

`main.py` rejects neither an empty reply nor a ragged grid. An empty or
blank reply fails to parse and is reported as invalid JSON. A ragged
grid's rows are joined as they are. So `Canon.Board` is defined on every
grid, and the only failure `Extract.ExtractBoard` gives for a reply is the
parser's rejection.

## Model

| member | source | states |
|---|---|---|
| Text.Strip | main.py:84 | `str.strip()`: the result neither starts nor ends with whitespace and is no longer than its input |
| Text.StripParts | main.py:84 | the input is the stripped string with only whitespace on its left and on its right |
| Text.StripOfPadded | main.py:84 | a trimmed string padded with any whitespace strips back to itself, so stripping is fully determined |
| Text.StripPadded | main.py:80-84 | extra whitespace on either side never changes what stripping gives |
| Text.StripIdempotent | main.py:80-84 | stripping twice is stripping once |
| Text.Lower | main.py:94 | `lower()` on one character: a capital moves up by 32 to its lower-case letter, every other character is unchanged, the result is never a capital, and whitespace stays whitespace |
| Text.LowerStrNoUpper | main.py:94 | lower-casing a string without capitals leaves it unchanged, so lower-casing twice is lower-casing once |
| Text.LowerStr | main.py:94 | `str.lower()`: same length, each character lower-cased in place, no capital left |
| Fence.HasFence | main.py:78 | `"```" in raw_content`: some index starts three backticks |
| Fence.FindFence | main.py:78-79 | returns the first occurrence of three backticks at or after a position, with none before it; returns none if there is none |
| Fence.SplitOnFence | main.py:79 | `split("```")`: the pieces joined with the fence give back the reply, no piece contains a fence, there is exactly one piece iff the reply has no fence, and each separator is the leftmost fence after the piece before it (no fence starts inside a piece followed by the separator) |
| Fence.FirstFence | main.py:78-79 | the position of the leftmost fence: a fence starts there and at no earlier position |
| Fence.FencePiece | main.py:79 | `split("```")[1]` is the text after the first fence, up to where the next fence starts, or to the end of the reply if there is none; it holds no fence |
| Fence.FencePieceOf | main.py:78-79 | in a reply of the form fence, `p`, fence, anything, where `p` holds no fence and does not end in a backtick, the kept piece is exactly `p` |
| Text.StartsWith | main.py:80 | `startswith(p)`: `p` is no longer than `s` and is its prefix |
| Fence.DropJsonTag | main.py:80-81 | the four characters `json` are dropped from the stripped piece exactly when it starts with them; otherwise the piece is unchanged; no fence is introduced |
| Fence.NoFenceInStripped | main.py:80-81 | stripping a fence-free piece and dropping a prefix of the stripped text cannot create a fence |
| Fence.Unfence | main.py:78-81 | a reply without a fence is passed on unchanged; the text kept never contains a fence |
| Fence.ParserInput | main.py:84 | the parser receives a trimmed, fence-free string; for a fence-free reply that is just the stripped reply |
| Fence.StripTagged | main.py:80-81 | a piece made of whitespace, `json`, a payload and whitespace strips to `json` followed by a text that strips to the payload |
| Fence.FencedWithTag | main.py:78-84 | a fenced block tagged `json` (whitespace, then `json`, then a fence-free payload, then a non-empty run of whitespace) hands the parser the stripped payload |
| Fence.FencedWithoutTag | main.py:78-84 | an untagged fenced block (whitespace, then a fence-free payload whose stripped form does not start with `json`, then a non-empty run of whitespace before the closing fence) hands the parser the stripped payload |
| Fence.FenceRoundTrip | main.py:78-84 | wrapping a fence-free text in a fence with a `json` tag changes nothing the parser sees: it gets the stripped text, as if there were no fence |
| Canon.CleanCell | main.py:94-96 | one cell cleaned: stripped, lower-cased, and `qu` replaced by `q` (its properties are stated by `Canon.CleanCellSpec`) |
| Canon.CleanCellSpec | main.py:94-96 | a cleaned cell is trimmed and has no capital; it is `q` iff the stripped, lower-cased cell is `q` or `qu`; otherwise it is the stripped, lower-cased cell |
| Canon.DigraphTile | main.py:94-96 | any whitespace-padded `qu` in any case (`Qu`, `QU`, `qU`, `qu`) cleans to `q` |
| Canon.CleanSingle | main.py:94-96 | a one-character cell that is neither whitespace nor a capital is already clean |
| Canon.CleanPaddedSingle | main.py:94-96 | a one-character cell with any whitespace around it cleans to that character lower-cased |
| Canon.CleanRow | main.py:92-97 | the `clean_row` list: one cleaned cell per cell of the row, in order |
| Canon.RowString | main.py:99 | one board segment: the row's cleaned cells concatenated |
| Canon.Rows | main.py:90-99 | the `rows` list: one segment per grid row, in order |
| Canon.Concat | main.py:99 | `"".join`: the length of the result is the sum of the pieces' lengths |
| Canon.JoinRows | main.py:102 | `" ".join`: no rows give the empty string; otherwise the length is the sum of the rows' lengths plus one separator between each pair |
| Canon.Board | main.py:90-102 | the empty grid gives `""`; otherwise the board's length is the sum of the row-segment lengths plus the number of rows minus one |
| Canon.Canonicalise | main.py:90-102 | the nested loop computes exactly `Board(grid)`, row by row and cell by cell in order |
| Canon.SplitSpacesJoin | main.py:102 | splitting on single spaces undoes `" ".join`: joining the pieces of a split back with spaces gives the string that was split |
| Canon.SplitSpacesNoSpaceChar | main.py:102 | no piece of a split on single spaces contains a space |
| Canon.SplitAppend | main.py:102 | for a space-free prefix `a`, splitting `a` followed by `t` gives the split of `t` with `a` put in front of its first piece |
| Canon.SplitJoin | main.py:102 | a non-empty list of space-free rows survives joining and splitting unchanged |
| Canon.SegmentsAreRows | main.py:90-102 | row order is kept: for a non-empty grid whose cleaned rows contain no space, the board has one segment per row and segment k is row k's cleaned cells concatenated |
| Canon.ConcatExplode | main.py:99 | concatenating the one-character cells of a string gives back the string |
| Canon.RowStringOfExplode | main.py:94-99 | a segment without whitespace or capitals, read back as one-character cells and cleaned again, gives the same segment |
| Canon.ConcatNoUpper | main.py:99 | the concatenation of capital-free cells has no capital |
| Canon.JoinRowsRereadable | main.py:102 | joining rows that hold no capital and no whitespace but plain spaces gives a string of the same kind |
| Canon.SplitSpacesRereadable | main.py:102 | splitting such a string on spaces gives pieces of the same kind |
| Canon.RowStringNoUpper | main.py:94-99 | a board segment never holds a capital |
| Canon.Recanonicalise | main.py:90-102 | idempotence: when no cleaned row holds whitespace other than the plain space, reading the board back as one-character cells (a new row at each space) and canonicalising again gives the same board |
| Canon.CanonicalRow | main.py:92-99 | a row of single lower-case, non-space letters gives a segment as long as the row has cells, and splitting that segment into characters gives the row back |
| Canon.CanonicalExplode | main.py:99 | concatenating a row of canonical one-character cells and reading the result back as one-character cells gives the row |
| Canon.CanonicalRoundTrip | main.py:90-102 | a non-empty grid of canonical cells is recovered exactly from its board |
| Canon.CanonicalIdempotent | main.py:90-102 | for a grid of canonical cells, including the empty grid, canonicalising the board read back as cells gives the same board |
| Extract.ExtractBoard | main.py:69-112 | a `ConnectionError` of any kind (refused, reset, failed name lookup, connect timeout) gives 503; any other upstream exception gives 500 with its message; parser rejection gives 500 "invalid JSON"; parser acceptance gives `Board` of the parsed grid; a board is returned iff the reply parsed |

## Left out

- Building the request (`main.py` lines 36-67): the base64 encoding of the image, the prompt and the payload. These are I/O and constant data.
- The HTTP call to the inference server (lines 71-76) is not modelled as a call. `Extract.Upstream` stands for its three outcomes: a `requests.exceptions.ConnectionError` of any kind (refused or reset connection, failed name lookup, connect timeout), any other exception with its message (an error status, a body that is not JSON, a missing field), or the reply text.
- `json.loads` is the parameter `parse` of `Extract.ExtractBoard`, a partial function from text to a grid of strings. JSON parsing itself is not modelled.
- Extract.ExtractBoard: models parsed JSON values only as lists of lists of strings. In the source, another value either raises while it is being iterated or lower-cased, which ends as a 500 carrying the exception text, or is iterated as it is (a string row iterates its characters). These outcomes depend on Python's runtime types and are not modelled.
- Extract.ExtractBoard: for a parser rejection, the model records only the 500 status and the invalid-JSON classification. Line 110 catches that `HTTPException` and re-raises it as a new 500, and the model does not give that exception's detail text. That text is produced by the web framework's `str` of the exception, which is not part of this model.
- The diagnostic `print` calls at lines 86 and 111 are logging only.
- `solve_game` (lines 115-126), the FastAPI routes, the uvicorn entry point and the word-search library: they are outside the extraction core.
- `index.js` (the front end) is not part of this model.
- Text.Strip and Text.LowerStr: only ASCII is modelled. Python's `str.strip` and `str.lower` also handle Unicode whitespace and Unicode case, and these are not modelled.
- Canon.SegmentsAreRows: the source does not prevent a cleaned cell from holding an inner space (for example `"a b"`). Such a row splits into several segments when the board is read back, so this lemma requires that no cleaned row holds a space.
- Canon.Recanonicalise: a cleaned cell may hold inner whitespace other than a space (for example a tab in `"a\tb"`). Reading the board back turns that tab into a cell of its own, which cleaning empties, so `[["a\tb"]]` gives the board `"a\tb"` and then `"ab"`. The lemma therefore requires that no cleaned row holds whitespace other than the plain space.
