# thebe tag: directive parsing and cell selection

A Dafny model of the deterministic core of the Pelican liquid tag `thebe`
(`liquid_tags/thebe.py`), which embeds a slice of a Jupyter notebook in a page:

- the **directive recognizer**: the `FORMAT` regular expression, written as a
  left-to-right recognizer over `seq<char>` (`Directive.Match`) that cuts the markup
  into a `Layout` (leading blanks, source token, gaps, optional `cells[start:end]`,
  optional `language[x]`, trailing blanks), proved sound and complete against the
  pattern (`Spell` puts a layout back together);
- the **parse-and-default step** (`Directive.ParseDirective`): start 0 and end
  `None` unless their group is non-empty, `int()` of the group otherwise (a bare `-`
  passes the pattern and raises), the language group passed on as written, and a
  `FormatMismatch` carrying the expected syntax when the pattern does not match;
  both errors the step raises, `FormatMismatch` and `InvalidLiteral`, are Python
  `ValueError`s;
- the **cell selector** `SubCell.preprocess`: a `NotebookNode` class whose
  `DeepCopy` gives a fresh node, and a `SubCell` class whose `Preprocess` replaces
  the copy's cells by Python's `cells[start:end]` (`Slice.PySlice`, with negative
  bounds counted from the end and clamping) and returns the resources unchanged;
- the **highlighter's language fallback** in `custom_highlighter`: `ipython` for a
  missing or empty language, and always the CSS class `highlight-ipynb`; Pygments
  itself is a function parameter;
- the **composition** (`Thebe`): the parsed start and end configure `SubCell`, the
  parsed language configures the highlighter.

Python's `re` semantics were resolved as follows. `\s` is the set of characters for
which Python 3's `str.isspace()` holds (`Text.IsSpace`); `[0-9]` and `[a-z]` are
ASCII ranges. Because `\S+` is greedy and any match with a shorter source token is
also a match with the whole token, the source is always the whole first token, so
the backtracking regex and the deterministic recognizer accept the same texts with
the same groups (`Directive.AcceptsExactly`, `Directive.MatchGroups`). `$` also
matches before a final newline, but the preceding `(\s+)?` can take that newline,
so neither acceptance nor the groups change. The language class
`-?[a-z0-9\+\-]*` equals `[a-z0-9+-]*`, since the class already holds `-`.

`FORMAT` fixes the order of the clauses, as `SYNTAX` (liquid_tags/thebe.py:97) shows
them: an optional `cells[start:end]` clause, then an optional `language[x]` clause.
Consequences of the pattern as written, each proved:

- a `language[..]` clause before a `cells[..]` clause is a syntax error
  (`Directive.LanguageBeforeCellsRejected`);
- the language group is any text over `[a-z0-9+-]`, so it may start with `-` or `+`
  and may be empty (`Directive.LanguageClauseKept`);
- a clause written directly against the file name is swallowed into the file name
  (`Directive.GluedCellsSwallowed`), and a markup made of a cells clause alone, such
  as `cells[2:5]`, is accepted with that clause as the file name and the default
  range (`Directive.LoneClauseIsSource`);
- a bare `-` index passes the pattern and then raises from `int()` instead of being
  a syntax error (`Directive.BareMinusRaises`).

## Model

| member | source | states |
|---|---|---|
| `Text.IsSpace` | liquid_tags/thebe.py:98 | the class `\s` of a Python 3 str pattern: the characters for which `str.isspace()` holds |
| `Text.IsToken` | liquid_tags/thebe.py:98 | the class `\S`: exactly the characters outside `\s` |
| `Text.IndexRun` | liquid_tags/thebe.py:98 | the greedy `-?[0-9]*` at the start of a text: the prefix it takes is an index text, it takes a leading `-`, and it stops only at the end or before a non-digit |
| `Text.Run` | liquid_tags/thebe.py:98 | a greedy `p*`: the result is the length of the longest prefix of the text in the class |
| `Text.RunOf` | liquid_tags/thebe.py:98 | a greedy run over `w + t` stops exactly after `w` when `t` does not continue it |
| `Text.IndexRunOf` | liquid_tags/thebe.py:98 | the greedy `-?[0-9]*` takes exactly the index text when it is followed by a character that cannot extend it |
| `Text.IntLiteral` | liquid_tags/thebe.py:114-120 | `int()` of an index text succeeds exactly when it is `-?[0-9]*` with at least one digit; the sign of the result follows the `-` |
| `Text.IntLiteralOfIntText` | liquid_tags/thebe.py:115 | reading back a written integer gives that integer, for negative numbers and 0 too |
| `Text.LeadingZero` | liquid_tags/thebe.py:115 | a leading zero does not change the value `int()` reads |
| `Directive.CellsClause` | liquid_tags/thebe.py:98 | a recognized `cells[start:end]` clause is a prefix of the text spelling exactly that clause, both groups matching `-?[0-9]*` |
| `Directive.CellsClauseOf` | liquid_tags/thebe.py:98 | a spelled cells clause is recognized with exactly its groups; text not starting with `c` has none |
| `Directive.LanguageClause` | liquid_tags/thebe.py:98 | a recognized `language[x]` clause is a prefix of the text spelling exactly that clause, `x` in `[a-z0-9+-]*` |
| `Directive.LanguageClauseOf` | liquid_tags/thebe.py:98 | a spelled language clause is recognized with exactly its group |
| `Directive.MatchRest` | liquid_tags/thebe.py:98 | a recognized tail (optional cells clause, blanks, optional language clause, blanks, end of text) spells exactly the text, each piece matching its part of FORMAT |
| `Directive.MatchRestOf` | liquid_tags/thebe.py:98 | a tail spelled in the recognizer's own form is read back with exactly its pieces |
| `Directive.Admissible` | liquid_tags/thebe.py:98 | each piece of a cut is in its part of FORMAT: blanks, a non-empty `\S+` token, `-?[0-9]*` groups, a `[a-z0-9+-]*` language |
| `Directive.Spell` | liquid_tags/thebe.py:98 | the text a cut stands for, with its pieces in FORMAT's order |
| `Directive.Match` | liquid_tags/thebe.py:98-104 | a match is a cut of the text along FORMAT whose pieces spell the text back, with the whole first token as source |
| `Directive.MatchNormal` | liquid_tags/thebe.py:98-104 | on a layout in the recognizer's normal form the recognizer returns exactly that layout |
| `Directive.Canonical` | liquid_tags/thebe.py:98 | any cut along FORMAT can be rewritten, with the same text, into one whose source is the whole first token (glued clauses join the token) |
| `Directive.MatchGroups` | liquid_tags/thebe.py:98-109 | a text spelled along FORMAT with a whole first token is matched with the same source, start, end and language groups |
| `Directive.AcceptsExactly` | liquid_tags/thebe.py:97-112 | the recognizer accepts a text if and only if it can be cut along FORMAT |
| `Directive.ToInt` | liquid_tags/thebe.py:115-120 | `int()` of a group: an index text fails exactly when it has no digit, with `InvalidLiteral` carrying the text; a success is the value `IntLiteral` reads |
| `Directive.Truthy` | liquid_tags/thebe.py:114-122 | Python truthiness of a group: present and not empty |
| `Directive.StartIndex` | liquid_tags/thebe.py:114-117 | an absent or empty start group gives 0; a non-empty one gives its `int()` value exactly when `int()` can read it, and raises `InvalidLiteral` on it otherwise |
| `Directive.EndIndex` | liquid_tags/thebe.py:119-122 | an absent or empty end group gives None; a non-empty one gives `Some` of its `int()` value exactly when `int()` can read it, so `0` stays `Some(0)`, and raises `InvalidLiteral` on it otherwise |
| `Directive.Interpret` | liquid_tags/thebe.py:105-122 | the directive keeps the source and language groups; only an index conversion can fail |
| `Directive.ParseDirective` | liquid_tags/thebe.py:103-122 | a syntax error, carrying the expected-syntax message, is raised exactly when FORMAT does not match; a parsed source is a non-empty token without blanks |
| `Directive.ParseIsInterpret` | liquid_tags/thebe.py:103-122 | a text spelled along FORMAT is parsed as the defaults step applied to its groups |
| `Directive.IndexGroup` | liquid_tags/thebe.py:114-120 | a non-empty index group fails in `int()` exactly when it is a bare `-` |
| `Directive.InterpretGroups` | liquid_tags/thebe.py:114-122 | absent or empty start gives 0, absent or empty end gives None, a non-empty group gives its `int()`; only a bare `-` raises |
| `Directive.ParseSpelled` | liquid_tags/thebe.py:103-122 | the full defaults table for any text spelled along FORMAT, including which texts raise |
| `Directive.SpellCells` | liquid_tags/thebe.py:98 | a token, a blank and a cells clause spell the expected text |
| `Directive.ParseCells` | liquid_tags/thebe.py:114-125 | a token, a blank and a cells clause with well-formed bounds parse exactly as the defaults step reads that layout |
| `Directive.NoClauseDefaults` | liquid_tags/thebe.py:105-122 | a bare file name gives start 0, end None, language None |
| `Directive.EmptyRangeDefaults` | liquid_tags/thebe.py:114-122 | `cells[:]` gives the same defaults as no cells clause |
| `Directive.ExplicitRange` | liquid_tags/thebe.py:114-122 | `cells[a:b]` gives start a and end b for all integers, so an end of 0 stays 0 |
| `Directive.StartOnly` | liquid_tags/thebe.py:114-122 | `cells[a:]` gives start a for every integer a and leaves the end None |
| `Directive.LanguageClauseKept` | liquid_tags/thebe.py:103-109 | `language[x]` gives language x, and `language[]` the empty string |
| `Directive.BareMinusRaises` | liquid_tags/thebe.py:114-120 | `cells[-:]` and `cells[:-]` pass the pattern and raise from `int()` on `-` |
| `Directive.BareMinusStart` | liquid_tags/thebe.py:114-115 | `cells[-:]` raises from `int()` of the start |
| `Directive.BareMinusEnd` | liquid_tags/thebe.py:119-120 | `cells[:-]` raises from `int()` of the end |
| `Directive.GluedCellsSwallowed` | liquid_tags/thebe.py:98 | a cells clause with no blank before it becomes part of the source and selects nothing by itself |
| `Directive.LoneClauseIsSource` | liquid_tags/thebe.py:98-122 | a markup made of a cells clause alone is accepted with the clause as the file name, start 0 and end None |
| `Directive.Refused` | liquid_tags/thebe.py:103-112 | a text the pattern refuses raises the `ValueError` modelled as `FormatMismatch`, with the expected-syntax message |
| `Directive.SwappedRefusedByPattern` | liquid_tags/thebe.py:98 | the pattern refuses a token, a blank, a language clause, a blank and a cells clause |
| `Directive.LanguageBeforeCellsRejected` | liquid_tags/thebe.py:98-112 | a language clause before a cells clause is a syntax error |
| `Directive.ReadHead` | liquid_tags/thebe.py:98 | leading blanks, a whole first token and blanks are read off the front exactly as spelled |
| `Directive.MatchOfHead` | liquid_tags/thebe.py:98 | after leading blanks, a whole first token and blanks, the text matches exactly when the rest matches the tail of FORMAT |
| `Directive.RefusedTail` | liquid_tags/thebe.py:98-112 | when what follows the first token and a blank does not start with a blank and cannot be read as the tail of FORMAT, the whole text is refused |
| `Directive.TailOfSwapped` | liquid_tags/thebe.py:98 | after a language clause and a blank, a following cells clause is left unconsumed, so the tail is refused |
| `Slice.NormIndex` | liquid_tags/thebe.py:75 | a slice bound lies in [0, n]; a non-negative bound is capped at n, a negative one counts back from the end and stops at 0 |
| `Slice.SliceStart` | liquid_tags/thebe.py:75 | the start of `slice.indices`: a missing start is 0, a given one is capped at n or counted back from the end and stopped at 0 |
| `Slice.SliceStop` | liquid_tags/thebe.py:75 | the stop of `slice.indices`: a missing stop is n, a given one is capped at n or counted back from the end and stopped at 0 |
| `Slice.PySlice` | liquid_tags/thebe.py:75 | the slice has length max(0, stop - start) of the normalized bounds, and its element k is the original element start + k |
| `Slice.IndexRangeAt` | liquid_tags/thebe.py:75 | `range(lo, hi)` has max(0, hi - lo) elements, element k being lo + k |
| `Slice.PickRange` | liquid_tags/thebe.py:75 | picking the positions `range(lo, hi)` gives the contiguous sub-list, or nothing when lo >= hi |
| `Slice.SliceIsPick` | liquid_tags/thebe.py:75 | the slice is the list of elements at `range(*slice(start, end).indices(n))` |
| `Slice.SliceWhole` | liquid_tags/thebe.py:75 | `[0:]` and `[:]` keep every element |
| `Slice.SliceLast` | liquid_tags/thebe.py:75 | `[-k:]` keeps the last k elements, or all of them when there are fewer |
| `Slice.SliceCrossed` | liquid_tags/thebe.py:75 | a start at or after the stop gives an empty list, not an error |
| `Slice.SliceFromEnd` | liquid_tags/thebe.py:75 | a negative bound within range means the bound n + i |
| `Notebook.NotebookNode.constructor` | liquid_tags/thebe.py:159 | a node built from a document holds exactly that document |
| `Notebook.NotebookNode.DeepCopy` | liquid_tags/thebe.py:69 | the copy is a new object with equal content |
| `Notebook.SubCell.constructor` | liquid_tags/thebe.py:63-66 | the trait defaults: start 0, end None |
| `Notebook.SubCell.Configured` | liquid_tags/thebe.py:134-137 | the traits as configured |
| `Notebook.SubCell.Preprocess` | liquid_tags/thebe.py:68-77 | returns a fresh copy whose cells are `cells[start:end]` and whose other data are the original's; the resources come back unchanged and the input notebook is not modified |
| `Highlight.Lexer` | liquid_tags/thebe.py:88-89 | the lexer is never empty; it is the language when that is a non-empty string and `ipython` otherwise |
| `Highlight.CustomHighlighter` | liquid_tags/thebe.py:86-91 | the output is Pygments' output with the CSS class `highlight-ipynb` and a non-empty lexer |
| `Thebe.SelectedCells` | liquid_tags/thebe.py:103-137 | the selection fails exactly when the parse fails, with the same error |
| `Thebe.Convert` | liquid_tags/thebe.py:103-137 | parse errors are raised before anything else; otherwise a fresh notebook holding the selected cells and the original's other data, with the parsed source and language, and the input unchanged |
| `Thebe.HighlightFor` | liquid_tags/thebe.py:124-125 | a highlighter exists exactly when the markup parses |
| `Thebe.SelectedSpelled` | liquid_tags/thebe.py:103-137 | for every text spelled along FORMAT: the tag keeps `cells[start:end]` at the start and end the parse step gives, and otherwise raises the parse step's error |
| `Thebe.HighlightSpelled` | liquid_tags/thebe.py:124-125 | for every text spelled along FORMAT that parses: Pygments gets the class `highlight-ipynb` and the lexer chosen from the language group as written |
| `Thebe.FullRangeKeepsAll` | liquid_tags/thebe.py:114-122 | `cells[:]` and no cells clause both select every cell |
| `Thebe.ExplicitRangeSelects` | liquid_tags/thebe.py:114-122 | `cells[a:b]` selects Python's `cells[a:b]` |
| `Thebe.LastTwoCells` | liquid_tags/thebe.py:114-122 | `cells[-2:]` selects the last two cells |
| `Thebe.LanguageReachesHighlighter` | liquid_tags/thebe.py:124-125 | no language clause or `language[]` gives Pygments the `ipython` lexer, `language[x]` gives it `x`, always with the class `highlight-ipynb` |

## Left out

- Reading the notebook: the existence check, the file read and the JSON parse (liquid_tags/thebe.py:130-131, 154-159) are file I/O and a foreign parser; `Thebe.Convert` takes the parsed notebook as a parameter, so the "file could not be found" error is not modelled.
- `os.path.join('content', nb_dir, src)` (line 128): its meaning belongs to the host's path library.
- The exporter, its configuration object and template (lines 133-151, 161), and `htmlStash.store` and the configuration lookups (lines 127, 150, 165): foreign library and host-pipeline collaborators. The exporter is given the whole parsed notebook and the start and end as configuration, and runs `SubCell` itself; `Thebe.Convert` returns what that `SubCell` step produces, with its `resources` parameter standing for the exporter's own resources dictionary.
- Pygments (`_pygments_highlight`, `HtmlFormatter`, lines 87, 90) is the uninterpreted parameter `pygments`; `HtmlFormatter` is reduced to its `cssclass` option.
- The IPython version checks and every `IPYTHON_VERSION < 3` or `< 2` branch, including the per-worksheet loop (lines 32-35, 70-73, 142-145, 156-157): line 34 raises unless the version is at least 3, so these branches never run.
- The traitlets validation behind `SliceIndex` (line 58): a slice index is `Option<int>`.
- The tag registration (lines 101, 171) and the `call = preprocess` alias (line 79).
- `custom_highlighter`'s unused `metadata` parameter and its default `language='ipython'`: the tag always passes the language explicitly.
- `int()` forms that the pattern never lets through (a `+` sign, surrounding blanks, underscores, non-ASCII digits) are not modelled.
- Under Python 2 without the `re.UNICODE` flag, `\s` would be only the six ASCII blanks; the model uses Python 3's Unicode `\s`.
- Cells and notebook metadata are immutable values (outputs as strings, metadata as string maps), so a deep copy is a copy of the fields; aliasing inside cells is not modelled.
- Highlight.CustomHighlighter: its own contract fixes only the CSS class and that the lexer is non-empty; which lexer is used is stated by `Highlight.Lexer` and `Thebe.LanguageReachesHighlighter`.
