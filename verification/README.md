# A verified model of the Font Awesome LaTeX wrapper generator

The generator `tools/fa_latex_gen.py` reads a Font Awesome style sheet and
a list of renamed icons, then writes the style file `fontawesome.sty`. This
project models its core in Dafny and proves what that core promises.

What the core does:

- It turns each style-sheet rule's `content` value into a character-code
  literal, `\f000` giving `"F000` (`to_latex_hex`).
- It turns each `fa-` selector into a short name and a macro name,
  `fa-search-plus` giving `search-plus` and `\faSearchPlus` (`to_csnames`).
- It groups the icons by codepoint. The first rule seen for a codepoint
  decides that codepoint's icons: the first icon is the primary one and the
  rest are its aliases.
- It renders three blocks of definitions, each line preceded by a newline.
  The counters are checked only after a whole codepoint or directive. The
  primary block then gets an empty line when the count of all definitions,
  aliases included, is a multiple of ten. The alias block gets one when its
  alias count is, but only after a codepoint that has aliases. The
  compatibility block gets one when its directive count is. The blocks are:
  - the primary block, in ascending codepoint order;
  - the alias block;
  - the compatibility block, built from the lines of the renamed-icons
    file that match the directive pattern (`match_back_cap_line`).

Modules, one per file, in dependency order:

| module | file | models |
|---|---|---|
| `Outcomes` | `outcomes.dfy` | `Option` and `Result` |
| `Ascii` | `ascii.dfy` | `\s`, hex digits, and `upper`/`lower`/`title` on ASCII letters |
| `Codepoint` | `codepoint.dfy` | `to_latex_hex` and the pattern `(\\)(f[0-9a-fA-F]+)` |
| `Names` | `names.dfy` | `to_csnames` |
| `BackCap` | `back_cap.dfy` | `match_back_cap_line`: the pattern ``\*\s+`(\S+)`\s+->\s+`(\S+)`(.*)[,.](\s+)?`` as a scanner, and the pattern's language stated with explicit positions |
| `Grouping` | `grouping.dfy` | the loop over the rules that builds the codepoint table |
| `KeyOrder` | `key_order.dfy` | `sorted(hex_dict.keys())` |
| `Templates` | `templates.dfy` | the two `%`-format templates and named-field substitution |
| `Render` | `render.dfy` | the primary and alias statements built from the templates, the loop over the codepoints, and the line layout of all blocks |
| `Compat` | `compat.dfy` | the loop over the compatibility file and its statements |
| `Generate` | `generate.dfy` | the whole run, from rules and compatibility lines to the three blocks and the summary counters |

A style-sheet rule is given as the text of its first declaration's first
value token plus the values of its selector tokens. A compatibility line is
given as read from the file, line terminator included.

Three points of the code's behaviour that are easy to misread:

- The codepoint pattern needs a lower-case `f`, and one hex digit is enough
  (line 27). So `\F000` is rejected and `\f0` gives `"F0`.
- The comment of a directive is everything between the new name's closing
  backtick and the last `,` or `.` of the line. It keeps its leading space,
  so `` * `bar-chart` -> `bar-chart-o` (renamed for clarity). `` yields the
  comment ` (renamed for clarity)`.
- A rule whose `fa-` filter keeps no selector still enters the table with an
  empty icon list. The rendering loop then fails on it with an index error.
  The model returns `Err` carrying that codepoint: the least such codepoint,
  since the codepoints are rendered in ascending order.

## Model

| member | source | states |
|---|---|---|
| `Ascii.TitleFromAt` | tools/fa_latex_gen.py:96 | `title` upper-cases a letter that does not follow a letter and lower-cases a letter that does; every other character is kept |
| `Codepoint.FirstEscape` | tools/fa_latex_gen.py:27 | the search finds the leftmost index where a backslash, a lower-case `f` and a hex digit begin, or reports that there is none |
| `Codepoint.HexRunEnd` | tools/fa_latex_gen.py:27 | the greedy `[0-9a-fA-F]+` takes the whole run of hex digits |
| `Codepoint.ToLatexHex` | tools/fa_latex_gen.py:72-84 | the result is present exactly when the value holds a backslash, `f` and hex digit; it is `"F` followed by the upper-cased hex run of the leftmost occurrence, so every character after the quote is an upper-case hex digit |
| `Codepoint.ExampleLowerMarker` | tools/fa_latex_gen.py:74 | `\f000` gives `"F000`, also inside the quotes of a CSS string |
| `Codepoint.ExampleRejected` | tools/fa_latex_gen.py:27 | an upper-case `F`, no hex digit, or no backslash gives None |
| `Codepoint.ExampleSingleDigit` | tools/fa_latex_gen.py:27 | one hex digit after `f` is enough |
| `Names.SplitJoinRoundTrip` | tools/fa_latex_gen.py:96 | joining the pieces of `re.split('-', s)` with hyphens gives back `s`, and no piece holds a hyphen |
| `Names.ToCsnames` | tools/fa_latex_gen.py:87-98 | a name starting with `fa-` in any letter case loses exactly those three characters, and any other name is kept whole; the macro is `\fa` plus the title-cased short name with its hyphens removed, so it holds no hyphen |
| `Names.TitledPiecesDropHyphens` | tools/fa_latex_gen.py:96 | title-casing the hyphen-separated pieces one by one and joining them equals title-casing the whole name and deleting its hyphens |
| `Names.MacroDropsHyphens` | tools/fa_latex_gen.py:96 | the macro name is `\fa` followed by the title-cased short name without hyphens |
| `Names.ShortNameIsFixed` | tools/fa_latex_gen.py:92-95 | a short name is kept by the normaliser, and `fa-` plus it normalises to the same pair |
| `Names.SplitWithoutHyphens` | tools/fa_latex_gen.py:96 | a name without hyphens is a single piece |
| `Names.SplitAtHyphen` | tools/fa_latex_gen.py:96 | splitting `a-b` splits `a` and `b` independently |
| `Names.MacroOfTwoPieces` | tools/fa_latex_gen.py:89 | the macro of `a-b` (like `search-plus`) is `\fa` + `Title(a)` + `Title(b)` |
| `BackCap.OldGroupSound` | tools/fa_latex_gen.py:30 | the scanner's old-name positions satisfy ``\*\s+`(\S+)` `` and are followed by whitespace |
| `BackCap.OldGroupComplete` | tools/fa_latex_gen.py:30 | any positions satisfying that part, followed by whitespace, are the ones the scanner returns |
| `BackCap.ArrowSound` | tools/fa_latex_gen.py:30 | the scanner's arrow positions satisfy ``\s+->\s+` `` |
| `BackCap.ArrowComplete` | tools/fa_latex_gen.py:30 | any arrow positions satisfying that part are the scanner's |
| `BackCap.NameAndCommentSound` | tools/fa_latex_gen.py:30 | the scanner's new name and comment satisfy ``(\S+)`(.*)[,.]``, with the longest new name and then the longest comment, the choice greedy backtracking makes |
| `BackCap.NameAndCommentComplete` | tools/fa_latex_gen.py:30 | if that part can match, the scanner finds a match |
| `BackCap.MatchAtSound` | tools/fa_latex_gen.py:30 | a match found at an index is the whole pattern at that index, with the greedy choice of groups |
| `BackCap.MatchAtComplete` | tools/fa_latex_gen.py:30 | wherever the pattern can match, the scanner finds a match at that index |
| `BackCap.FirstHitIsFirst` | tools/fa_latex_gen.py:61 | the search result is the first present hit, and no hit comes before it |
| `BackCap.SearchFindsFirst` | tools/fa_latex_gen.py:61 | the search returns the match at the least index where one exists, or None when no index has one |
| `BackCap.NoMatchMeansNoShape` | tools/fa_latex_gen.py:61-69 | when the search finds nothing, the pattern matches nowhere in the line |
| `BackCap.LeftmostMatchAt` | tools/fa_latex_gen.py:61-66 | the first index with a match is the leftmost start of the pattern, and the groups there are the greedy ones |
| `BackCap.MatchBackCapLine` | tools/fa_latex_gen.py:56-69 | as `re.search` does, the result is the match at the first start index where the pattern matches, and None when no index has one |
| `BackCap.MatchBackCapLineSpec` | tools/fa_latex_gen.py:56-69 | None exactly when the pattern matches nowhere; otherwise the groups of the leftmost match with the greedy group choice, as (old, new, comment) |
| `BackCap.TokensAt` | tools/fa_latex_gen.py:30 | the groups of any match are non-empty names without whitespace and a comment without a newline |
| `BackCap.DirectiveTokens` | tools/fa_latex_gen.py:63-66 | the old and new names returned are non-empty and hold no whitespace; the comment holds no newline |
| `Grouping.FaSelectors` | tools/fa_latex_gen.py:126-127 | every selector kept starts with `fa-`, in lower case exactly |
| `Grouping.FaSelectorsMembers` | tools/fa_latex_gen.py:126-127 | a selector is kept exactly when it starts with `fa-` |
| `Grouping.FaSelectorsAppend` | tools/fa_latex_gen.py:126-130 | the filter keeps the selectors' order: filtering a concatenation concatenates the filtered halves |
| `Grouping.FaSelectorHasPrefix` | tools/fa_latex_gen.py:127-128 | a kept selector passes the case-insensitive test of `to_csnames` too, and loses exactly its `fa-` |
| `Grouping.IconsOf` | tools/fa_latex_gen.py:125-130 | one icon per `fa-` selector, in order; each is its selector without `fa-`, paired with the macro built from that short name |
| `Grouping.AddEntry` | tools/fa_latex_gen.py:121-132 | a rule without a valid codepoint changes nothing; a new codepoint gets the rule's icons; an existing codepoint keeps its icons |
| `Grouping.Group` | tools/fa_latex_gen.py:119-132 | a codepoint is in the table exactly when some rule carries it |
| `Grouping.FirstWithHexUnique` | tools/fa_latex_gen.py:131 | the first rule carrying a codepoint is determined by being first |
| `Grouping.FirstEntryWins` | tools/fa_latex_gen.py:131-132 | a codepoint's icons are those of the first rule carrying it; later rules do not change them |
| `Grouping.GroupStable` | tools/fa_latex_gen.py:131-132 | reading more rules never removes a codepoint or changes its icons |
| `Grouping.GroupRules` | tools/fa_latex_gen.py:117-132 | a codepoint is in the table exactly when some rule's value carries it |
| `Grouping.GroupRulesSpec` | tools/fa_latex_gen.py:117-132 | the table holds exactly the codepoints of the valid rules, each with the icons of the first rule carrying it |
| `KeyOrder.LessIsLexicographic` | tools/fa_latex_gen.py:140 | the order of `sorted`: a string sorts first when it has the smaller character at the first position where the two differ, or when it is a proper prefix of the other |
| `KeyOrder.LessIrreflexive` | tools/fa_latex_gen.py:140 | no string sorts before itself |
| `KeyOrder.LessTransitive` | tools/fa_latex_gen.py:140 | the order of byte strings is transitive |
| `KeyOrder.LessTotal` | tools/fa_latex_gen.py:140 | of two different strings, one sorts first |
| `KeyOrder.LessAsymmetric` | tools/fa_latex_gen.py:140 | two strings never sort before each other |
| `KeyOrder.Insert` | tools/fa_latex_gen.py:140 | inserting into a strictly ascending sequence keeps it strictly ascending and adds exactly the new string |
| `KeyOrder.LeastExists` | tools/fa_latex_gen.py:140 | every non-empty set of keys has a least key |
| `KeyOrder.SortedSet` | tools/fa_latex_gen.py:140 | reference order: the least key first, then the rest in order; strictly ascending and holding exactly the set |
| `KeyOrder.SortKeys` | tools/fa_latex_gen.py:140 | the keys in strictly ascending order, each once; equal to the reference order |
| `KeyOrder.SortedUnique` | tools/fa_latex_gen.py:140 | two strictly ascending sequences with the same elements are equal |
| `Render.PrimaryStatement` | tools/fa_latex_gen.py:22 | filling `latex_pattern` with the primary's internal name, the codepoint and the primary's macro, as lines 145-147 set them, gives the text that binds `faicon@<name>` to the glyph and defines the macro to typeset it |
| `Render.AliasStatement` | tools/fa_latex_gen.py:24 | filling `latex_aliases_pattern` with the alias's names and the primary's macro, as lines 156-159 set them, gives the text in which both the alias's internal name and its macro expand to the primary's macro |
| `Compat.CompatStatement` | tools/fa_latex_gen.py:190-200 | the compatibility statement is the alias statement of the old name's icon pointing at the new name's macro, followed by ` % ` and the comment exactly when the comment is not empty |
| `Render.LinesNonEmpty` | tools/fa_latex_gen.py:22-24 | no primary or alias statement is the empty line |
| `Render.RenderAliases` | tools/fa_latex_gen.py:155-168 | the inner loop appends one alias statement per alias, each pointing at the primary's macro, and joins the alias macros with `, ` |
| `Render.RenderItem` | tools/fa_latex_gen.py:142-176 | one codepoint contributes its primary line, with the alias comment when it has aliases, and its alias statements; an empty line follows in each block whose counter is a multiple of ten |
| `Render.RenderStep` | tools/fa_latex_gen.py:141-176 | one pass of the loop extends both blocks and both counters by one codepoint |
| `Render.RenderIcons` | tools/fa_latex_gen.py:134-176 | the loop fails exactly when some codepoint has no icon, at the first such codepoint; otherwise it renders the layout of both blocks; the counter of all definitions is the number of icons, and the alias counter is that minus one per codepoint |
| `Render.IconLinesArePrimaries` | tools/fa_latex_gen.py:148-150 | apart from the empty lines, the primary block is the primary line of every codepoint, in order |
| `Render.AliasLineCount` | tools/fa_latex_gen.py:155-165 | apart from the empty lines, the alias block holds one statement per icon beyond the primary of its codepoint |
| `Render.NoAliasesLayout` | tools/fa_latex_gen.py:149-176 | without aliases the primary block has one line per codepoint plus an empty line after every tenth, and the alias block is empty |
| `Render.LayoutNonBlank` | tools/fa_latex_gen.py:171-176 | the only empty lines of a block are the separators after full tens |
| `Render.SingleLayoutLength` | tools/fa_latex_gen.py:201-204 | with one line per entry and a separator after every tenth, a block of n entries has n + n/10 lines |
| `Compat.SomesMembers` | tools/fa_latex_gen.py:188-189 | the loop keeps a line's result exactly when the matcher returned one |
| `Compat.DirectivesMembers` | tools/fa_latex_gen.py:187-189 | a directive is rendered exactly when some line of the file yields it |
| `Compat.CompatStep` | tools/fa_latex_gen.py:188-204 | a line with a directive appends its statement, with the comment when it is not empty, and an empty line after every tenth; any other line adds nothing |
| `Compat.RenderCompat` | tools/fa_latex_gen.py:184-204 | the block is the layout of the statements of the matching lines, in file order, and the counter is their number |
| `Compat.CompatLineCount` | tools/fa_latex_gen.py:198-204 | the block has one line per directive plus an empty line after every tenth |
| `Compat.CompatLinesAreStatements` | tools/fa_latex_gen.py:191-200 | apart from the empty lines, the block is the statement of every directive, old name aliased to the new name's macro, in order |
| `Generate.ItemsNonEmpty` | tools/fa_latex_gen.py:144 | the lookup of the primary fails for some key exactly when some codepoint of the table has no icon |
| `Generate.FirstEmptyIsLeast` | tools/fa_latex_gen.py:140-144 | the first failing key in ascending order is the least codepoint without icons |
| `Generate.Generate` | tools/fa_latex_gen.py:117-209 | the run fails exactly when a codepoint has no icon, naming the least one; otherwise the primary and alias blocks follow the table in ascending codepoint order, the count of all icons is the number of icons over all groups, the unique icons counted in the summary are the table's codepoints, and the compatibility block and its counter come from the matching lines |

## Left out

- Parsing the style sheet with `tinycss` is not modelled. A rule arrives
  already reduced to its value text and its selector values. A rule without
  declarations, which makes the source fail at `rule.declarations[0]`, cannot
  be expressed.
- The clock (`get_current_date_time`) and the `git` and `uname` subprocesses
  are not modelled. Their text only appears in the output header.
- File I/O is not modelled: reading the style sheet, the template and the
  compatibility file, and writing the output. The compatibility file arrives
  as a sequence of lines.
- Substituting the blocks into the template file at line 221 is not
  modelled, because the template's text is not part of the model. It is
  Python `%`-formatting of that template:
  - each `%(name)s` placeholder takes a block or a stamp;
  - `%%` becomes `%`;
  - a missing key raises `KeyError`, and any other `%` raises `ValueError`
    or `TypeError`.
  The three blocks and the counters are the model's output.
- The diagnostics printed for rejected values and non-matching lines, and
  the summary print, are not modelled. The summary's numbers are fields of
  `Generate.Output`.
- Case mappings are modelled on ASCII letters only; every other character
  is kept. The compatibility lines are byte strings, whose `lower` and
  `title` touch ASCII letters only. Selector names come from the style-sheet
  parser as unicode. For those, `str(sel.value)` at line 127 raises
  `UnicodeEncodeError` on any non-ASCII character, so only ASCII selector
  names reach `to_csnames`, and on ASCII the unicode methods agree with the
  byte-string ones. Multi-byte encodings are not modelled.
- `Grouping.FaSelectors`: a selector name holding a non-ASCII character
  makes the source stop with `UnicodeEncodeError` at line 127. The model
  keeps such a name, filters it like any other and carries on.
