# Lien waiver generator — a Dafny model of its text logic

The lien waiver generator is a single Streamlit script,
`lien_waiver_github_project/app.py`. It does the following:

- lists the `.txt` templates in its `templates` folder;
- lets the user pick one and fill in fourteen fields;
- reformats the six amount fields as dollar amounts;
- renders the template with Jinja2;
- lays the rendered text out as a PDF, with a bold centred header and one preformatted paragraph per line;
- offers the PDF for download.

This project models the sequential text logic inside that script and proves
what it guarantees:

| module | file | models |
|---|---|---|
| `Text` | `text.dfy` | the parts of Python's `str` the script relies on: `isspace` (CPython's full whitespace set), `strip()`, a one-character `replace`, and `splitlines()` with all of Python's line boundaries (`\n`, `\r`, `\r\n`, `\x0b`, `\x0c`, `\x1c`-`\x1e`, `\x85`, `\u2028`, `\u2029`) |
| `Currency` | `currency.dfy` | `format_currency`. The grammar `float()` accepts is a predicate: surrounding whitespace (every `isspace` character except the ASCII separators U+001C-U+001F, which CPython's `float` does not skip), a sign, `inf`/`infinity`/`nan`, digits with `_`, a `.` and an exponent. The rendering `f"${n:,.2f}"` is modelled exactly for strings of digits up to 2^53, where the double is exact |
| `Fields` | `fields.dfy` | the two normalisation loops over the field dictionary: reformat the six amount keys, then replace `None` by `""`. A missing amount key raises `KeyError` |
| `Flowables` | `flowables.dfy` | splitting the rendered text into lines, the header search that `pop`s the first non-blank line, tab expansion, and one block per remaining line |
| `Catalog` | `catalog.dfy` | the `TEMPLATES` dictionary built from a directory listing with `os.path.splitext(f)[0]` as key, and the download file name |
| `App` | `app.dfy` | the "Generate PDF" handler composed from the above, with file reading, Jinja2 rendering and non-exact float rendering as parameters |

The imperative parts of the script are methods proved against specification functions:

- `FormatAmounts` and `ReplaceNones` contain the two dictionary loops, and `NormaliseFields` runs one after the other.
- `PopHeader` contains the search loop with its `pop` and `break`.
- `AppendBody` contains the append loop.
- `LayOut` strings `PopHeader` and `AppendBody` together.

The expression-only parts are functions: `format_currency`, the comprehension and the file name.

Behaviour of the code that the model keeps:

- When every line is blank there is no header. Every line still becomes a body block.
- A stripped non-blank line is never empty, so the `if header_line:` guard always holds once a line was found.
- `format_currency` does not strip `$` or `,` before parsing. `"$100"` and `"1,000"` come back unchanged.
- A field dictionary without one of the six amount keys raises `KeyError` at the first missing key, in loop order.
- Python's `os.path.splitext` ignores leading dots. `.txt` therefore has the identifier `.txt`, the same as `.txt.txt`, and in the dictionary the later of the two wins.

## Model

| member | source | states |
|---|---|---|
| `Text.IsSpace` | lien_waiver_github_project/app.py:111-112 | the characters CPython's `str.isspace` and `str.strip()` treat as whitespace |
| `Text.StripBy` | lien_waiver_github_project/app.py:111-112 | stripping never lengthens the string, and what is left is empty or starts and ends with a character that is not stripped |
| `Text.Strip` | lien_waiver_github_project/app.py:111-112 | `str.strip()`: stripping by CPython's `isspace` set |
| `Text.StripShape` | lien_waiver_github_project/app.py:111-112 | the stripped text is the slice between a run of leading and a run of trailing stripped characters, and it neither starts nor ends with one |
| `Text.StripEmptyIffAll` | lien_waiver_github_project/app.py:111 | stripping leaves nothing exactly when every character is one that is stripped |
| `Text.StripEmptyIffAllSpace` | lien_waiver_github_project/app.py:111 | `line.strip()` is falsy exactly when every character of the line is whitespace |
| `Text.StripKeeps` | lien_waiver_github_project/app.py:112 | every non-whitespace character of a line survives in its stripped form |
| `Text.IsLineBreak` | lien_waiver_github_project/app.py:105 | the characters at which `str.splitlines()` ends a line |
| `Text.SplitLinesNoBreaks` | lien_waiver_github_project/app.py:105 | no line produced by `splitlines()` contains a line boundary character |
| `Text.SplitLinesRoundTrip` | lien_waiver_github_project/app.py:105 | for text whose only line boundary is `\n`, joining the lines with a `\n` after each gives the text back, plus a final `\n` if it lacked one |
| `Text.SplitLines` | lien_waiver_github_project/app.py:105 | `str.splitlines()` at every Python line boundary, `\r\n` counting once: empty text has no lines and there are never more lines than characters |
| `Text.ReplaceChar` | lien_waiver_github_project/app.py:139 | `str.replace` with a one-character pattern, as used for tabs and for spaces at line 150 |
| `Text.ReplaceCharSameLength` | lien_waiver_github_project/app.py:150 | a one-character replacement keeps the length and changes exactly the replaced positions |
| `Text.ReplaceCharLength` | lien_waiver_github_project/app.py:139 | each replaced character grows the string by the replacement's length minus one |
| `Text.ReplaceCharRemoves` | lien_waiver_github_project/app.py:139 | when the replacement does not contain the character, none is left |
| `Text.ReplaceCharAppend` | lien_waiver_github_project/app.py:139 | replacement works character by character: it distributes over concatenation |
| `Text.ReplaceCharAbsent` | lien_waiver_github_project/app.py:139 | a string without the character is unchanged |
| `Currency.PassThrough` | lien_waiver_github_project/app.py:31-36 | when `float(value)` raises, `format_currency` returns its input unchanged; for a digit string up to 2^53 it never does |
| `Currency.FormatCurrency` | lien_waiver_github_project/app.py:31-36 | `format_currency`: the input unchanged when `float` raises, `$` + grouped digits + `.00` for an exact digit string, otherwise the float rendering passed in |
| `Currency.FloatSpace` | lien_waiver_github_project/app.py:33 | the characters `float` skips around a number: `isspace` characters except U+001C-U+001F |
| `Currency.FloatSyntax` | lien_waiver_github_project/app.py:33 | the strings `float` accepts with ASCII digits: surrounding `FloatSpace`, an optional sign, then `inf`/`infinity`/`nan` in any case, or ASCII digits with single `_` between digits, an optional `.` part and an optional signed exponent |
| `Currency.SeparatorPaddingPassesThrough` | lien_waiver_github_project/app.py:33-36 | a digit string with U+001C before it or U+001F after it makes `float` raise and comes back unchanged |
| `Currency.PassThroughExamples` | lien_waiver_github_project/app.py:32-36 | the empty string, whitespace-only strings and any string containing `$` or `,` are returned unchanged |
| `Currency.ForeignCharFails` | lien_waiver_github_project/app.py:33 | a string holding a character that no float literal written with ASCII digits uses makes `float` raise |
| `Currency.FloatSyntaxChars` | lien_waiver_github_project/app.py:33 | every character of a string `float` accepts is whitespace, a digit, `_`, `.`, a sign, `e`/`E`, or a letter of `inf`/`infinity`/`nan` |
| `Currency.DigitsParse` | lien_waiver_github_project/app.py:33 | every non-empty string of decimal digits is accepted by `float` |
| `Currency.CurrencyRoundTrip` | lien_waiver_github_project/app.py:33-34 | a digit string denoting n (n at most 2^53) becomes `$` + n grouped in threes + `.00`, and removing `$`, the commas and `.00` gives n back |
| `Currency.GroupThousandsValue` | lien_waiver_github_project/app.py:34 | the `,` grouping with its commas removed is a digit string whose value is the number |
| `Currency.GroupThousands` | lien_waiver_github_project/app.py:34 | the `,` format specifier on a non-negative integer |
| `Currency.GroupThousandsShape` | lien_waiver_github_project/app.py:34 | the `,` grouping has the shape `\d{1,3}(,\d{3})*`: commas exactly every fourth position from the end, digits elsewhere |
| `Currency.DigitsValueAppend` | lien_waiver_github_project/app.py:34 | the value of concatenated digit strings is the first value shifted by the second's length plus the second value |
| `Currency.DecimalValue` | lien_waiver_github_project/app.py:34 | the decimal numeral of n reads back as n |
| `Currency.Pad3Value` | lien_waiver_github_project/app.py:34 | a zero-padded group of three digits reads back as its value |
| `Fields.NoneToEmpty` | lien_waiver_github_project/app.py:84-85 | `None` becomes `""`, and every string is kept unchanged |
| `Fields.FormatValue` | lien_waiver_github_project/app.py:79-80 | `format_currency` on a field value: `None` stays `None` (`float(None)` raises and is caught), a string `float` rejects is kept |
| `Fields.Formatted` | lien_waiver_github_project/app.py:78-80 | the map after the first loop has the same keys as the input |
| `Fields.NoneReplaced` | lien_waiver_github_project/app.py:83-85 | the map after the second loop has the same keys and no `None` value |
| `Fields.Normalised` | lien_waiver_github_project/app.py:78-85 | the map after both loops has the same keys as the input and no `None` value |
| `Fields.FormatAmounts` | lien_waiver_github_project/app.py:78-80 | the first loop succeeds exactly when all six amount keys are present, fails with `KeyError` for the first missing one in loop order, and otherwise returns the formatted map |
| `Fields.ReplaceNones` | lien_waiver_github_project/app.py:83-85 | the second loop returns the map with every `None` replaced by `""` |
| `Fields.NormaliseFields` | lien_waiver_github_project/app.py:78-85 | succeeds exactly when all six amount keys are present; otherwise fails with `KeyError` naming the first missing one in loop order; on success returns the normalised map |
| `Fields.NormalisedFrame` | lien_waiver_github_project/app.py:78-85 | only the six amount keys are reformatted; every other value is kept except that `None` becomes `""` |
| `Fields.NormalisedAmount` | lien_waiver_github_project/app.py:79-80 | an amount field holding a digit string ends up as the grouped dollar amount of its value |
| `Fields.NormalisedUnparsed` | lien_waiver_github_project/app.py:79-80 | an amount field that `float` rejects is kept as it is |
| `Flowables.IsBlank` | lien_waiver_github_project/app.py:111 | a line whose `strip()` is empty, so `if line.strip():` is false |
| `Flowables.FirstNonBlank` | lien_waiver_github_project/app.py:110-111 | the index found is of a non-blank line with only blank lines before it; no index means every line is blank |
| `Flowables.RemoveAt` | lien_waiver_github_project/app.py:113 | `pop(i)` leaves one element fewer, with the elements before `i` in place and those after shifted down by one |
| `Flowables.BodyBlocks` | lien_waiver_github_project/app.py:139-141 | one preformatted block per line, in order, each holding the tab-expanded line |
| `Flowables.ExpandTabs` | lien_waiver_github_project/app.py:139 | `replace('\t', '    ')`: no tab is left, each tab adds three characters, and a line without tabs is unchanged |
| `Flowables.ExpandTabsCons` | lien_waiver_github_project/app.py:139 | expansion works character by character: a tab becomes exactly four spaces and any other character stays, in order |
| `Flowables.Layout` | lien_waiver_github_project/app.py:105-141 | the blocks built from a list of lines: one block per line, the header included |
| `Flowables.PopHeader` | lien_waiver_github_project/app.py:109-114 | the loop finds a header exactly when some line is non-blank; the header is the first such line stripped, and exactly that line is removed; with no header the list is unchanged |
| `Flowables.AppendBody` | lien_waiver_github_project/app.py:139-141 | appends one preformatted block per line, tabs expanded, to the existing blocks |
| `Flowables.LayOut` | lien_waiver_github_project/app.py:105-141 | the blocks built from the rendered text are the layout of its `splitlines()` |
| `Flowables.LayoutOfPopped` | lien_waiver_github_project/app.py:116-125 | the header found by the loop is never empty, so the header block is emitted whenever a header was found |
| `Flowables.LayoutWithHeader` | lien_waiver_github_project/app.py:110-114 | when line i is the first non-blank line, the first block is the stripped line i and is the only header; the body is every other line in order, blank lines included; the layout has one block per input line |
| `Flowables.HeaderThenBody` | lien_waiver_github_project/app.py:125-141 | a header block followed by the body without line i puts each other line at its own or the next position |
| `Flowables.FirstNonBlankUnique` | lien_waiver_github_project/app.py:110-114 | the first non-blank line is the only non-blank line with nothing but blank lines before it |
| `Flowables.LayoutAllBlank` | lien_waiver_github_project/app.py:110-116 | when every line is blank there is no header and every line still becomes a body block |
| `Flowables.LayoutHeaderIff` | lien_waiver_github_project/app.py:110-125 | a header block comes first exactly when some line has non-whitespace content |
| `Flowables.HeaderStripped` | lien_waiver_github_project/app.py:112 | the header text is non-empty and neither starts nor ends with whitespace |
| `Flowables.BodyHasNoTabs` | lien_waiver_github_project/app.py:139 | no body block contains a tab |
| `Catalog.LastIndex` | lien_waiver_github_project/app.py:21 | the last position of a character, or -1 when it does not occur |
| `Catalog.SplitExtRoot` | lien_waiver_github_project/app.py:21 | `os.path.splitext(p)[0]`: a prefix of the path; when it is shorter, the path continues with a `.` and the rest holds no further `.` and no `/` |
| `Catalog.TemplateIdOfTxt` | lien_waiver_github_project/app.py:21 | a `.txt` entry's identifier is its name without `.txt`, unless the rest of the name is only dots, in which case it is the whole name |
| `Catalog.IsTemplateFile` | lien_waiver_github_project/app.py:20 | `f.endswith(".txt")` |
| `Catalog.Templates` | lien_waiver_github_project/app.py:20-21 | every `.txt` entry's identifier is a key, and every key maps to a listed `.txt` entry with that identifier |
| `Catalog.TemplatesLastWins` | lien_waiver_github_project/app.py:21 | when entries share an identifier, the key maps to the last of them in listing order |
| `Catalog.DotfileShadowing` | lien_waiver_github_project/app.py:21 | the entries `.txt` and `.txt.txt` both get the identifier `.txt` |
| `Catalog.DownloadName` | lien_waiver_github_project/app.py:150 | the download name is the identifier with each space replaced by `_`, position by position, followed by `.pdf`; it contains no space |
| `Catalog.DownloadNameOfFile` | lien_waiver_github_project/app.py:21 | for a template file, the download name is the file name without `.txt`, spaces replaced by `_`, plus `.pdf` |
| `App.GeneratePdf` | lien_waiver_github_project/app.py:72-152 | the handler fails exactly when an amount key is missing, with `KeyError` for the first one; otherwise the document is the layout of the rendered normalised fields and the download name of the selected identifier |

## Left out

- The Streamlit user interface (title, inputs, select box, buttons, warning and `st.stop`, lines 41-72 and 146-152): interactive plumbing. The fields reach the model as a map and the selection as a string.
- The file system: `os.listdir` is the `listing` parameter and reading the template file is the `readFile` parameter. An unreadable file is not modelled.
- App.GeneratePdf: requires the selected identifier to be a key of the catalog, because the select box offers only those keys. `load_template`'s `KeyError` for any other identifier is not modelled.
- Jinja2 `Template(...).render`: a foreign library. It is the `render` parameter, applied to the template text and the normalised fields.
- ReportLab (document template, paragraph styles, fonts, margins, pagination, `doc.build`): a foreign library. Blocks are modelled as a style and a text. The interpretation of the `<b>` and `<pre>` markup, and of `<` or `&` inside a line, is not modelled.
- `locale.setlocale`: ambient process state. It does not affect the `,` format specifier.
- Currency.FormatCurrency: the rendering of accepted inputs that are not plain digit strings up to 2^53 is the `renderFloat` parameter. This covers signs, whitespace, fractions, exponents, underscores, `inf`/`nan` and larger integers. Floating-point conversion and two-decimal rounding are not modelled.
- Currency.FormatCurrency: `float` also accepts digits of other scripts (for example Arabic-Indic digits). The model's float grammar admits ASCII digits only, so it passes such inputs through unchanged.
- Currency.FloatSyntax: `float` also accepts decimal digits of other scripts (for example `float("١")` is `1.0`); the predicate admits ASCII digits only and rejects such numbers.
- Currency.ForeignCharFails: a non-ASCII decimal digit counts as foreign, so the lemma says `float` raises on numbers written in such digits, which it does not.
- Currency.PassThrough: its premise is the model's grammar, which rejects numbers written with non-ASCII digits that `float` accepts; for those inputs it promises a pass-through the code does not do.
- Fields.NormalisedUnparsed: the same gap as `Currency.PassThrough`, for numbers written with non-ASCII digits.
- Fields.NormaliseFields: field values are strings or `None`, which is what Streamlit's text inputs and the `None` check use. Other Python value types are not modelled.
- Flowables.PopHeader: the list is a value. The in-place `pop` is modelled as returning the shortened sequence, since nothing else refers to the list.
