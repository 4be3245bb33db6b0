# A verified model of the terminal slideshow core

The slideshow shows pages in a bordered panel in the terminal. The user moves between pages with
the arrow keys and Enter, and quits with `q`. Pages come from the `export.py` content modules:
- lines pages, centred row by row;
- markdown pages, whose source first gets a space inserted after punctuation outside code;
- composite pages of renderables.

Markdown files can be cut into pages at `---` lines.

This project models that core in Dafny and proves what the code promises. Each module follows one
part of the program:

| module | file | models |
|---|---|---|
| `KeyReader` | keys.dfy | `_read_keys_no_echo`: raw bytes and 1 ms gaps to key tokens and an end reason |
| `Layout` | layout.dfy | the padding, truncation and centring arithmetic of `render_page` and of the markdown and composite renderers |
| `Spacing` | spacing.dfy | `_insert_space_after_punctuation` with `process_segment`, inline code spans and fenced blocks, and the fence pre-scan |
| `SpacingTwice` | spacing_twice.dfy | a second pass of `_insert_space_after_punctuation` over its own output |
| `MarkdownPages` | markdown_pages.dfy | `load_markdown_pages` on the text of a file |
| `Pages` | pages.dfy | `PageData`, `lines_page`, `markdown_page`, `markdown_file`, `composite_page` |
| `Loader` | loader.dfy | the page-normalising part of `load_pages`, over records of imported modules |
| `Navigation` | navigation.dfy | `interactive_page_loop` and the dispatch of `render_current` |
| `Strings`, `Wrappers` | strings.dfy, wrappers.dfy | the Python string operations used above, and `Option` |

Several loops are methods proved equal to a specification function, and the properties are proved
as lemmas about that function:
- `ReadKeys`;
- `ProcessSegmentLoop`;
- `ProcessLineLoop`;
- `InsertSpacesLoop`;
- `ScanFenceLines`;
- `LoadMarkdownPages`, `GroupLines` and `TrimPage`;
- `RenderPage`;
- `MarkdownFile`;
- `CompositePage`;
- `LoadPages`;
- `Navigator.Run`.

The terminal is abstracted as follows:
- Input is a sequence of `Byte(b)` and `Gap` events. A gap means that no byte arrived within the 1 ms escape window.
- The size of the terminal is a pair of parameters.
- A row's cell width is its character count.

## Model

| member | source | states |
|---|---|---|
| KeyReader.Decode | main.py:39 | one byte decoded with errors ignored is empty exactly for bytes of 0x80 and above, and otherwise the one character with that code |
| KeyReader.EscapeTail | main.py:52-62 | the collection consumes at least one observation when one remains and never more than remain, and appends at most one character per observation |
| KeyReader.TokenizeFrom | main.py:36-65 | from index `i` on, the generator yields at most one token per remaining observation, and Enter ends the stream only when `stop_on_enter` |
| KeyReader.Tokenize | main.py:36-65 | over a whole input: no more tokens than observations, and Enter ends the stream only when `stop_on_enter` |
| KeyReader.CollectEscape | main.py:49-63 | the escape collection loop returns ESC plus the characters `EscapeTail` describes and the index after the observations it consumed |
| KeyReader.ReadKeys | main.py:36-65 | the reader loop yields exactly the tokens and end reason of `Tokenize` |
| KeyReader.EscapeTailStops | main.py:52-62 | collection takes every non-terminating ASCII byte and stops after the first alphabetic or `~` byte, or at a gap or empty read, which it consumes |
| KeyReader.EscapeToken | main.py:49-64 | an ESC byte with such a tail yields one token, ESC plus the bytes plus the terminator if any, and reading resumes after the observation that ended it |
| KeyReader.LeftArrowIsOneToken | main.py:49-63 | `ESC [ D` arriving together is the single token `"\x1b[D"` with either setting of `stop_on_enter` |
| KeyReader.LeadingByte | main.py:39-48 | gaps and empty reads yield nothing, Ctrl-C aborts with no token, CR and LF end the stream or yield exactly `"\n"`, any other ASCII byte is yielded unchanged on its own |
| KeyReader.EscapeTailShape | main.py:56-62 | every character an escape collection appends is ASCII, and only the last can be a terminator |
| KeyReader.TokensWellFormed | main.py:40-65 | every token is one ASCII character other than Ctrl-C and CR (and LF when stopping on Enter), or ESC followed by non-terminators and possibly one final terminator; Enter ends the stream only when `stop_on_enter` |
| Layout.VerticalPadding | main.py:97-100 | missing rows are split with `remaining // 2` on top and the rest below, filling the target exactly; none when the content fills it |
| Layout.TargetRows | main.py:94-95 | the content rows are the terminal height less one input row and two border rows, and none when that is not positive |
| Layout.InnerWidth | main.py:106 | the row width is the terminal width less 6 cells of borders and padding, and at least 10 |
| Layout.Blanks | main.py:101 | `[""] * n`: n empty rows |
| Layout.PadRows | main.py:97-101 | padding keeps the rows unchanged and contiguous after the top blanks, with only blank rows around them |
| Layout.FitRows | main.py:94-103 | the content has exactly `max(height - 1 - 2, 0)` rows: padded when short, its first rows when long |
| Layout.CenterRow | main.py:109-117 | every row is exactly `inner_width` cells: cut when wider, otherwise `(inner_width - n) // 2` spaces on the left and the rest on the right |
| Layout.CenterRows | main.py:108-118 | each row is centred on its own, in order |
| Layout.PageBody | main.py:91-120 | defines the panel text: the rows fitted to `TargetRows`, each centred in `InnerWidth`, joined by `"\n"` |
| Layout.RenderPage | main.py:91-120 | the row loop builds the centred rows joined by `"\n"` with none after the last, from a copy of the lines |
| Layout.CenterRowNoNewline | main.py:117 | centring adds no line break |
| Layout.PageBodyRows | main.py:93-120 | when there is room for a row, the panel body splits into exactly `max(h-3,0)` rows of exactly `max(w-6,10)` cells each, the centred fitted rows |
| Layout.DocumentRows | main.py:384-389 | the markdown and composite panels pad to the same target but never truncate |
| Layout.DocumentRowsKeepContent | main.py:384-389 | their rendered rows stay in order as one block after the top padding |
| Layout.DocInnerWidthBounds | main.py:360 | the markdown panel's inner width `max(w - (2 + 2p), 20)` is at least 20 and otherwise gives up exactly `2 + 2p` cells; `render_page`'s is at least 10 |
| Layout.DocInnerWidth | main.py:360 | defines the markdown and composite panels' inner width `max(width - (2 + 2*padding), 20)`, as computed again at main.py:406 |
| Spacing.IsPunct | main.py:245 | defines the punctuation that may get a space after it: `,.:;!?)]}` and the full-width comma and full stop |
| Spacing.IsFenceLine | main.py:293-295 | defines a fence line: after `lstrip()` it starts with three backticks or three tildes |
| Spacing.OutLines | main.py:292-340 | defines the rebuilt lines: each line's `LineOut` under the fence state the lines before it leave |
| Spacing.IsBacktickFence | main.py:347-353 | defines the pre-scan's fence test: the stripped line starts with three backticks |
| Spacing.SchemeStart | main.py:268-270 | the look-back stops at the start of the maximal run of alphanumerics, `+`, `-` and `.` before the colon |
| Spacing.SpacedSchemes | main.py:272 | the character test is the membership test in `("http", "https", "ftp")` |
| Spacing.NeedsSpace | main.py:240-281 | defines when the loop puts a space after `seg[i]`; it implies punctuation followed by a non-space character |
| Spacing.ProcessSegment | main.py:231-285 | `process_segment`: every character is kept and at most one space follows it, so the output is between one and two times as long |
| Spacing.ProcessSegmentLoop | main.py:231-285 | the scanning loop computes `ProcessSegment` |
| Spacing.SpaceAfter | main.py:238-283 | the branches of the loop body put a space after a character exactly when `NeedsSpace` holds |
| Spacing.SchemeStartUnique | main.py:268-271 | the scheme found by the look-back is the maximal run of scheme characters |
| Spacing.SpaceOutPrefix | main.py:237-285 | the output only grows: the output for a prefix is a prefix of the output |
| Spacing.InsertsOnlySpaces | main.py:277-283 | every character is copied in order, followed by a single inserted `' '` exactly where a space is needed and by the next character otherwise |
| Spacing.SpacedLength | main.py:277-283 | the output is longer by exactly the number of characters that need a space |
| Spacing.NoNeedUnchanged | main.py:240-284 | a segment where nothing needs a space is returned unchanged |
| Spacing.ProcessSegmentIdempotent | main.py:231-285 | processing the output again changes nothing |
| Spacing.NothingLeftToSpace | main.py:245-281 | no character of the output needs a space any more |
| Spacing.OnlyPunctSpaced | main.py:245 | only characters of `,.:;!?)]}，。` are ever followed by an inserted space |
| Spacing.LettersKept | main.py:283-284 | runs of letters are copied without spaces inside them |
| Spacing.SchemeKept | main.py:266-275 | an `http`, `https` or `ftp` scheme before a colon is found again, unchanged, before the colon in the output |
| Spacing.OriginalStillSpaced | main.py:239-283 | after a pass, the image of each input character no longer needs a space, including colons exempted by their scheme |
| Spacing.TickRunEnd | main.py:317-322 | the run of backticks at `i` is counted to its end |
| Spacing.FindTicks | main.py:325 | `line.find` of as many backticks returns an index at or after the start where that many backticks begin |
| Spacing.FindTicksFirst | main.py:325 | it is the first such index, and `-1` means there is none |
| Spacing.PieceAt | main.py:314-339 | each pass of the line loop takes a non-empty slice of the line starting at `i` |
| Spacing.PiecesFrom | main.py:314-339 | defines the pieces the inline-code loop cuts from index `i` to the end of the line, each the `PieceAt` of its start |
| Spacing.ProcessLine | main.py:311-340 | defines a line outside fences as rebuilt: the outputs of its pieces put together |
| Spacing.PiecesCover | main.py:314-340 | the pieces put together are the whole line, so code pieces are copied and only text pieces are processed |
| Spacing.PieceShape | main.py:315-339 | a code piece is a whole code span closed by the first later run of the same length; a text piece holds no backtick unless it is the unclosed remainder of the line |
| Spacing.PiecesShape | main.py:314-340 | every code piece of a line is a code span, and only the last text piece can start with an unclosed run |
| Spacing.ProcessLineLoop | main.py:311-340 | the inline-code loop computes `ProcessLine` |
| Spacing.NextPiece | main.py:314-339 | one pass outputs its piece's rendering and moves past it |
| Spacing.CodeStep | main.py:315-333 | at a backtick: the span up to the next run of the same length, unchanged, or the processed rest of the line when there is none |
| Spacing.TextStep | main.py:334-339 | elsewhere: the processed text up to the next backtick or the end |
| Spacing.InsertSpacesLoop | main.py:288-341 | the line loop with its fence state computes `InsertSpaces` |
| Spacing.FenceStep | main.py:293-305 | only a fence line changes whether a fence is open, and an opening fence line records ```` ``` ```` or `~~~` as the marker |
| Spacing.LineOut | main.py:293-340 | defines one output line: copied when it is a fence line or a fence is open, rebuilt otherwise |
| Spacing.InsertSpaces | main.py:288-341 | defines the pass: the normalised lines, each output under the fence state before it, joined by `"\n"` |
| Spacing.OutLinesAt | main.py:292-340 | one output line per input line: fence lines and lines inside a fence are copied unchanged, other lines are processed |
| Spacing.FenceMarker | main.py:295-303 | an open fence remembers a backtick or a tilde marker, so only a line starting with the same marker closes it |
| Spacing.BacktickFenceStrip | main.py:353 | matching ```` ^``` ```` on `strip()` is starting with three backticks after `lstrip()` |
| Spacing.ToggledParity | main.py:352-357 | the pre-scan is inside a fence exactly after an odd number of backtick fence lines |
| Spacing.ScanFenceLines | main.py:348-357 | the pre-scan marks exactly the fence lines and the lines after an odd number of them |
| SpacingTwice.SegmentChars | main.py:277-283 | processing a segment adds no character other than a space |
| SpacingTwice.LineChars | main.py:311-340 | rebuilding a line adds no character other than a space |
| SpacingTwice.FenceLineKept | main.py:293-295 | a rebuilt line is a fence line only if the original is, since a space is only inserted after punctuation |
| SpacingTwice.PiecesOfSpacedLine | main.py:314-339 | a rebuilt line is cut into the same code spans, and its text pieces are the processed text pieces |
| SpacingTwice.ProcessLineIdempotent | main.py:311-340 | rebuilding a rebuilt line changes nothing |
| SpacingTwice.LineOutTwice | main.py:293-340 | under the same fence state, an output line is output unchanged and moves the fence state as the original line did |
| SpacingTwice.OutLinesTwice | main.py:292-340 | the output has one line per input line and the same fence state after every prefix, and a second pass returns it unchanged |
| SpacingTwice.InsertSpacesIdempotent | main.py:288-341 | running `_insert_space_after_punctuation` on its own output changes nothing |
| MarkdownPages.SplitterIsStrip | utils/markdown_pages.py:20 | the index test is `raw_line.strip() == "---"` |
| MarkdownPages.SplitPages | utils/markdown_pages.py:8-37 | `load_markdown_pages` on a text: at least one page, and every page is empty or starts and ends with a non-blank line |
| MarkdownPages.RawPages | utils/markdown_pages.py:17-26 | the grouping always gives at least one page |
| MarkdownPages.Trim | utils/markdown_pages.py:31-35 | a trimmed page is empty exactly when all its lines are blank, and otherwise starts and ends with a non-blank line |
| MarkdownPages.LoadMarkdownPages | utils/markdown_pages.py:8-37 | the function computes `SplitPages` of the text |
| MarkdownPages.GroupLines | utils/markdown_pages.py:17-26 | the first loop computes `RawPages` |
| MarkdownPages.TrimPage | utils/markdown_pages.py:30-35 | the two popping loops compute `Trim` |
| MarkdownPages.DropLeadingBlank | utils/markdown_pages.py:32-33 | the first popping loop removes exactly the leading blank lines |
| MarkdownPages.DropTrailingBlank | utils/markdown_pages.py:34-35 | the second popping loop removes exactly the trailing blank lines |
| MarkdownPages.GroupingCounts | utils/markdown_pages.py:19-25 | one page is flushed per splitter, no splitter is kept, every other line is kept in order |
| MarkdownPages.PageCount | utils/markdown_pages.py:19-26 | there is one more page than there are splitter lines |
| MarkdownPages.PagesKeepOrder | utils/markdown_pages.py:19-26 | the pages hold exactly the non-splitter lines, in their original order |
| MarkdownPages.SplitAtSplitter | utils/markdown_pages.py:20-25 | each page is a contiguous run of lines between splitters |
| MarkdownPages.OnePage | utils/markdown_pages.py:19-26 | lines without a splitter make one page |
| MarkdownPages.ConsecutiveSplitters | utils/markdown_pages.py:20-24 | two splitters in a row make an empty page and are not merged |
| MarkdownPages.TrimIsSlice | utils/markdown_pages.py:31-35 | trimming keeps a contiguous slice, interior blank lines included, and removes only blank lines |
| MarkdownPages.NoLineBreaks | utils/markdown_pages.py:16-19 | no returned line holds `"\r"` or `"\n"` |
| MarkdownPages.SplitPagesCount | utils/markdown_pages.py:16-37 | the number of pages of a text is its number of splitter lines plus one |
| Strings.IsSpace | main.py:253 | defines `isspace()` of one character: Python's whitespace set |
| Strings.IsAlnum | main.py:260 | defines `isalnum()` of one character, on ASCII letters and digits |
| Strings.IsDigits | main.py:198 | defines `isdigit()` of a string: non-empty and every character an ASCII digit |
| Strings.DecimalValue | main.py:198 | defines `int()` of a string of decimal digits: its base-ten value |
| Strings.Join | main.py:341 | defines `sep.join(parts)` for a one-character separator: the parts with the separator between neighbours |
| Strings.NormalizeNewlines | utils/markdown_pages.py:16 | no carriage return is left after the two replacements |
| Strings.NormalizeNewlinesIdempotent | utils/markdown_pages.py:16 | text without carriage returns is unchanged, so normalising twice is normalising once |
| Strings.Strip | utils/markdown_pages.py:32 | `strip()` is empty exactly for blank lines, and otherwise starts and ends with a non-space |
| Strings.Split | utils/markdown_pages.py:19 | `split("\n")` gives at least one part, and no part holds the separator |
| Strings.SplitJoin | utils/pages.py:36 | splitting a newline join of newline-free lines gives them back |
| Strings.RStripChar | utils/pages.py:30 | `rstrip("\n")` drops trailing newlines and nothing else |
| Pages.LinesOf | utils/pages.py:20 | a list content reads as lines exactly when every item is a markup string |
| Pages.LinesPage | utils/pages.py:25-26 | kind `"lines"`, padding and title passed through, one item per line, element by element |
| Pages.MarkdownPage | utils/pages.py:29-30 | kind `"markdown"`, text content, padding and title passed through |
| Pages.MarkdownPageText | utils/pages.py:30 | the content is the source without its trailing newlines, which are all that is removed |
| Pages.MarkdownPageIdempotent | utils/pages.py:30 | building a markdown page from its own content changes nothing |
| Pages.MarkdownFile | utils/pages.py:33-37 | one markdown page per split page, in order, each the page's lines joined by `"\n"` |
| Pages.JoinedPages | utils/pages.py:34-37 | the loop appends one page per line group, in order |
| Pages.MarkdownFilePage | utils/pages.py:36 | nothing is stripped from a joined page, and splitting its content at newlines gives its lines back |
| Pages.CompositePage | utils/pages.py:48-55 | kind `"composite"` whose items are the blocks with each top-level `Group` replaced by its members |
| Pages.Flatten | utils/pages.py:50-54 | defines the flattening loop: blocks in order, each top-level `Group` replaced by its members |
| Pages.FlattenAppend | utils/pages.py:50-54 | flattening works block by block, in argument order |
| Pages.FlattenWithoutGroups | utils/pages.py:53-54 | blocks that are not groups are kept unchanged |
| Pages.FlattenOneLevel | utils/pages.py:51-52 | a group is replaced in place by its members, which are not opened further |
| Loader.SidePadding | main.py:198 | the padding is 2 when the key is missing or its `str()` is not all digits |
| Loader.SidePaddingValue | main.py:198 | a non-negative int padding is kept, a negative one gives 2, a digit string gives its value, booleans and `None` give 2 |
| Loader.Str | main.py:196-203 | defines `str()` of a scalar: `None`, `True`/`False`, the decimal text of an int, a string as it is, an object's own text |
| Loader.Truthy | main.py:185-190 | defines `bool()` of a scalar: `None` and `False` are false, an int when non-zero, a string when non-empty, an object as it says |
| Loader.EntryTruthy | main.py:190 | defines the `not p` test on an entry: a scalar by `bool()`, a list or dict when non-empty, a `PageData` always true |
| Loader.ModuleName | main.py:184 | defines the pages' title: `__module_name__` when the module sets it, else the name of its directory |
| Loader.SplashFlag | main.py:185 | defines one module's splash flag: `bool()` of `__show_splash__`, false when it is missing |
| Loader.ModulePages | main.py:186-188 | defines one module's pages: none when its import failed or `__pages__` is missing or not a list, else the pages of its entries |
| Loader.EntryPage | main.py:189-205 | falsy entries are skipped, `PageData` entries pass through, other pages get the module's name as title |
| Loader.EntriesPages | main.py:189-205 | defines the pages of a `__pages__` list: each entry's page, if any, in order |
| Loader.AllPages | main.py:178-205 | defines the pages of all modules, module after module |
| Loader.AnySplash | main.py:185 | defines the splash flag: some imported module has a true `__show_splash__` |
| Loader.LoadPages | main.py:165-206 | no contents directory gives no pages and no splash; otherwise the loops compute `AllPages` and `AnySplash` |
| Loader.MarkdownEntryIsMarkdownPage | main.py:196-201 | a dict with `__markdown__` becomes the page `markdown_page` makes of `str()` of it, with the parsed padding |
| Loader.ListEntryLines | main.py:202-205 | a list becomes a lines page of the `str()` of each item, in order, with padding 2 |
| Loader.EntriesPagesAppend | main.py:189-205 | entries are handled one at a time, in order |
| Loader.EntriesPagesCount | main.py:189-205 | each entry adds at most one page |
| Loader.PagesPassThrough | main.py:192-195 | `PageData` entries come out unchanged and in order |
| Loader.AllPagesAppend | main.py:178-205 | modules contribute their pages one after another, in order |
| Loader.AnySplashExists | main.py:183-185 | the splash flag is set exactly when some imported module has a true `__show_splash__` |
| Loader.NotAListStillSplashes | main.py:183-186 | a non-list `__pages__` adds no page but its module's splash flag still counts |
| Navigation.Step | main.py:441-458 | a move goes one page left or right and stays in `[0, total)`; only `q`/`Q` and the last page end the loop |
| Navigation.RunFrom | main.py:443-458 | the loop over the tokens ends on a page in range, with no more renders than keys, when input ends, on `q`/`Q`, or past the last page |
| Navigation.Navigator.constructor | main.py:425-426 | `current` starts at 0 and page 0 is rendered once |
| Navigation.ScreenOf | main.py:428-438 | defines `render_current`'s dispatch: the drawing each page kind gets, with an empty source or no lines when the content has the wrong type |
| Navigation.Navigator.HandleKey | main.py:442-458 | one key acts as `Step` says; every move renders the new page once and nothing else renders |
| Navigation.Navigator.Run | main.py:441-458 | the loop over the tokens acts as `RunFrom`, keeping `current` in range and last rendered |
| Navigation.InteractivePageLoop | main.py:420-460 | no pages ends at once without reading input; otherwise page 0 is rendered, then the pages `RunFrom` moves to, and each render draws `ScreenOf` of its page; Ctrl-C ends the loop quietly |
| Navigation.RendersInRange | main.py:425-458 | every rendered page is a page, each render is one page away from the previous, there are no more renders than keys, and the loop ends on the last rendered page |
| Navigation.IgnoredKeys | main.py:458 | keys other than `q`, `Q`, the arrows and Enter change nothing and render nothing |
| Navigation.Boundaries | main.py:445-456 | left on the first page does nothing; right or Enter on the last page ends the loop; `q`/`Q` ends it anywhere |
| Navigation.QuitEndsSession | main.py:442-443 | nothing after a `q` or `Q` is read |
| Navigation.LinesPaddingIgnored | main.py:396-397 | a lines page is drawn from its lines alone, and its padding is not passed on |
| Navigation.MarkdownScreenOfPage | main.py:432-433 | a markdown page draws its stripped source at its own side padding |
| Navigation.ThreeRights | main.py:449-456 | with three pages, three right arrows show pages 1 and 2 and then end the loop |

## Left out

- Terminal handling: cbreak mode and its restoration, `select`, `os.read` and real timing. The input is the event sequence, and the end of that sequence ends the model. cbreak keeps ISIG (main.py:34-35), so a real Ctrl-C reaches the process as SIGINT; the model sees Ctrl-C only as a 0x03 byte read by the reader. A SIGINT during the first `render_current()` (main.py:440, before the `try` at main.py:442) would propagate instead of ending the loop quietly; that is not modelled.
- Non-terminal stdin: when stdin is not a terminal the reader yields nothing at once. The model assumes a terminal.
- KeyReader.ReadKeys: returns the whole token list instead of yielding lazily. A consumer that breaks early ignores the rest, so the navigation outcome is the same.
- Rich rendering: `Console`, `Panel`, `Group`, `Markdown`, `render_lines` reflow, `Text.from_markup` and real cell widths. A row's width is its character count.
- Markup re-parse: the markup re-parse heuristic of the markdown renderer depends on Rich's rendered lines. Only the fence pre-scan that feeds it is modelled.
- The pause of `render_page`: it waits for Enter only on the splash screen. Lines pages pass `pause=False`.
- Screen and process effects: `os.system('clear')`, the cursor escapes in `main`, `metadata.json`, and the splash file read.
- Module discovery in `load_pages`: the glob, the sort and the dynamic import. Modules are given already imported, in sorted order, and an import failure is a record. The error message on stderr and the unused `global_index` are not modelled.
- Loader.SidePadding: models `isdigit` on ASCII digits only, and `int()` of a value whose `str()` is all digits as the decimal value of that text. A custom object whose `int()` disagrees with its `str()` is not modelled.
- `str()` of non-string values: nested values of list entries are modelled by the text `str()` gives them.
- Python `str.isalnum`, `isalpha` and `isdigit`: modelled on ASCII only. `isspace` is Python's whitespace set.
- Module names: `Module.moduleName` is an `Option<string>`, so a `__module_name__` bound to a value that is not a string, such as `None`, cannot be represented; main.py:184 would use such a value as the page title as it is. Nothing in the core renders the title.
- `syntax_block`, `prompt_block` and the content modules under `contents/`: thin Rich wrappers and static data.
- Navigation.InteractivePageLoop: when the list is empty, the printed "No content pages found." message is the `NoPages` exit, not text.
