# Help screen of Cataclysm: Bright Nights, in Dafny

This project models the help screen of Cataclysm: Bright Nights (`src/help.cpp`) and proves properties of the model. The help screen:

- loads the help topics from the help data file;
- fills in the texts that stand for whole-line tokens: the map-note colour legend (`<DRAW_NOTE_COLORS>`), the movement-key diagram (`<HELP_DRAW_DIRECTIONS>`) and the resolved game paths (`<GAME_DIRECTORIES>`);
- lays the topic names out in two columns;
- answers keystrokes by checking the hotkey list of each loaded record, by index `i`, and showing the topic stored under order `i` for every `i` whose list includes the key pressed. Each shown topic has its `<press_ACTION>` tokens expanded to the keys bound to that action, and its paragraphs are joined by blank lines.

The modules follow the functions of `src/help.cpp`:

| file | module | models |
|---|---|---|
| `strings.dfy` | `Strings` | `std::string::find` and the game's `replace_all` (left to right, non-overlapping), with the occurrence and counting facts the proofs need |
| `externals.dfy` | `Externals` | the game services the screen calls, gathered as parameters in `Env` |
| `help_data.dfy` | `HelpData` | the records of the data file, the whole-line substitution, and `help_texts` / `hotkeys` after loading |
| `dir_grid.dfy` | `DirGrid` | `help::get_dir_grid` |
| `note_colors.dfy` | `NoteColors` | `help::get_note_colors` |
| `menu_layout.dfy` | `MenuLayout` | the arithmetic of `help::draw_menu` |
| `press_keys.dfy` | `PressKeys` | the `<press_` expansion inside `help::display_help` |
| `detail_text.dfy` | `DetailText` | the `"\n\n"` join (`std::accumulate`) and the text shown for a topic |
| `help.dfy` | `HelpScreen` | the `help` object (`class Help`): `deserialize`, `draw_menu` and the input loop of `display_help` |

The code that works step by step is written as methods with loop invariants:

- `Help.Deserialize`;
- `SubstituteStatic`;
- `GetDirGrid` / `FillSlots`;
- `GetNoteColors`;
- `Help.DrawMenu`;
- `ExpandPressKeys`;
- `Help.ShowTopic`, `Help.HandleKey` and `Help.DisplayHelp`.

Each method is proved equal to a function of its inputs. The properties the source promises are then proved about those functions as lemmas. The `std::accumulate` fold is a function, as in the source.

Three kinds of reads change `help_texts`:

- `help_texts[order] = …` in `deserialize` stores a topic;
- `help_texts[i]` in `draw_menu` is a `std::map` `operator[]` read;
- `help_texts[i]` in `display_help` is the same kind of read.

An `operator[]` read of a missing order inserts an empty topic there. The model does the same (`Touch`, `Filled`, `Opened`).

Behaviours of the code that are easy to misread:

- **Static tokens.** A static token is replaced only when the whole line equals it. A line that merely contains `<HELP_DRAW_DIRECTIONS>` among other text is kept as it is.
- **Unknown actions.** A `<press_` replacement always carries the colour tags, so it is never empty. The "unknown action" message can never be reached: the branch is dead and holds `assert false`. An action with no keys is expanded to whatever `press_x` gives, inside the tags.
- **Duplicate orders.** Loading N records gives one topic per distinct `order`, not N topics. A later record of the same order overwrites an earlier one.
- **Hotkeys by index.** `hotkeys` is filled in file order, one list per record, while `help_texts` is keyed by `order`. A key in the list at index `i` opens the topic stored under order `i`, which is the record's own topic only when the orders follow the file order (`HotkeysSelectByIndex`).
- **Negative orders.** `draw_menu` reads `help_texts[i]` for `i` from 0 while `i` is below the size. A negative order is never reached, so the size always stays ahead of `i` and the loop does not end (`NegativeOrderNeverStops`).
- **Gaps between orders.** `half_size` comes from the number of topics before `draw_menu` fills the gaps, but one label is printed for every order up to the largest. With the orders 0, 2 and 4, the labels of orders 2 and 4 land on the same spot (`SpacedOrdersCollide`). With orders `0 .. N - 1` no two labels share a spot (`LayoutDistinct`).

## Model

| member | source | states |
|---|---|---|
| Strings.Find | src/help.cpp:188-190 | `find` returns the first index at or after the start where the text occurs, and `npos` (`None`) only when there is none |
| Strings.ReplaceAllAbsent | src/help.cpp:198 | `replace_all` of a pattern that does not occur returns the text unchanged |
| Strings.ReplaceAllWhole | src/help.cpp:59-63 | `replace_all` on a line that is exactly the token gives exactly the token's text |
| Strings.ReplaceAllConcat | src/help.cpp:101 | when no occurrence straddles the boundary, replacing in a concatenation replaces in each part separately |
| Strings.CountAfterReplace | src/help.cpp:198 | replacing a token with text that holds no `<press_` never adds a `<press_`, and removes at least one when the token occurs (the termination measure of the expansion loop) |
| Strings.CountZero | src/help.cpp:188 | counting `<press_` gives zero exactly when `find` can find none |
| HelpScreen.SubstituteStatic | src/help.cpp:58-68 | the number and order of lines stay the same. `<DRAW_NOTE_COLORS>` becomes the legend, `<HELP_DRAW_DIRECTIONS>` the diagram and `<GAME_DIRECTORIES>` the resolved paths, each only when it is the whole line. Every other line, including one that merely contains a token, is unchanged |
| HelpScreen.ComputeStatics | src/help.cpp:48-49 | the legend and the diagram are computed once, before any record is read |
| HelpScreen.Help.Deserialize | src/help.cpp:44-75 | `help_texts` becomes the earlier topics with every record's substituted topic stored under its order. `hotkeys` is cleared and then holds one list per record, in file order |
| HelpData.HotkeyLists | src/help.cpp:46-73 | one hotkey list per record, in file order, each derived from that record's name |
| HelpData.LoadKeys | src/help.cpp:72 | the loaded orders are the earlier ones plus the order of every record, with no others |
| HelpData.LoadLastWins | src/help.cpp:72 | for an order carried by several records, the topic of the last of them is stored |
| HelpData.LoadKeepsOthers | src/help.cpp:72 | an order no record carries keeps its earlier topic, or stays absent |
| HelpData.LoadNext | src/help.cpp:72 | storing one more record's topic over the previous state is loading one more record |
| DirGrid.GetDirGrid | src/help.cpp:77-106 | the diagram is the template with every `<IDENT_i>` slot replaced by the i-th key bound to its action in light blue, or by a red `?` when there is no i-th key. Afterwards no slot placeholder remains |
| DirGrid.FillSlots | src/help.cpp:94-103 | the loop over `movearray` and the two slots of each action, calling `replace_all` each time, ends with every slot filled and the literal text untouched |
| DirGrid.FillStep | src/help.cpp:97-101 | one `replace_all` of slot `(a, i)` fills exactly that slot and changes nothing else in the partly filled diagram |
| DirGrid.PieceStep | src/help.cpp:101 | one `replace_all` on one piece of the diagram fills that piece's slot when it is the slot replaced, and otherwise leaves the piece as it is |
| DirGrid.SlotNameInjective | src/help.cpp:97 | different slots have different placeholders |
| DirGrid.SlotFillInert | src/help.cpp:98-100 | a filled slot holds no placeholder and cannot form one with the text around it |
| DirGrid.NoPlaceholderLeft | src/help.cpp:94-105 | the filled diagram contains no slot placeholder of any action |
| DirGrid.FillCovered | src/help.cpp:79-84 | `movearray` lists every movement action, so once both slots of each of its actions are done, the diagram is completely filled |
| NoteColors.GetNoteColors | src/help.cpp:131-141 | the legend is the translated title, followed by one `colorized-id:translated-label, ` entry per note colour, in iteration order |
| NoteColors.EntriesSplit | src/help.cpp:134-138 | each colour contributes exactly its own entry, between the entries of the colours before it and after it |
| NoteColors.EntriesShape | src/help.cpp:136 | the entries are empty exactly when there are no colours, and otherwise end in the trailing `", "` |
| NoteColors.EntriesSnoc | src/help.cpp:134-138 | one more colour appends exactly its entry |
| MenuLayout.DivideRoundUp | src/help.cpp:117 | the quotient rounded up: the least `q` with `q * b >= a` |
| MenuLayout.Half | src/help.cpp:116 | `half_size` is at least one and at most `n + 1`, and two columns of it hold all `n` topics |
| MenuLayout.LayoutPositions | src/help.cpp:116-126 | topic `k` is in column 1 exactly when `k < half_size`, on row `y + k % half_size` (row `y + k` in column 1). Its second-column x is at least `ceil(width/2)` and at least four past every first-column label |
| MenuLayout.ColumnStartBounds | src/help.cpp:117-122 | the running `second_column` ends at its start value or at some label's width plus four, and at least at all of them |
| MenuLayout.SecondColumnBounds | src/help.cpp:117-122 | the second column starts at least at half the width and at least four past every first-column label |
| MenuLayout.SecondColumnSnoc | src/help.cpp:120-122 | a label raises `second_column` only while the first column is being filled |
| MenuLayout.LayoutSnoc | src/help.cpp:124-125 | printing one more label adds its placement and moves none of the others |
| MenuLayout.LayoutDistinct | src/help.cpp:124 | with at most two columns' worth of topics, no two labels land on the same position |
| HelpScreen.Help.DrawMenu | src/help.cpp:108-129 | reading `help_texts[i]` inserts an empty topic at every missing order, so the orders end up exactly `0 .. n-1`, `n-1` being the largest order loaded. Loaded topics are kept. The placements are the layout of the translated names, with `half_size` taken from the size before the loop |
| HelpScreen.FilledKeys | src/help.cpp:118-119 | after reading the orders below `n`, the orders present are the loaded ones and every one below `n` |
| HelpScreen.FilledAt | src/help.cpp:119 | a read never changes a loaded topic, and an inserted topic is empty |
| HelpScreen.FilledSize | src/help.cpp:118 | the size bound moves past `n` exactly when an order at or above `n` was loaded, which is why the loop stops |
| HelpScreen.FilledDone | src/help.cpp:118 | when the loop stops, the orders are exactly `0 .. n-1` and `n-1` is the largest loaded order |
| HelpScreen.LargestOrder | src/help.cpp:118 | a set of non-negative orders has a largest element, or is empty; this bounds the loop |
| HelpScreen.MenuNames | src/help.cpp:119 | the label of order `k` is the translated name of the topic there, or the translated empty name where the order was missing |
| HelpScreen.MenuStep | src/help.cpp:119-125 | one iteration of the loop keeps its state the layout of the labels printed so far |
| PressKeys.ExpandPressKeys | src/help.cpp:187-203 | the expansion loop computes `Expand` of the translated line (so `ExpandOneToken`, `ExpandTwoTokens` and `ScanPlacesReplacement` describe its result) and leaves no `<press_` that a `>` closes |
| PressKeys.ExpandOneToken | src/help.cpp:187-203 | text without `<press_`, a token `<press_A>` with no `>` in `A`, and more text without `<press_` expand to the same two texts around `<color_light_blue>` + keys of `A` + `</color>` |
| PressKeys.ExpandTwoTokens | src/help.cpp:187-203 | two tokens in a row, the second shorter than the first, both become their keys' replacements, in order |
| PressKeys.ScanPlacesReplacement | src/help.cpp:189-201 | when a `>` closes the `<press_` the scan starts from, the final text holds that action's replacement at the token's position |
| PressKeys.FirstPressAt | src/help.cpp:188 | `find( "<press_" )` on text without `<press_` followed by a token finds the token |
| PressKeys.TokenCloses | src/help.cpp:190-192 | for an action without `>`, the first `>` after the token's start is the token's own, and `substr` gives back the action |
| PressKeys.ReplaceOneToken | src/help.cpp:198 | `replace_all` of a token between texts without `<press_` replaces exactly that one copy |
| PressKeys.Expand | src/help.cpp:186-204 | no closed token remains, a line without `<press_` is returned unchanged, and the text before the first token is kept |
| PressKeys.Scan | src/help.cpp:189-202 | starting at a `<press_` with none before it, no closed token is left and the text before the start is kept; what each token becomes is stated by `ScanPlacesReplacement` and `ExpandOneToken` |
| PressKeys.ExpandWholeToken | src/help.cpp:190-198 | a line that is one token `<press_X>` becomes `<color_light_blue>` + keys of X + `</color>` |
| PressKeys.ReplacementShape | src/help.cpp:193-196 | the replacement is never empty (the debug message is unreachable), holds no `<press_`, and opens with `<` and closes with `>` |
| PressKeys.TokenAt | src/help.cpp:190-192 | the action is the text between `<press_` and the first `>` after it, and the whole token occurs there |
| PressKeys.OpenTokenAbsent | src/help.cpp:190-198 | for a `<press_` with no `>` after it, the token `replace_all` looks for (the rest of the line plus `>`) occurs nowhere in the line |
| PressKeys.ExpandUnclosed | src/help.cpp:189-201 | when the first `<press_` has no `>` after it, the expansion leaves the line exactly as it was |
| PressKeys.StepDecreases | src/help.cpp:198 | each replacement removes at least the `<press_` it started from and adds none, so the loop terminates |
| PressKeys.ReplaceAtFirst | src/help.cpp:198 | replacing the first token keeps the text before it and puts the replacement at its place |
| PressKeys.ReplaceAtFirstKeepsFront | src/help.cpp:198-201 | after the replacement, there is still no `<press_` before the position the search resumes from |
| PressKeys.ScanAsWritten | src/help.cpp:189-202 | the scan as written, resuming at `pos2`, never raises the number of `<press_` |
| PressKeys.ExpandAsWritten | src/help.cpp:186-204 | the expansion as written leaves a line without `<press_` unchanged and adds no `<press_` |
| PressKeys.AsWrittenSkipsToken | src/help.cpp:201 | as written, a closed token right after a token longer than its replacement survives the expansion, while the corrected scan replaces both tokens |
| PressKeys.ExpandAsWrittenStep | src/help.cpp:188-201 | the one step the as-written loop takes on the counterexample line |
| PressKeys.ClosedTokenLeft | src/help.cpp:201 | text that ends in the token `<press_b>` still has a closed token |
| PressKeys.ConstantDescriptionPlain | src/help.cpp:193 | a `press_x` that describes every action as `x` meets the requirement of the counterexample, so the counterexample has an instance |
| DetailText.JoinIsSeparated | src/help.cpp:214-219 | the `std::accumulate` join equals the independent definition: the first paragraph, then each next one preceded by `"\n\n"` |
| DetailText.AccumulateSeparated | src/help.cpp:215-219 | folding the remaining paragraphs onto an accumulator gives the accumulator followed by each paragraph after a break |
| DetailText.JoinSnoc | src/help.cpp:217-218 | one more paragraph adds one `"\n\n"` and that paragraph at the end |
| DetailText.JoinLength | src/help.cpp:214-219 | the join is as long as all paragraphs together plus two characters for each break between them |
| DetailText.Expanded | src/help.cpp:185-204 | each displayed line is the translated line with its tokens expanded, one for one and in order |
| DetailText.ExpandedNext | src/help.cpp:185-186 | transforming one more line appends that line's expansion |
| HelpScreen.MatchesExact | src/help.cpp:180-182 | the indices selected by a keystroke are exactly the `i` whose hotkey list `hotkeys[i]` contains the raw input |
| HelpScreen.HotkeysSelectByIndex | src/help.cpp:72-73 | a record's hotkeys are stored at its index in the file, so with orders not in file order a record's key selects the topic of another record |
| HelpScreen.NegativeOrderNeverStops | src/help.cpp:118 | with a negative order loaded, the size of `help_texts` after reading the orders below `n` exceeds `n`, for every `n` |
| HelpScreen.SpacedOrdersCollide | src/help.cpp:116-125 | with orders 0, 2 and 4, five labels are placed and those of orders 2 and 4 get the same position |
| HelpScreen.MatchesAscending | src/help.cpp:180-181 | the selected topics come in strictly ascending index order, each once |
| HelpScreen.MatchesNext | src/help.cpp:180-182 | examining one more topic's hotkeys adds its index exactly when the input is among them |
| HelpScreen.Handled | src/help.cpp:175-228 | the loop never reads more events than it is given |
| HelpScreen.HandledStopsAtQuit | src/help.cpp:223-228 | the loop continues past every event that was not `QUIT` or that selected a topic (it became `CONFIRM`), and stops at the first unmatched `QUIT` |
| HelpScreen.SessionFrom | src/help.cpp:175-228 | one pass of the do-while loop shows that event's pages, then goes on unless the event quits |
| HelpScreen.OpenedEntries | src/help.cpp:184-185 | the reads of `help_texts[i]` add exactly the orders read, and every order still reads as before |
| HelpScreen.PagesNext | src/help.cpp:206-222 | showing one more topic adds its page, or nothing for a topic without lines |
| HelpScreen.PagesSame | src/help.cpp:184-185 | the pages depend on `help_texts` only through what each order reads as |
| HelpScreen.Help.ShowTopic | src/help.cpp:183-222 | the lines of topic `i` are translated and expanded. A topic without lines shows nothing; otherwise its lines joined by `"\n\n"` are shown. `help_texts` only gains an empty topic at `i` if it was missing |
| HelpScreen.Help.HandleKey | src/help.cpp:179-227 | for every index `i` whose hotkey list (that of the `i`-th record loaded) contains the input, the topic stored under order `i` is shown, in ascending `i`, and the action becomes `CONFIRM` exactly when one matched. `help_texts` only gains empty topics at the matched orders |
| HelpScreen.Help.DisplayHelp | src/help.cpp:175-228 | the loop shows the pages of each event in turn, stops after the first unmatched `QUIT`, and leaves what every order reads as unchanged; it requires every loaded order to be non-negative, because otherwise the first redraw's `draw_menu` never returns and no event is read |

## Left out

- Reading the help data file (`help::load`, `read_from_file_json`, `JsonIn`/`JsonObject`) is left out: it is file I/O and parsing. The records arrive as a sequence of (name, order, messages). Malformed JSON and its error path are not modelled, and neither is the `type` field, which is only read to mark it visited.
- The curses and UI code is left out, because it is display only. This covers `werase`, `fold_and_print`, `shortcut_print`, `draw_border`, window creation, `ui_adaptor` callbacks, `scrollable_text` and `ui_manager::redraw`.
  - `DrawMenu` returns where each label would be printed. The first row `y` (what `fold_and_print` returned, plus one) and the window width are parameters.
  - `ShowTopic` returns the text `scrollable_text` would show.
  - `DisplayHelp` does not call `DrawMenu` on each redraw. When every order is non-negative, those redraws only add empty topics, which change no order's reading. With a negative order, the first redraw (src/help.cpp:176) never returns, so `DisplayHelp` requires every loaded order to be non-negative.
- `input_context` handling (`handle_input`, `get_raw_input`, `register_action`) is left out: it is the terminal's input. The keystrokes are a finite sequence of (action, raw text) events.
  - `DisplayHelp`: the real loop waits for further input, while the model also stops when the events run out.
- The game services are parameters of `Env`, with no behaviour of their own: `_()`, `colorize`, `get_note_color`, `get_note_color_names`, `press_x`, `look_up_action`, `keys_bound_to`, `get_hotkeys`, `utf8_width` and `resolved_game_paths`. `action_ident` is written out for the nine movement actions, with the identifiers the diagram template spells.
- `get_help` (a singleton) and `get_hint` (a random snippet) are left out: they are global state and randomness, with no logic of their own.
- `help.h` is not part of this model. `help_texts` is modelled as a map from order to (name, lines); its `size_t` indices are mathematical integers.
- `ExpandPressKeys`, `Expand`, `ShowTopic`, `HandleKey` and `DisplayHelp` require that `press_x` never produces a `<press_` of its own (`DescriptionsPlain`). Without that, the expansion loop can run forever, so the model covers only the terminating case.
- `Help.ShowTopic`, `Help.HandleKey`, `Help.DisplayHelp` and `PressKeys.ExpandPressKeys` show the corrected `<press_` expansion: the next search resumes at `pos`, the start of the replaced token, not at `pos2` as at src/help.cpp:201. On a line like the one under "Findings", the game leaves the second token unexpanded while these members expand it. The loop as written is `ExpandAsWritten` and is used only to exhibit the finding.
- `PressKeys.Expand`: what a closed token becomes is proved in three cases. These are one token between texts without `<press_` (`ExpandOneToken`), two tokens in a row (`ExpandTwoTokens`), and the token the scan starts from (`ScanPlacesReplacement`). A single statement for any mix of text and tokens is not proved.
- `Help.DrawMenu` and `Help.DisplayHelp` require every loaded order to be non-negative. With a negative order, the size never stops growing, so the loop in `draw_menu` does not terminate (`NegativeOrderNeverStops`). `display_help` runs it in its first redraw and never reads an event.
- `MenuLayout.LayoutPositions` and `MenuLayout.LayoutDistinct` require the first label's width to be non-negative. `utf8_width` always returns such a width.
- `DirGrid.GetDirGrid` starts from the template built piece by piece (`GridPieces`: placeholders, separators and the art between the rows). The proof that this rendering is character for character the string literal of `get_dir_grid` is not part of this model.
- `Help.Deserialize` commits `help_texts` and `hotkeys` once all records are read. The source writes each record as it goes; the only difference would show if the JSON failed midway, and that is not modelled.

## Findings

| source | as written | input that shows it | evidently intended | confidence | as-written member | corrected member |
|---|---|---|---|---|---|---|
| src/help.cpp:201 | after `replace_all` has shortened the line, the next `<press_` is searched from `pos2`, which is an index into the line before the replacement. A token that now starts between the end of the replacement and `pos2` is skipped and stays in the text | the line `<press_toggle_auto_travel_mode><press_b>` with `press_x` giving `x` for the first action: the first token (31 characters) becomes `<color_light_blue>x</color>` (27), and the search resumes at index 30, past the second token at index 27 | resume the search where the replaced token started (`pos`), so every closed token is expanded | medium; not executed | PressKeys.AsWrittenSkipsToken (on PressKeys.ExpandAsWritten) | PressKeys.ExpandPressKeys (proves `NoClosedToken`, via PressKeys.Expand; PressKeys.ExpandTwoTokens gives both replacements on the same line) |
