# DesktopPortfolio core, modelled in Dafny

DesktopPortfolio is a personal portfolio shown as a small desktop: projects
appear as desktop icons and open in draggable, resizable, snappable windows.
A terminal window accepts commands with Tab completion and history. An admin
panel edits projects, settings and theme colours, and a first-run setup
wizard creates the admin account and the initial settings. Each project
window has a media carousel.

This project models that core as pure functions over immutable datatypes
and proves properties of it:

- `window_manager.dfy`, with `geometry.dfy`: the window list.
  - Covers open, close, focus, maximize, drag with edge snapping, resize and release.
  - Proves an invariant over any event sequence: unique ids, distinct z-indices below the next one, the active window on top, and maximized windows always restorable.
- `hex_color.dfy`: the `#rrggbb` to `"r, g, b"` conversion used for CSS variables.
- `desktop.dfy`: which projects get icons, and the icon grid layout.
- `desktop_icon.dfy`: the click-versus-drag logic of an icon.
- `terminal.dfy`: command parsing and dispatch, and the Enter key.
- `terminal_keys.dfy`: the input field, history navigation and Tab completion.
- `admin_panel.dfy`: `slugify` and the project editor.
  - The editor covers selection, form loading, field and list edits, submit and cancel.
  - Also covers the theme colour editor and the skills field of the settings form.
- `carousel.dfy`: the media carousel of a project window.
- `setup_wizard.dfy`: the setup wizard's step machine, password gate, and the records written at the end.
- `types.dfy`, `text.dfy`, `wrappers.dfy` and `arith.dfy` hold shared definitions:
  - the project and theme records;
  - JavaScript string operations: `toLowerCase` on ASCII, `trim`, `split`, `join`, `startsWith` and `length` in UTF-16 code units;
  - `Option`;
  - facts about Euclidean division.

The setup wizard's backend calls are parameters of the model:

- creating the admin account;
- writing the settings and the about-me project.

Each is given as a success or a failure with a message. Saving a project from the admin panel is different: the editor only issues a create or update request (`AdminPanel.Outcome`). The editor's state does not depend on whether the save succeeds, because a failure is reported by an alert in App.tsx:305-321. The DOM measurements are parameters too:

- the `main` element's rectangle;
- the desktop height;
- the window width and height used when a window opens.

## Model

| member | source | states |
|---|---|---|
| HexColor.Parse | App.tsx:37 | A string is accepted exactly when it is six hex digits, optionally after `#`. Each decoded component is at most 255. |
| HexColor.HexToRgb | App.tsx:35-44 | Malformed input, including the empty string, gives `0, 0, 0`. Well-formed input gives the three decoded components. |
| HexColor.ParseEncode | App.tsx:37 | Encoding a colour as hex and parsing it back gives the same colour. |
| HexColor.HexToRgbRoundTrip | App.tsx:38-43 | The CSS string for an encoded colour is the decimal text of its three components. |
| HexColor.DecimalRoundTrip | App.tsx:39-42 | The decimal text of a number reads back as that number. |
| HexColor.ParseIgnoresCase | App.tsx:37 | Hex parsing ignores letter case, as the `i` flag promises. |
| Geometry.DragTo | App.tsx:349-353 | A dragged window moves by exactly the pointer's displacement since the press. |
| Geometry.Resize | App.tsx:375-404 | The new size is never below 400×300. Only edges named in the direction move; the opposite edge stays fixed. Each moved dimension is the start size plus or minus the delta, clamped to the minimum. |
| Geometry.SnapFor | App.tsx:355-371 | There is no preview unless the pointer is within 5px of the top, left or right edge. The top edge wins and gives a full-area maximize preview. The left edge gives the left half, rounded up. The right edge gives the right half, rounded down. |
| Geometry.SideHalves | App.tsx:366-369 | On an even width the left and right snap previews tile the desktop without a gap or an overlap. On an odd width the left half is rounded up and the right half starts at the rounded-down midpoint, so they overlap by 1px and the last 1px column is covered by neither. |
| WindowManager.FindWindow | App.tsx:226 | Finds a window with the id exactly when one exists. |
| WindowManager.Focus | App.tsx:255-261 | Focusing the active window changes nothing. Otherwise the window gets the next z-index, the counter advances, and the window becomes active. |
| WindowManager.NewWindow | App.tsx:236-248 | A new window takes the project's id, name and icon and the next z-index, and the given offset as its position. It is not maximized. Its width is the per-kind default or 80% of the viewport width, whichever is smaller, rounded down to a whole pixel. Its height is the per-kind fraction of the viewport height, rounded down. |
| WindowManager.Open | App.tsx:220-253 | The admin panel redirects to login when signed out (`Target`). An open window is focused. An unknown id changes nothing. A known project is appended as a new active window. |
| WindowManager.Without | App.tsx:214 | Exactly the windows with other ids remain. |
| WindowManager.Close | App.tsx:213-218 | The windows with that id are removed. The active window is cleared only if it was that id. |
| WindowManager.CloseRemovesOne | App.tsx:214 | With unique ids, closing removes exactly that window and keeps the order of the rest. |
| WindowManager.ToggleMaximize | App.tsx:263-283 | Ids and z-order are kept and other windows are untouched. Maximizing saves the geometry and fills the desktop; restoring brings the saved geometry back. |
| WindowManager.ToggleTwiceRestores | App.tsx:263-283 | Maximize then restore gives back every window's position and size. |
| WindowManager.ActionStart | App.tsx:328-340 | Pressing focuses the window. Unless the window is missing, or it is maximized and the gesture is a drag, a gesture starts that records the window, the kind of gesture, the resize direction, the pointer and the window's rectangle. Otherwise no gesture starts. |
| WindowManager.MouseMove | App.tsx:343-406 | Nothing happens without a gesture, and only the window under the gesture changes. A drag moves it by the pointer's displacement and un-maximizes it. A drag also sets the snap preview when the desktop element exists. A resize gives it exactly the rectangle `Geometry.Resize` computes from the rectangle at the press and the pointer's displacement, so it is at least 400×300 and only the named edges move. It also un-maximizes it. No move changes any window's saved pre-maximize geometry. |
| WindowManager.MouseUp | App.tsx:408-425 | The gesture and the preview end. A pending preview is committed to the window; a maximize preview first saves the window's geometry. |
| WindowManager.InitialValid | App.tsx:75-77 | The empty desktop satisfies the window invariant. |
| WindowManager.FocusValid | App.tsx:255-261 | Focus preserves the window invariant. |
| WindowManager.OpenValid | App.tsx:220-253 | Open preserves the window invariant. |
| WindowManager.CloseValid | App.tsx:213-218 | Close preserves the window invariant. |
| WindowManager.ToggleValid | App.tsx:263-283 | Maximize and restore preserve the window invariant. |
| WindowManager.ActionStartValid | App.tsx:328-340 | Starting a gesture preserves the window invariant. |
| WindowManager.MouseMoveValid | App.tsx:343-406 | Pointer moves preserve the window invariant. |
| WindowManager.MouseUpValid | App.tsx:408-425 | Release preserves the window invariant, including that a maximized window can be restored. |
| WindowManager.StepValid | App.tsx:213-425 | Every window event (`Step`) preserves the invariant. |
| WindowManager.RunValid | App.tsx:213-425 | Every sequence of window events preserves the invariant. |
| WindowManager.ClosedWindowNotResurrected | App.tsx:408-425 | After a window is closed mid-gesture, neither the release nor a pointer move brings it back. |
| WindowManager.MaximizeSnapThenRestore | App.tsx:413-419 | Releasing onto the maximize preview and then restoring returns the geometry the window had at release. |
| Desktop.DesktopItems | components/Desktop.tsx:19-28 | Icons (`OnDesktop`) are kept exactly for projects other than login and admin-panel. The about-me project is kept only once it is stored in the backend. |
| Desktop.DesktopItemsOrder | components/Desktop.tsx:19-28 | The filter distributes over concatenation, so it keeps the order. |
| Desktop.ColumnFits | components/Desktop.tsx:36 | A full column of `MaxPerColumn` icons fits inside the padding, and one more icon would not. |
| Desktop.Slot | components/Desktop.tsx:55-61 | Every slot lies inside the padding. |
| Desktop.SlotIndexOfSlot | components/Desktop.tsx:56-61 | A slot's position determines its index. |
| Desktop.SlotInjective | components/Desktop.tsx:56-61 | Distinct slot indices give distinct positions. |
| Desktop.SlotSuccessor | components/Desktop.tsx:56-61 | The next slot is one row down, or the top of the next column once a column is full. |
| Desktop.Survivors | components/Desktop.tsx:39-47 | Exactly the previous positions of ids still on the desktop are kept, unchanged. |
| Desktop.Unpositioned | components/Desktop.tsx:50 | The new items are exactly the desktop ids without a kept position. |
| Desktop.UnpositionedOrder | components/Desktop.tsx:50 | The filter distributes over concatenation, so new items keep their desktop order. |
| Desktop.Assign | components/Desktop.tsx:54-64 | Every new id gets a position, and others keep theirs. |
| Desktop.AssignSlots | components/Desktop.tsx:54-64 | Distinct new items take consecutive slots in list order. |
| Desktop.AssignSlot | components/Desktop.tsx:52-62 | The `k`-th of distinct new items takes slot `next + k`: the counter starts at `next` and moves on by one per placed item. |
| Desktop.Calculate | components/Desktop.tsx:30-67 | A missing desktop element changes nothing. Otherwise surviving positions are kept and stale ones dropped. When the desktop is too short nothing new is placed; otherwise every item gets a position. |
| Desktop.NewItemsNumberedFromSurvivors | components/Desktop.tsx:52-62 | The k-th new item takes slot (number of survivors + k). |
| Desktop.TooShortPlacesNothing | components/Desktop.tsx:55 | On a desktop too short for one icon, an item without a position is not drawn. |
| Desktop.PositionChange | components/Desktop.tsx:75-80 | Moving an icon changes that icon's position only. |
| Desktop.Rendered | components/Desktop.tsx:84-86 | Exactly the desktop items that have a position are drawn, each at its position. |
| Desktop.OverlapAfterRemoval | components/Desktop.tsx:49-62 | As written, removing the first of three icons and adding a new one puts the new icon on the third icon's slot. |
| Desktop.CalculateFree | components/Desktop.tsx:30-67 | Layout with new items placed into free slots keeps every promise of `Calculate` listed above. |
| Desktop.NewIconsApart | components/Desktop.tsx:49-62 | With free-slot placement, no new icon shares a position with any other icon. |
| DesktopIcon.MouseDown | components/DesktopIcon.tsx:49-64 | A press starts a gesture that has not moved, recording the pointer and the icon origin. |
| DesktopIcon.MouseMove | components/DesktopIcon.tsx:23-39 | Outside a gesture nothing happens. Under 5px from the press, before any move, nothing happens. Otherwise the icon counts as moved and its new position is reported. |
| DesktopIcon.MouseUp | components/DesktopIcon.tsx:41-47 | Release ends the gesture and keeps whether it moved. |
| DesktopIcon.DoubleClick | components/DesktopIcon.tsx:66-71 | A double click opens the project exactly when the last gesture did not move. |
| DesktopIcon.MovedIffFarMove | components/DesktopIcon.tsx:23-39 | During a gesture the icon has moved exactly when some pointer position was at least 5px from the press. |
| DesktopIcon.ClickOpensUnlessDragged | components/DesktopIcon.tsx:23-71 | Press, moves, release and double click open the project exactly when no move went 5px or more from the press. |
| Terminal.ProjectNames | components/Terminal.tsx:42-44 | The names listed are exactly those of the non-system projects. |
| Terminal.ProjectNamesOrder | components/Terminal.tsx:42-44 | The filter-and-map distributes over concatenation, so `ls` and name completion list the names in project order. |
| Terminal.TokensAreWords | components/Terminal.tsx:55 | The tokens of a command line (`Tokens`) are non-empty, lower-case and contain no spaces. |
| Terminal.TokensIgnoreCase | components/Terminal.tsx:55 | Command lines that differ only in case tokenize alike. |
| Terminal.TokensOfJoin | components/Terminal.tsx:55 | Lower-case words joined by single spaces tokenize back to the same words. |
| Terminal.TrimmedLineHasCommand | components/Terminal.tsx:204-208 | The trimmed non-empty line that Enter dispatches always has a command word. |
| Terminal.FindByName | components/Terminal.tsx:91 | Finds a project whose name matches case-insensitively, exactly when one exists. |
| Terminal.FindByNameFirst | components/Terminal.tsx:91 | The project found is the first one whose name matches, as `find` returns. |
| Terminal.CommandsRecognised | components/Terminal.tsx:58-148 | The recognised words are exactly the command list plus `/login`. |
| Terminal.Dispatch | components/Terminal.tsx:55-148 | "command not found" is the reply exactly for an unknown command word, and it has no effect. Only `open`, `theme`, `clear`, `login` and `exit` have an effect. The screen is cleared exactly for `clear`, the terminal closes exactly for `exit`, and the theme changes exactly for `theme`, which reports the theme it sets. An empty token list is not a command. |
| Terminal.OpensOnlyNamed | components/Terminal.tsx:101-143 | Processing a line (`Process`, `Answer`): a window opens only for `login`, or for `open` naming an existing project, and then it is that project. |
| Terminal.NotFoundIffUnknown | components/Terminal.tsx:147-148 | Processing a line (`Process`, `Answer`): "command not found" is printed exactly for an unknown command word, and it has no effect. |
| Terminal.SingleWord | components/Terminal.tsx:55-56 | A single lower-case word is its own only token, with an empty argument. |
| Terminal.UsageWithoutName | components/Terminal.tsx:89-104 | `cat` and `open` without a name print only their usage line. |
| Terminal.OpenByName | components/Terminal.tsx:101-107 | `open <name>` opens the first case-insensitive name match. When none matches it reports the miss and opens nothing. |
| Terminal.ThemeChoice | components/Terminal.tsx:116-120 | `theme` selects light exactly when the argument is `light`, and dark otherwise. |
| Terminal.LoginOpensLogin | components/Terminal.tsx:140-143 | `login` and `/login` open the login window. |
| Terminal.ClearCommand | components/Terminal.tsx:137-139 | `clear` prints nothing and asks for the screen to be cleared. |
| Terminal.EnterAsWritten | components/Terminal.tsx:203-219 | Enter resets the input, the history cursor and the suggestions. A non-blank line is stored trimmed at the front of the history. The earlier screen is kept and the echo is appended to it. A blank line adds only the echo. For a non-blank line the reply lines of the processed command follow the echo, and the effect is the processed command's effect. |
| Terminal.ClearKeepsScreen | components/Terminal.tsx:137-139 | As written, `clear` leaves every earlier line on screen and adds its echo. |
| Terminal.Enter | components/Terminal.tsx:203-219 | Corrected Enter: the screen is empty exactly when the command was `clear`, and everything else is as written. |
| Terminal.ClearEmptiesScreen | components/Terminal.tsx:137-139 | With the correction, `clear` leaves an empty screen. |
| TerminalKeys.InputChange | components/Terminal.tsx:152-158 | Typing replaces the input and withdraws suggestions. The suggestion index resets only if suggestions were on offer. The terminal invariant is kept. |
| TerminalKeys.HistoryUp | components/Terminal.tsx:220-227 | ArrowUp recalls the next older command if there is one, and clears suggestions; otherwise nothing changes. |
| TerminalKeys.HistoryDown | components/Terminal.tsx:228-239 | ArrowDown recalls the next newer command, or at the newest goes back to an empty line. It always clears suggestions. |
| TerminalKeys.UpThenDown | components/Terminal.tsx:220-239 | ArrowUp then ArrowDown returns to the same entry and input. |
| TerminalKeys.UpRecalls | components/Terminal.tsx:220-227 | k presses of ArrowUp from an empty line recall the k-th most recent command. |
| TerminalKeys.Matching | components/Terminal.tsx:183-186 | The candidates are exactly the entries extending the word, optionally ignoring case. |
| TerminalKeys.MatchingOrder | components/Terminal.tsx:183-186 | The filter distributes over concatenation, so candidates keep the order of the command or name list. This fixes `suggestions[0]` and the Tab cycle order. |
| TerminalKeys.CommandCompletions | components/Terminal.tsx:179-183 | On the command word (`CompletingCommand`), the computed completions (`Completions`) are exactly the commands extending it. |
| TerminalKeys.NameCompletions | components/Terminal.tsx:184-186 | After `cat` or `open`, the completions (`Completions`, matching `ArgToComplete`) are exactly the non-system project names extending the argument, ignoring case. |
| TerminalKeys.NoCompletions | components/Terminal.tsx:178-187 | Any other line has no candidates. |
| TerminalKeys.CurrentWordIsTail | components/Terminal.tsx:164-175 | The word under the cursor is the text after the last space. |
| TerminalKeys.ReplaceWordKeepsPrefix | components/Terminal.tsx:192 | Replacing the last word keeps everything up to the last space. |
| TerminalKeys.NothingTypedIffEmpty | components/Terminal.tsx:176 | Tab gives up at once exactly on the empty line. |
| TerminalKeys.Offer | components/Terminal.tsx:189-200 | No candidate changes nothing. One candidate replaces the word, plus a space after a command. Several are offered with the first shown. |
| TerminalKeys.Complete | components/Terminal.tsx:175-201 | Completion keeps the screen and history and the terminal invariant. |
| TerminalKeys.TabAsWritten | components/Terminal.tsx:160-201 | As written, while suggestions are on offer, the next one replaces the text after the last space. |
| TerminalKeys.CycleAsWritten | components/Terminal.tsx:165-172 | The as-written cycling step replaces only the last space-separated word. |
| TerminalKeys.CyclingSplitsNames | components/Terminal.tsx:165-172 | As written, cycling away from a suggestion containing a space does not give the text before it followed by the next suggestion. |
| TerminalKeys.Cycle | components/Terminal.tsx:165-172 | Corrected cycling replaces the whole shown suggestion by the next one. It keeps the text before it and the invariant. |
| TerminalKeys.Tab | components/Terminal.tsx:160-201 | Corrected Tab keeps the screen, the history and the terminal invariant. |
| TerminalKeys.TabOnEmptyLine | components/Terminal.tsx:176 | Tab on an empty line does nothing. |
| TerminalKeys.TabCompletes | components/Terminal.tsx:175-200 | Tab without suggestions applies the candidate rules of `Offer` to the computed completions. |
| TerminalKeys.TabCycles | components/Terminal.tsx:166-171 | With the correction, k presses of Tab show the suggestion k places on, cyclically, after the same text. |
| TerminalKeys.Press | components/Terminal.tsx:160-240 | The corrected key handler, with the corrected Tab and Enter. Every key keeps the terminal invariant. Only Enter has an effect or changes the screen. |
| TerminalKeys.Keys | components/Terminal.tsx:160-240 | With the corrected handler, any key sequence keeps the terminal invariant. |
| TerminalKeys.InitialValid | components/Terminal.tsx:160-240 | The opening terminal state satisfies the invariant. |
| TerminalKeys.HistoryGrowsOnlyOnEnter | components/Terminal.tsx:203-213 | With the corrected handler, without Enter, the command history and the screen never change. |
| TerminalKeys.PressAsWritten | components/Terminal.tsx:160-240 | The key handler as written, with the as-written Tab and Enter. Every key keeps the terminal invariant. Only Enter has an effect or changes the screen. |
| TerminalKeys.KeysAsWritten | components/Terminal.tsx:160-240 | With the handler as written, any key sequence keeps the terminal invariant. |
| TerminalKeys.HistoryGrowsOnlyOnEnterAsWritten | components/Terminal.tsx:203-213 | With the handler as written, without Enter, the command history and the screen never change. |
| TerminalKeys.PressDiffersOnlyOnFixes | components/Terminal.tsx:160-240 | The corrected and as-written handlers agree on every key except Tab and an Enter that clears the screen. |
| AdminPanel.Dashed | components/AdminPanel.tsx:191 | Each run of characters outside `[a-z0-9]` becomes a single `-`. The result has no `--`, is empty exactly when the input is, and keeps a leading slug character. |
| AdminPanel.StripDashes | components/AdminPanel.tsx:191 | Dropping the edge dashes of such text gives a slug. |
| AdminPanel.Slugify | components/AdminPanel.tsx:191 | The result uses only `[a-z0-9-]`, has no `--`, and no dash at either end. |
| AdminPanel.SlugifyWords | components/AdminPanel.tsx:191 | The slug is the maximal `[a-z0-9]` runs of the lower-cased text, in order, joined by single dashes. |
| AdminPanel.WordsAreWords | components/AdminPanel.tsx:191 | Each of those runs is non-empty and made of `[a-z0-9]` only. |
| AdminPanel.DashedWords | components/AdminPanel.tsx:191 | For text starting with a slug character, replacing each separator run by one dash and dropping a trailing dash gives its runs joined by dashes. |
| AdminPanel.SlugFixed | components/AdminPanel.tsx:191 | The slugs are exactly the texts `slugify` leaves unchanged. |
| AdminPanel.SlugifyIdempotent | components/AdminPanel.tsx:191 | Slugifying twice is slugifying once. |
| AdminPanel.FormOf | components/AdminPanel.tsx:185 | The JSON copy of a project carries its id and its name. |
| AdminPanel.Editable | components/AdminPanel.tsx:171 | The editable projects are exactly the non-system ones. |
| AdminPanel.EditableOrder | components/AdminPanel.tsx:171 | The filter distributes over concatenation, so the editable projects keep their order. |
| AdminPanel.FirstEditable | components/AdminPanel.tsx:172 | The initial selection is a non-empty id of an editable project. It is null when there is none. |
| AdminPanel.FirstEditableIsFirst | components/AdminPanel.tsx:171-172 | The initial selection is the id of the first non-system project, or null when that id is empty. |
| AdminPanel.StoredForm | components/AdminPanel.tsx:185 | The form holds the stored project's copy, or is empty when the id is unknown. |
| AdminPanel.Load | components/AdminPanel.tsx:181-189 | `new` loads the template. No selection or an empty id loads an empty form. Any other id loads the stored project. |
| AdminPanel.Select | components/AdminPanel.tsx:181-189 | A changed selection reloads the form; an unchanged one changes nothing. |
| AdminPanel.OpenOnFirst | components/AdminPanel.tsx:171-189 | The editor opens on the first project that is not a built-in window. If that project's id is empty, nothing is selected and the form is empty. If the id is `new`, the form is the new-project template. Otherwise the form is that project's JSON copy. |
| AdminPanel.OpenNothingEditable | components/AdminPanel.tsx:171-189 | With only built-in windows, the editor opens with nothing selected and an empty form. |
| AdminPanel.InputChange | components/AdminPanel.tsx:193-203 | A `links.X` field sets link X. The name of a new project also sets the id to its slug. Any other field sets that key. |
| AdminPanel.LinkEditIsLocal | components/AdminPanel.tsx:195-197 | A link edit changes that link only and no other field. |
| AdminPanel.NewNameSetsId | components/AdminPanel.tsx:198-199 | Naming a new project sets its name and its slug id, nothing else. |
| AdminPanel.FieldEditIsLocal | components/AdminPanel.tsx:200-201 | Any other edit changes only its own key. |
| AdminPanel.ArrayChange | components/AdminPanel.tsx:205-207 | A list field becomes the trimmed non-empty comma pieces; other keys are unchanged. |
| AdminPanel.ArrayFieldRoundTrip | components/AdminPanel.tsx:205-207 | A list shown joined by `", "` and typed back is stored unchanged. |
| AdminPanel.Submit | components/AdminPanel.tsx:209-222 | A missing id or name is rejected. A new project with a used id is rejected. A new project otherwise is created and its id selected. The selection change reloads the form from the current projects (AdminPanel.tsx:181-189), which do not hold the new one yet, so the form empties. If the id is `new` itself, the selection does not change and the form stays. An existing project is updated with the form. |
| AdminPanel.SubmitOutcomes | components/AdminPanel.tsx:211-221 | With an id and a name, saving creates exactly when the project is new and the id is unused. |
| AdminPanel.Cancel | components/AdminPanel.tsx:224-230 | Cancelling a new project selects the first editable one. Otherwise the stored form is restored. |
| AdminPanel.CancelUndoesEdits | components/AdminPanel.tsx:224-230 | Cancel after any field edit of a stored project returns the editor to its loaded state. |
| AdminPanel.ColorChange | components/AdminPanel.tsx:54-58 | Exactly one colour of one theme changes. |
| AdminPanel.ColorChangeSame | components/AdminPanel.tsx:54-58 | Setting a colour to its current value changes nothing. |
| AdminPanel.SkillsText | components/AdminPanel.tsx:117-122 | Anything but an array shows as empty text. |
| AdminPanel.SkillsRoundTrip | components/AdminPanel.tsx:117-122 | Skills shown joined by `", "` parse back to the same list. |
| Text.Trim | components/Terminal.tsx:204 | The result has no white space at either end, and already trimmed text is unchanged. |
| Text.TrimStart | components/Terminal.tsx:204 | The result is a suffix of the input that does not start with white space, and everything dropped is white space. |
| Text.TrimEnd | components/Terminal.tsx:204 | The result is a prefix of the input that does not end with white space, and everything dropped is white space. |
| Text.TrimSlice | components/Terminal.tsx:204 | `trim` keeps a contiguous slice of the input and drops only white space before and after it. |
| Text.Split | components/Terminal.tsx:164 | There is at least one piece and no piece contains the separator. |
| Text.JoinSplit | components/Terminal.tsx:164-170 | Joining the pieces of a split with the same separator gives back the input. |
| Text.ParseList | components/AdminPanel.tsx:206 | The items are non-empty, trimmed and comma-free. |
| Text.ParseJoinedList | components/AdminPanel.tsx:206 | Parsing the `", "`-join of such items gives them back. |
| Carousel.Visuals | components/ProjectContent.tsx:11-15 | The images are the demo GIF and the diagram when set and non-empty, followed by the screenshots, in that order. |
| Carousel.CarouselShown | components/ProjectContent.tsx:42 | The carousel shows exactly when there is a truthy GIF or diagram, or a screenshot. |
| Carousel.Previous | components/ProjectContent.tsx:19-23 | Previous steps back one image, wrapping from the first to the last. |
| Carousel.Next | components/ProjectContent.tsx:25-29 | Next steps on one image, wrapping from the last to the first. |
| Carousel.NextIsModular | components/ProjectContent.tsx:19-29 | Next is +1 and previous is -1, both modulo the number of images. |
| Carousel.NextPreviousInverse | components/ProjectContent.tsx:19-29 | Next and previous undo each other. |
| Carousel.IndexInRange | components/ProjectContent.tsx:19-29 | Arrows and dots (`Press`), with dots that name an image (`DotsInRange`), always land on an image. |
| Carousel.CarouselIndexValid | components/ProjectContent.tsx:17 | Starting on the first image, any presses stay on an image. |
| Carousel.ForwardTimes | components/ProjectContent.tsx:25-29 | k presses of next move k images on, cyclically. |
| SetupWizard.SetText | components/SetupScreen.tsx:58-61 | Typing changes exactly the named field. |
| SetupWizard.Settings | components/SetupScreen.tsx:99-108 | The settings record is marked complete, keeps the colours, and stores the skills as a list of trimmed, non-empty, comma-free items. |
| SetupWizard.SettingsKeepsFields | components/SetupScreen.tsx:99-108 | Every text field except email, password, aboutMe, aboutMeFeatures and the raw skills text is copied into the settings record. Those five are absent from it. |
| SetupWizard.SettingsIgnoreOmitted | components/SetupScreen.tsx:99 | Nothing typed into email, password, aboutMe or aboutMeFeatures reaches the settings record. |
| SetupWizard.SettingsSkillsRoundTrip | components/SetupScreen.tsx:101 | Skills typed as a `", "`-list are stored as that list. |
| SetupWizard.AboutMeProject | components/SetupScreen.tsx:112-123 | The about-me project has id `about-me`, no links and comma-parsed features. |
| SetupWizard.AboutMeIsContent | components/SetupScreen.tsx:112-113 | The about-me id is none of the terminal, login and admin-panel ids, so the document counts as portfolio content. |
| SetupWizard.AboutMeAgreesWithSettings | components/SetupScreen.tsx:112-123 | Its techStack is the settings' skills list and its tagline is theirs. Its text and features come from the about-me fields. |
| SetupWizard.AboutMeIgnoresCredentials | components/SetupScreen.tsx:112-123 | The email and password do not reach the about-me project. |
| SetupWizard.ErrorText | components/SetupScreen.tsx:87 | A failure message is shown if non-empty; otherwise the non-empty fallback is shown. |
| SetupWizard.Initial | components/SetupScreen.tsx:37-56 | The wizard opens on step 1 with empty credentials, the default palette, the about-me project requested, no error and not completed. |
| SetupWizard.AdminSubmit | components/SetupScreen.tsx:72-91 | A password under 6 UTF-16 code units sets the error, makes no backend call and keeps the step. Otherwise success moves to the next step and clears the error, and failure shows an error on the same step. |
| SetupWizard.AstralPasswordPasses | components/SetupScreen.tsx:77 | A password of three emoji, three characters but six UTF-16 code units, passes the length check. |
| Text.Utf16Length | components/SetupScreen.tsx:77 | The UTF-16 length that `.length` reports lies between the number of characters and twice it. |
| Text.Utf16LengthBmp | components/SetupScreen.tsx:77 | On characters below U+10000 it is the number of characters. |
| SetupWizard.FinalSubmit | components/SetupScreen.tsx:93-132 | The settings record is always written. The about-me project is written only after that succeeds and only if requested. The wizard completes exactly when every attempted write succeeded, and otherwise shows an error. The step never moves. |
| SetupWizard.ColorChange | components/SetupScreen.tsx:63-67 | Exactly one colour of one theme changes, and nothing else in the wizard. |
| SetupWizard.ColorChangeUndo | components/SetupScreen.tsx:63-67 | Putting the old colour back restores the wizard. |
| SetupWizard.Apply | components/SetupScreen.tsx:134-203 | Each event keeps the step in 1..4 and moves it by at most one. Events whose control is not on screen (not `Available`, text fields not `Shown` on the step) change nothing. |
| SetupWizard.StepInRange | components/SetupScreen.tsx:134-211 | Any event sequence keeps the step in 1..4, so the step title always exists. |
| SetupWizard.LeaveFirstStep | components/SetupScreen.tsx:77-85 | The only way off step 1 is a successful account creation with a password of at least 6 UTF-16 code units, and it leads to step 2. |
| SetupWizard.CompleteOnlyAfterWrites | components/SetupScreen.tsx:104-126 | Completion happens only on step 4, after the settings write succeeded and, if requested, the about-me write did too. |
| SetupWizard.AccountBeforeProfile | components/SetupScreen.tsx:83-85 | A run that leaves step 1 contains a successful account creation. |
| SetupWizard.CompletionNeedsAccount | components/SetupScreen.tsx:83-126 | Setup completes only in a run that created the admin account. |
| SetupWizard.PasswordOnlyOnFirstStep | components/SetupScreen.tsx:136-146 | The password can change only by typing it on step 1. |
| SetupWizard.ProgressShown | components/SetupScreen.tsx:21-34 | On step s exactly the first s circles are lit. A connector is lit exactly when the circle after it is. |

## Left out

- The backend is not modelled. Account creation, reading and writing settings, the project subscription and project saves are parameters or are outside the model. `firebase.ts` is not part of this model.
- Merging backend projects over the built-in ones (App.tsx:135-139) is left out. The model takes the merged project list as input.
- The auth state listener, the settings loader, the theme toggle and the CSS-variable effect (App.tsx:82-190) are left out. They are I/O and styling.
- Saving settings (App.tsx:285-303) is left out. Only the skills text conversion it shares with the forms is modelled (`Text.ParseList`).
- Rendering-only components are left out: `Window.tsx`, `Taskbar.tsx`, `StartMenu.tsx`, `Header.tsx`, `Footer.tsx`, `ProjectCard.tsx`, `SkillTag.tsx`, `Login.tsx` and the `pages/` files.
- The help, contact and neofetch texts of the terminal are not reproduced. Their replies are modelled as reply kinds.
- WindowManager.NewWindow: the random position offset (`Math.random`) is the parameter `env.offset`.
  - The default sizes are computed from the viewport and rounded down to whole pixels, because the model's coordinates are integers. App.tsx:243-244 keeps the fractional values.
- DesktopIcon.MouseMove: the `Math.sqrt(dx*dx + dy*dy) < 5` test is stated as `dx*dx + dy*dy < 25`. The two agree on integer pointer coordinates.
- Geometry.SnapFor: pointer and rectangle coordinates are integers. Fractional CSS pixels are not modelled.
- Text.Lower and AdminPanel.Slugify lower-case ASCII letters only. JavaScript's `toLowerCase` also maps non-ASCII letters.
- White space for `trim` and `split(/\s+/)` is an explicit set of characters, not the full Unicode set.
- AdminPanel.FormOf: the JSON copy is modelled on the fields a project has.
  - The `isFirestore` flag is copied as a flag.
  - Optional properties that are absent become absent keys.
- The setup wizard's prefilled texts (portfolio name, about text, skills and similar) are a parameter of SetupWizard.Initial.
- The `isLoading` flag of the wizard and of the submit buttons is not modelled. Each submit is handled as one atomic step.
- The browser's own form validation is not modelled. This covers `required` fields and `type="email"`, which can stop a submit before the handler runs.
- AdminPanel.Submit: the later reload is not modelled. After a create, the project subscription eventually delivers the stored project, with its `isFirestore` flag, and the effect at AdminPanel.tsx:181-189 refills the form with its copy. The model stops at the emptied form.
- AdminPanel.Select / AdminPanel.Load: a change of the project list is not an event of the model. The load effect at AdminPanel.tsx:181-189 depends on both the selection and `projects`, so every delivery from the project subscription reloads the form and discards unsaved edits. This includes the delivery after an update or a create, which refills the form with the stored copy, `isFirestore` flag included. The model's form changes only on selection changes, field edits, submit and cancel.
- Concurrency between React state updates is not modelled, except where a later update overwrites an earlier one in the same handler (the `clear` finding below).

## Findings

| source | as written | input that shows it | evidently intended | confidence | as-written member | corrected member |
|---|---|---|---|---|---|---|
| components/Terminal.tsx:137-139 | `clear` calls `setHistory([])`, and then the Enter handler calls `setHistory(newHistory)`, so the later write wins. | Type `help`, Enter, then `clear`, Enter: the help output stays and `$ clear` is added below it. | `clear` empties the terminal screen, as its help line says. | not executed; high | Terminal.EnterAsWritten (Terminal.ClearKeepsScreen) | Terminal.Enter (Terminal.ClearEmptiesScreen) |
| components/Desktop.tsx:49-62 | New icons are numbered from the count of surviving positions, not from the free slots. | Icons a, b, c on slots 0, 1, 2; a is removed and d added: d gets slot 2, on top of c. | New icons go to slots no other icon holds. | not executed; high | Desktop.Calculate (Desktop.OverlapAfterRemoval) | Desktop.CalculateFree (Desktop.NewIconsApart) |
| components/Terminal.tsx:165-172 | Cycling suggestions replaces only the text after the last space of the input. | Projects "My App" and "My Blog"; type `open m`, Tab, Tab: the input becomes `open My My Blog`. | Each Tab replaces the whole shown suggestion by the next one. | not executed; high | TerminalKeys.TabAsWritten (TerminalKeys.CyclingSplitsNames) | TerminalKeys.Tab (TerminalKeys.TabCycles) |
