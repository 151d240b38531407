# Oracle bot core, modelled in Dafny

Oracle is a Telegram bot for the field staff of an internet provider. Employees use it to browse menus, see their active tasks, read task details, export reports to Excel and receive monitoring alerts. This project models the parts of the bot that decide *what* is shown. I/O is left out: Telegram, PostgreSQL, Redis and gRPC do not appear. What is modelled:

- **Menu registry** (`MenuTypes`): the seven declared menus, their buttons and layouts, and the fail-closed admin check.
- **Keyboard builder** (`MenuBuilding`):
  - permission filtering;
  - layout rows followed by one-per-row overflow, with location buttons only in layout rows;
  - the back row, and the back-only fallback for an unknown menu;
  - the navigation side effects of `ShowMenu` and `NavigateBack`;
  - the reverse lookup from a button label to its handler or sub-menu.
- **Navigation stack** (`Navigation`): a per-user history of menus, as a class over a map of sequences.
- **One-shot user state** (`States`): `Set` overwrites; `Get` reads and deletes.
- **Localizer** (`I18n`):
  - lookup with fallback to English and then to the key;
  - the hand-written `indexOf` and `replaceAll` loops behind `{placeholder}` substitution;
  - language-code normalisation.
- **Task keyboards and task text** (`TaskKeyboards`): task buttons chunked into rows of three, the task keyboard with the comment button, and the conditional sections of the task-details message.
- **Excel report layout** (`Report`): sheet-name truncation, grouping tasks by type, and the row, range and table-name arithmetic of each sheet.
- **Customer agreements** (`Agreements`): choosing the agreement for a customer, and expanding a task into report rows.
- **Alert text** (`Alerts`): the Telegram message for one monitoring alert.

Shared pieces:

- `Wrappers`: `Option` and `Result`.
- `Text`: decimal rendering and parsing, and `strings.Join`.
- `Slices`: small lemmas about slicing and concatenating sequences.

Collaborators the code calls are parameters of the model:

- the admin repository, as a total function from user id to `Result<bool, string>`;
- the agreements RPC, as a function from request to `Result`;
- the repositories' answers, as `Result` values;
- the translation tables, as a map.

## Model

| member | source | states |
|---|---|---|
| MenuTypes.IsAdminCheck | internal/bot/menu_types.go:226-238 | the admin check holds exactly when the repository answers `true`; a repository error counts as not admin (fails closed) |
| MenuTypes.RoleHolds | internal/bot/menu_types.go:175-178 | the admin-panel role check is evaluated by the admin check |
| MenuTypes.MenuRegistry.constructor | internal/bot/menu_types.go:47-62 | a new registry holds exactly the seven declared menus |
| MenuTypes.MenuRegistry.RegisterMainMenu | internal/bot/menu_types.go:64-92 | stores the main menu under its key, overwriting and leaving other keys alone |
| MenuTypes.MenuRegistry.RegisterTasksMenu | internal/bot/menu_types.go:94-111 | stores the tasks menu under its key |
| MenuTypes.MenuRegistry.RegisterProfileMenu | internal/bot/menu_types.go:113-134 | stores the profile menu under its key |
| MenuTypes.MenuRegistry.RegisterStatsMenu | internal/bot/menu_types.go:136-157 | stores the statistics menu under its key |
| MenuTypes.MenuRegistry.RegisterMoreMenu | internal/bot/menu_types.go:159-181 | stores the "more" menu under its key |
| MenuTypes.MenuRegistry.RegisterAdminMenu | internal/bot/menu_types.go:183-204 | stores the admin menu under its key |
| MenuTypes.MenuRegistry.RegisterNearTasksMenu | internal/bot/menu_types.go:206-218 | stores the near-tasks menu under its key |
| MenuTypes.MenuRegistry.Get | internal/bot/menu_types.go:221-223 | returns the stored definition exactly when the key is registered, and nothing otherwise |
| MenuTypes.DeclaredKeys | internal/bot/menu_types.go:53-59 | the registry's keys are exactly the seven menu types |
| MenuTypes.DeclaredTypesMatchKeys | internal/bot/menu_types.go:64-218 | every definition's type field equals its registry key |
| MenuTypes.DeclaredMenuCases | internal/bot/menu_types.go:47-62 | each registered key maps to its own declared menu, and there are no others |
| MenuTypes.DeclaredButtonsHaveOneTarget | internal/bot/menu_types.go:64-218 | every declared button has exactly one of handler and sub-menu |
| MenuTypes.DeclaredSubMenusRegistered | internal/bot/menu_types.go:64-218 | every sub-menu a button opens is a registered menu |
| MenuTypes.OnlyMainWithoutBack | internal/bot/menu_types.go:64-218 | the main menu is the only menu without a back row |
| MenuTypes.OnlyAdminPanelRoleChecked | internal/bot/menu_types.go:175-178 | the admin-panel button of the "more" menu is the only button with a role check |
| Navigation.Top | internal/bot/navigation_stack.go:47-57 | the current menu is the last entry, or the main menu for an empty history |
| Navigation.Popped | internal/bot/navigation_stack.go:32-44 | popping removes exactly the last entry; an empty history stays empty |
| Navigation.PoppedPushed | internal/bot/navigation_stack.go:20-44 | push then pop restores the history and returns the pushed menu |
| Navigation.NavigationStack.constructor | internal/bot/navigation_stack.go:12-17 | a new stack has no histories |
| Navigation.NavigationStack.History | internal/bot/navigation_stack.go:20-29 | a user without an entry has the empty history |
| Navigation.NavigationStack.Push | internal/bot/navigation_stack.go:20-29 | appends the menu to this user's history only |
| Navigation.NavigationStack.Pop | internal/bot/navigation_stack.go:32-44 | returns the top; an empty history returns the main menu and changes nothing; otherwise only this user's last entry is removed |
| Navigation.NavigationStack.Current | internal/bot/navigation_stack.go:47-57 | returns the last entry, or the main menu, and changes nothing |
| Navigation.NavigationStack.Reset | internal/bot/navigation_stack.go:60-65 | removes this user's entry only; afterwards the history is empty |
| Navigation.NavigationStack.Depth | internal/bot/navigation_stack.go:68-73 | the history length, changing nothing |
| Navigation.PushThenPopAll | internal/bot/navigation_stack.go:20-44 | N pushes then N pops return the path in reverse and restore the history |
| States.StateManager.constructor | internal/bot/state_manager.go:17-19 | a new manager holds no states |
| States.StateManager.Set | internal/bot/state_manager.go:23-27 | overwrites this user's state and no other |
| States.StateManager.Get | internal/bot/state_manager.go:30-39 | reports the stored state and `true` exactly when one exists, or the zero state and `false`; the entry is deleted either way |
| States.SetThenGetTwice | internal/bot/state_manager.go:23-39 | after `Set`, the first `Get` returns the state, and the second returns the zero state and `false` |
| I18n.Get | internal/i18n/i18n.go:58-79 | returns the language's translation; failing that, the English one for a non-English language; failing that, the key |
| I18n.IndexOf | internal/i18n/i18n.go:111-118 | returns -1 when there is no occurrence, otherwise the first occurrence, always within `[-1, len(s) - len(sub)]` |
| I18n.ReplaceAll | internal/i18n/i18n.go:96-108 | computes the left-to-right, non-overlapping replacement |
| I18n.Replaced | internal/i18n/i18n.go:96-108 | the reference for `replaceAll`: a replacement no longer than the pattern never lengthens the text, and one no shorter never shortens it |
| I18n.ReplacedWithoutOccurrence | internal/i18n/i18n.go:96-108 | text with no occurrence of the pattern is unchanged |
| I18n.ReplacedAtOccurrence | internal/i18n/i18n.go:99-105 | the prefix before the first match is kept, the match becomes the replacement, and the rest is replaced in turn |
| I18n.ReplacedKeepsPrefix | internal/i18n/i18n.go:96-108 | text before the first occurrence is copied unchanged |
| I18n.ReplacedBySelf | internal/i18n/i18n.go:96-108 | replacing a pattern by itself is the identity |
| I18n.ReplacedKeepsLength | internal/i18n/i18n.go:96-108 | a replacement of the pattern's length keeps the text's length |
| I18n.Placeholder | internal/i18n/i18n.go:87-90 | a placeholder is exactly the key in braces: `{`, then the key, then `}` |
| I18n.GetWithData | internal/i18n/i18n.go:83-93 | fills every placeholder into the looked-up text; with no data it equals `Get` |
| I18n.FilledWithoutPlaceholders | internal/i18n/i18n.go:83-93 | a text without any of the placeholders is left as is |
| I18n.NormalizeLanguageCode | internal/i18n/i18n.go:121-143 | the result is `en` or `uk`, and it is `uk` exactly when the code starts with `uk` or `ua` |
| MenuBuilding.VisibleButtons | internal/bot/menu_builder.go:59-76 | a button survives exactly when it is in the input and visible to the user |
| MenuBuilding.VisibleButtonsAppend | internal/bot/menu_builder.go:59-76 | filtering keeps order: it distributes over concatenation |
| MenuBuilding.VisibleButtonsKeepsAll | internal/bot/menu_builder.go:63-66 | when every button is visible, nothing is dropped |
| MenuBuilding.FilterVisibleButtons | internal/bot/menu_builder.go:59-76 | the loop computes the order-preserving filter |
| MenuBuilding.ButtonTextShowsEmojiOnce | internal/bot/menu_builder.go:127-133 | the corrected label starts with the emoji and never repeats one the translation already has |
| MenuBuilding.ButtonTextAsWritten | internal/bot/menu_builder.go:127-133 | the label as written always prefixes the emoji, and agrees with the corrected label when there is no emoji |
| MenuBuilding.DeclaredLabelsAgree | internal/bot/menu_types.go:64-218 | no declared button has an emoji, so both labels agree on every declared button |
| MenuBuilding.AsWrittenRepeatsEmoji | internal/bot/menu_builder.go:129-131 | a button whose translation already starts with its emoji shows the emoji twice as written |
| MenuBuilding.RenderButton | internal/bot/menu_builder.go:100-107 | the button shows the label `buildButtonText` writes (emoji always in front when the button has one); it is a location button exactly when placed by the layout with the location key |
| MenuBuilding.RenderRowLabels | internal/bot/menu_builder.go:95-108 | a rendered row shows the buttons' `buildButtonText` labels in order |
| MenuBuilding.FlattenAppend | internal/bot/menu_builder.go:79-124 | reading the rows in order distributes over concatenation |
| MenuBuilding.OverflowRowsSingle | internal/bot/menu_builder.go:116-121 | every overflow button gets a row of its own, and it is always a text button with its `buildButtonText` label |
| MenuBuilding.FillRow | internal/bot/menu_builder.go:95-108 | the inner loop takes the next `min(layout[k], remaining)` buttons, renders them as layout-placed buttons with their `buildButtonText` labels, and advances past them |
| MenuBuilding.LayoutKey | internal/bot/menu_builder.go:100-107 | a layout-placed button carries its `buildButtonText` label and is a location request exactly when its key asks for location |
| MenuBuilding.PlaceRow | internal/bot/menu_builder.go:89-113 | one layout entry appends its row, if non-empty, and moves past exactly the buttons `Consumed` assigns to it |
| MenuBuilding.PlaceOverflowRows | internal/bot/menu_builder.go:116-121 | the overflow loop appends one text-button row per leftover button, in order, labelled by `buildButtonText` |
| MenuBuilding.LayoutRowsLabels | internal/bot/menu_builder.go:89-113 | the layout rows show the `buildButtonText` labels of the first `Consumed` buttons, in order, each once |
| MenuBuilding.OverflowRowsLabels | internal/bot/menu_builder.go:116-121 | the overflow rows show the leftover buttons' `buildButtonText` labels, in order, each once |
| MenuBuilding.PlaceLayoutRows | internal/bot/menu_builder.go:89-113 | the layout loop builds the layout rows and stops after the consumed buttons |
| MenuBuilding.BuildRows | internal/bot/menu_builder.go:79-124 | `buildRows` builds the layout rows followed by the overflow rows |
| MenuBuilding.KeyboardRowsLabels | internal/bot/menu_builder.go:79-124 | reading the rows in order gives every visible button's `buildButtonText` label exactly once, in order |
| MenuBuilding.LayoutRowsNonEmpty | internal/bot/menu_builder.go:110-112 | no empty row is emitted |
| MenuBuilding.KeyboardRowsShape | internal/bot/menu_builder.go:79-124 | the layout rows are followed by one row per leftover button |
| MenuBuilding.LayoutRowsFit | internal/bot/menu_builder.go:95 | the k-th layout row holds at most `layout[k]` buttons |
| MenuBuilding.MenuKeyboard | internal/bot/menu_builder.go:28-56 | an unknown menu gives exactly one row; for an unknown menu or one with a back row, the last row is the back row |
| MenuBuilding.MenuKeyboardContents | internal/bot/menu_builder.go:28-56 | an unknown menu gives the back-only keyboard; a known one gives non-empty rows showing its visible buttons' `buildButtonText` labels in order, plus one final back row exactly when the menu has a back row |
| MenuBuilding.MessageKey | internal/bot/menu_builder.go:161-174 | the message key is the given key, else the menu's title, else the welcome-back text |
| MenuBuilding.PreviousMenu | internal/bot/menu_builder.go:186-195 | going back shows the entry below the top; the main menu when there is none or when that entry is empty |
| MenuBuilding.FallbackLanguages | internal/bot/menu_builder.go:208-213 | the user's language is tried first, then English, or Ukrainian when the user's language is English |
| MenuBuilding.Resolve | internal/bot/menu_builder.go:200-240 | any target found belongs to a searched button whose label in one of the fallback languages is the pressed text |
| MenuBuilding.FirstMatchFound | internal/bot/menu_builder.go:220-236 | the search returns the target of the first candidate whose label matches |
| MenuBuilding.FirstMatchNone | internal/bot/menu_builder.go:239 | with no matching label the result is the empty target |
| MenuBuilding.FirstMatchSound | internal/bot/menu_builder.go:220-236 | any target found belongs to a candidate with that label |
| MenuBuilding.MenuCandidatesHas | internal/bot/menu_builder.go:216-236 | every button of every searched menu is a candidate in both languages |
| MenuBuilding.ResolveRoundTrip | internal/bot/menu_builder.go:200-240 | resolving a searched button's own label gives that button's target whenever its label is unambiguous |
| MenuBuilding.ResolveSkipsNearTasks | internal/bot/menu_builder.go:216 | no label resolves to the near-tasks location handler, since that menu is not searched |
| MenuBuilding.MatchMenu | internal/bot/menu_builder.go:217-236 | the loop over one menu's buttons finds the same target as the first-match search over that menu's candidates, and otherwise defers to the later menus |
| MenuBuilding.MatchButton | internal/bot/menu_builder.go:222-235 | the loop over the languages finds a button exactly when the first-match search over its per-language labels does |
| MenuBuilding.MenuCandidatesUnregistered | internal/bot/menu_builder.go:218-221 | menus missing from the registry contribute no candidates |
| MenuBuilding.AsWrittenLabelDoesNotResolve | internal/bot/menu_builder.go:129-131 | the as-written label of a button with an emoji in its translation resolves to nothing, while the corrected label resolves to the button |
| MenuBuilding.MenuBuilder.constructor | internal/bot/menu_builder.go:19-25 | the builder holds the declared registry and an empty navigation stack |
| MenuBuilding.MenuBuilder.Build | internal/bot/menu_builder.go:28-56 | builds the menu's keyboard |
| MenuBuilding.MenuBuilder.ShowMenu | internal/bot/menu_builder.go:145-177 | shows the menu's keyboard and message; it pushes the menu exactly when navigation is tracked, and otherwise leaves the stack alone |
| MenuBuilding.MenuBuilder.NavigateBack | internal/bot/menu_builder.go:180-196 | pops once and shows the previous menu, or the main menu; an empty history is left unchanged |
| MenuBuilding.MenuBuilder.ResolveHandlerFromButtonText | internal/bot/menu_builder.go:200-240 | the nested loops with early return compute the first-match search over menus, buttons and languages |
| MenuBuilding.BuildFallbackMenu | internal/bot/menu_builder.go:136-141 | exactly one row holding only the back button |
| MenuBuilding.OnesMenuKeyboard | internal/bot/menu_builder.go:79-124 | with a layout of ones and no location button, every visible button sits in its own row |
| MenuBuilding.MainMenuOverflows | internal/bot/menu_types.go:64-92 | the main menu declares four buttons and a layout `[1, 1]`; the layout places two of them, so two buttons overflow |
| MenuBuilding.MainMenuKeyboard | internal/bot/menu_types.go:64-92 | the main menu shows four rows, one `buildButtonText`-labelled text button each, in declared order, and no back row |
| MenuBuilding.MoreMenuKeyboard | internal/bot/menu_types.go:159-181 | the "more" menu shows the admin-panel row only to admins, and always ends with the back row |
| MenuBuilding.NearTasksKeyboard | internal/bot/menu_types.go:206-218 | the near-tasks menu shows one location-request button and the back row |
| Text.DecimalString | internal/bot/auth_handlers.go:185-189 | decimal rendering is non-empty, with a minus sign exactly for negatives |
| Text.ParseDecimalRoundTrip | internal/bot/auth_handlers.go:185-189 | parsing a rendered number gives it back |
| TaskKeyboards.TaskButton | internal/bot/auth_handlers.go:185-189 | a task button is `task_details`, shows `#` followed by its data, and its data parses back to the task id |
| TaskKeyboards.Chunks | internal/bot/auth_handlers.go:180-195 | the reference for the chunking loop: every row holds one to three buttons |
| TaskKeyboards.ChunksShape | internal/bot/auth_handlers.go:180-195 | the rows hold every button once, in order; there are ceil(n/3) rows; each has one to three buttons, and all but the last have three |
| TaskKeyboards.TaskRowsButtons | internal/bot/auth_handlers.go:180-195 | the task rows hold one button per task, in task order |
| TaskKeyboards.ChunkTaskButtons | internal/bot/auth_handlers.go:180-195 | the chunking loop builds exactly the rows of three |
| TaskKeyboards.ActiveTasksReply | internal/bot/auth_handlers.go:158-200 | a repository error gives the internal-error text with no keyboard; no tasks give the no-tasks text with no keyboard; otherwise the list text and the task rows |
| TaskKeyboards.CommentButton | internal/bot/auth_handlers.go:249-254 | the comment button is `leave_comment` and its data parses back to the current task id |
| TaskKeyboards.BuildTaskKeyboard | internal/bot/auth_handlers.go:239-271 | an error is wrapped with its prefix; otherwise the first row is exactly the comment button and the task rows follow |
| TaskKeyboards.FormatTaskDetails | internal/bot/auth_handlers.go:118-151 | the message opens with the task header and closes with the location line |
| TaskKeyboards.ClientLineIffCustomers | internal/bot/auth_handlers.go:118-138 | the client line follows the header exactly when the task has customers; otherwise the address line follows directly |
| TaskKeyboards.CommentsHeadingIff | internal/bot/auth_handlers.go:139-141 | the comments heading follows the executors exactly when the task has comments |
| TaskKeyboards.CommentsIffComments | internal/bot/auth_handlers.go:139-148 | the comments sit between the executors and the location line; without coordinates the text ends with the no-location line |
| Report.TruncateSheetName | internal/report/report.go:210-216 | the result is a prefix of the name of length min(len, 31), so shorter names are unchanged |
| Report.WithoutSpaces | internal/report/report.go:178 | removing spaces keeps exactly the other characters |
| Report.WithoutSpacesAppend | internal/report/report.go:178 | removing spaces distributes over concatenation, so the other characters keep their order and multiplicity |
| Report.WithoutSpacesKeepsOthers | internal/report/report.go:178 | a name without spaces is unchanged |
| Report.OfTypeMembers | internal/report/report.go:64-67 | a bucket holds exactly the tasks of its type |
| Report.OfTypeSnoc | internal/report/report.go:64-67 | each task is appended to its own bucket, keeping order |
| Report.BucketsPartition | internal/report/report.go:64-67 | buckets of different types are disjoint, and every task lands in its own |
| Report.GroupByType | internal/report/report.go:64-67 | the grouping loop keys the map by exactly the task types present, each bucket holding that type's tasks in order |
| Report.SheetOf | internal/report/report.go:104-121 | a sheet is named by a prefix of its task type of at most 31 characters, keeps its header on row 1, and has one data row per task |
| Report.SheetLayout | internal/report/report.go:100-185 | row 1 holds the five column titles; the i-th task is at row i+2, below it; the table range is `A1:E(n+1)`; the table name is `table_` followed by the sheet name with its spaces removed; the sheet name has at most 31 characters |
| Report.AddSheet | internal/report/report.go:104-121 | one sheet per task type, laid out by `SheetOf` |
| Report.AddSheets | internal/report/report.go:100-123 | the loop adds one sheet per group, each laid out from that group |
| Report.GenerateExcelReport | internal/report/report.go:47-92 | a repository error is wrapped; an empty task list gives `ErrNoTasks`; otherwise one sheet per task type, holding exactly that type's tasks |
| Agreements.ConvertAgreementLossless | internal/bot/agreements.go:158-166 | converting an agreement to a customer loses nothing |
| Agreements.RequestFor | internal/bot/agreements.go:127-134 | the request names the customer by id exactly when the id is non-zero, and by full name otherwise |
| Agreements.FirstAtAddress | internal/bot/agreements.go:147-155 | returns nothing exactly when no agreement is at the address, otherwise the first one that is |
| Agreements.SelectAgreement | internal/bot/agreements.go:141-155 | zero agreements give the empty customer; one gives that agreement; several give the first at the task's address, or the empty customer |
| Agreements.AddContractToCustomer | internal/bot/agreements.go:122-156 | an RPC error is wrapped; otherwise the selected agreement |
| Agreements.Contracts | internal/bot/agreements.go:110-117 | the reference for the client loop: a success holds one customer per client |
| Agreements.ContractsSucceed | internal/bot/agreements.go:110-117 | expanding all customers succeeds exactly when every lookup does, and then gives one customer per client, in order |
| Agreements.ContractsFailureStays | internal/bot/agreements.go:110-117 | the first failing lookup decides the error |
| Agreements.GetCustomersByTask | internal/bot/agreements.go:99-120 | "no rows" gives an empty list; another database error is wrapped; otherwise every client is completed with its agreement |
| Agreements.TaskRowsShape | internal/bot/agreements.go:80-96 | no customers give one dash row; otherwise one row per customer, in order, each carrying the task's fields |
| Agreements.GetExcelRowsFromTask | internal/bot/agreements.go:66-97 | the customers' error is wrapped; otherwise the task's rows |
| Alerts.Lookup | internal/bot/alert_handler.go:94-97 | a missing label or annotation reads as empty |
| Alerts.ToUpper | internal/bot/alert_handler.go:87 | upper-casing keeps the length and maps each character |
| Alerts.FiringAnyCase | internal/bot/alert_handler.go:87-92 | a status counts as firing exactly when it spells FIRING in any mix of cases |
| Alerts.FormatAlertMessage | internal/bot/alert_handler.go:85-110 | the message opens with the header line followed by the summary line |
| Alerts.AlertHeader | internal/bot/alert_handler.go:87-100 | the message starts with 🔥 exactly when the upper-cased status is FIRING, and with ✅ otherwise, followed by the bold status and the severity |
| Alerts.DescriptionIffNonEmpty | internal/bot/alert_handler.go:102-104 | the description line is present exactly when the description is non-empty |
| Alerts.ServiceLast | internal/bot/alert_handler.go:105-107 | with a job label the message ends with the service line; without one it has no service line |
| Alerts.AlertSections | internal/bot/alert_handler.go:99-109 | header and summary always come first; then the description line, present exactly when non-empty; then the service line, present exactly when the job is non-empty, and last |

## Left out

- Telegram transport (contexts, reply markups, send and edit calls): a keyboard is a sequence of rows and a shown menu is the returned text and keyboard.
- Redis, PostgreSQL and gRPC: their answers are `Result` inputs, and the caches around task details and reports are not modelled.
- Mutexes in the navigation stack, the state manager and the localizer: the model is sequential.
- The worker pool in `formatExcelRows` (internal/bot/agreements.go:16-64): its output order is not deterministic. Only the per-task expansion is modelled.
- Locale file loading (internal/i18n/i18n.go:20-54): translation tables are an input map.
- The user's language lookup, which reads the database: the language is a field of the session.
- Dates and floats: the creation date is pre-formatted text, and the map link (built from float coordinates) is an optional pre-built string.
- Excel styles, column widths, deleting "Sheet1" and writing the buffer: only the sheet contents, row numbers, table range and table name are modelled.
- Report.GenerateExcelReport: the workbook calls are taken to succeed. The source returns "failed to generate new sheet", "failed to setup sheet" or "failed to add row" when one of them fails (internal/report/report.go:107-119), and the caller wraps it as "failed to add sheets" (internal/report/report.go:72-74). The model returns a report for every non-empty task list.
- Report.AddSheets: the errors of `NewSheet`, `setupSheet` and `addRow` are not modelled, for the same reason.
- MenuBuilding.RowTake: layout entries are natural numbers. A negative entry would make the source's `make([]telebot.Btn, 0, rowSize)` panic, so no declared layout has one and the model cannot express one.
- Report.AddSheets: sheets are keyed by task type, not by truncated sheet name. Two task types that agree on their first 31 characters would share one sheet in excelize; that collision is not modelled.
- Report.AddSheets: Go's map iteration order is not fixed. The model picks keys nondeterministically, and its result is a map, so the order is not observable.
- I18n.GetWithData: the data map is a sequence of pairs, filled in the given order. Go iterates the map in an unspecified order; the order matters only when one value contains another key's placeholder. The values are strings, while Go takes `interface{}` values and formats each with `%v`, so a value is given here already formatted. The sequence may repeat a key, which a Go map cannot; a repeated key's later pairs act only on the text the earlier pairs left.
- I18n.ReplaceAll: requires a non-empty pattern. With an empty pattern the Go loop never terminates; placeholders are never empty.
- Alerts.ToUpper: upper-cases ASCII letters only, while Go's `strings.ToUpper` is Unicode-aware. A status such as "fırıng" (dotless i) would count as firing in Go but not in the model.
- Strings are sequences of Unicode characters. The Go code indexes bytes in `indexOf`, `replaceAll` and `NormalizeLanguageCode`. For valid UTF-8 the match found, the output of `replaceAll` and the language decision are the same either way.
- I18n.IndexOf: returns a character offset, while Go's `indexOf` returns a byte offset. For "привіт {name}" and "{name}", Go returns 13 and the model returns 7. The only caller, `replaceAll`, uses the offset to slice the same string, so its output is unaffected.
- The `requiresAuth` flag of a button is carried but never filtered, because `filterVisibleButtons` ignores it too.
- The files disagree on import paths, on the arity of `GenerateExcelReport`, and on repository and model field names. Each file is modelled from its own text.
- Logging and metrics counters are not modelled.
- The other handlers (statistics, admin, language, issues, middlewares, login) and the plain model records are not part of this model.

## Findings

| source | as written | input that shows it | evidently intended | confidence | as-written member | corrected member |
|---|---|---|---|---|---|---|
| internal/bot/menu_builder.go:129-131 vs 228-230 | `buildButtonText` always puts the emoji and a space before the translated text, and the keyboard shows that label. The resolver adds the emoji only when the text does not already start with it. | A button with emoji "📍" whose English translation is "📍 Send location" shows "📍 📍 Send location", and that label resolves to nothing. | Both sides prefix the emoji only when the translation lacks it, so every shown label resolves back to its button. | not executed (no declared button has an emoji today) | MenuBuilding.ButtonTextAsWritten, MenuBuilding.AsWrittenRepeatsEmoji, MenuBuilding.AsWrittenLabelDoesNotResolve | MenuBuilding.ButtonText, MenuBuilding.ButtonTextShowsEmojiOnce, MenuBuilding.ResolveRoundTrip |
