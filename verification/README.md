# A verified model of the post-ledger bot

The bot in `bot.py` keeps, for every Telegram user, a spreadsheet of links to
Telegram posts. Each data row holds a running number, the link, a status saying
when the post went out, and the time it was added. A user sends or forwards a
post. The bot finds the post link, asks when the post went out (or, if the
link is already in the sheet, offers to delete it), and adds the row when a
status button is pressed. `/export` sends the sheet and `/stats` counts the
rows by status. When a backup chat is configured, every change that asks for
one hands a copy of the file to a background sender.

This project models that core in Dafny and proves properties of the model:

- `wrappers.dfy`: the `Option` type.
- `ledger.dfy` (module `Ledger`): the workbook functions. A user's file is a
  `Sheet`, either missing (`None`) or its data rows in order; the header row is
  implicit. Each mutating operation returns a `Change`: the sheet afterwards,
  the value the Python function returns, and whether it asked for a backup.
- `tally.dfy` (module `Tally`): the counting behind `/stats`, with the status
  histogram kept in first-appearance order, the order a Python dict keeps.
- `links.dfy` (module `Links`): the link extractor's regular expression
  `https?://(?:t\.me|telegram\.me)/(?:[a-zA-Z0-9_]+)(?:/[0-9]+)?(?:/[a-zA-Z0-9_]+)?`.
  The matcher works on positions, the way the regex engine does. `Maximal`
  states which of several possible parses the engine picks. The module also
  builds the link for a forwarded post, `https://t.me/{username}/{message_id}`.
- `conversation.dfy` (module `Conversation`): the handlers, written as one pure
  `Step`. A step takes the user's pending-link slot (`current_link`), the
  store (sheet, whether a backup chat is configured, and the copies handed to
  the backup sender) and one event. It returns the new slot, the new store and
  the replies. Replies are tags, not wording.

Main results:

- Every ledger operation keeps rows numbered 1..n.
- Deleting a freshly added link undoes the add.
- A backup is requested on every add, on a successful delete only, and never on
  a status update.
- The extractor returns "" exactly when the pattern occurs nowhere in the text.
  Otherwise it returns the text of the leftmost match, parsed greedily, and that
  match is unique.
- Extraction is idempotent.
- A forwarded-post link is found whole by the extractor.
- Every sequence of updates keeps the store and every backup copy numbered.
- A button delivered twice never commits twice.

A consequence of the handlers as written: after a status button adds a link,
the slot is emptied. The "delete this post" button on the confirmation that
follows therefore finds nothing to delete, and the added row stays
(`Conversation.DeleteAfterAddFindsNothing`).

## Model

| member | source | states |
|---|---|---|
| Ledger.Init | bot.py:33-67 | afterwards the file exists; an existing file is left exactly as it was; a missing one is created with no data rows |
| Ledger.NextNumber | bot.py:95-101 | creates the file as `init_user_excel` does and returns the number the next add will assign, that is one past the data rows |
| Ledger.Add | bot.py:103-141 | always asks for a backup and leaves a file behind; returns one past the number of data rows; keeps every earlier row unchanged as a prefix; appends exactly one row holding that number, the link, the status cell and the time |
| Ledger.FirstRow | bot.py:153-154 | the scan finds the first row, from the top, whose link equals the argument exactly; when there is none, no row holds the link |
| Ledger.LinkExists | bot.py:184-195 | true if and only if the file exists and some row holds the link exactly; equivalently, the link occurs at least once |
| Ledger.Renumber | bot.py:156-157 | the renumbering loop changes only column A, giving the rows consecutive numbers from the first one |
| Ledger.Delete | bot.py:143-165 | succeeds if and only if the link is present, and asks for a backup exactly when it succeeds; on failure the file is unchanged; on success the first row holding the link is removed, earlier rows are kept and later rows shift up with their numbers set to their new positions |
| Ledger.UpdateStatus | bot.py:167-181 | never asks for a backup; succeeds if and only if the link is present; a failure changes nothing; a success replaces only the status of the first row holding the link |
| Ledger.OperationsKeepNumbered | bot.py:95-181 | init, get-next-number, add, delete and update all keep the rows numbered 1..n |
| Ledger.AddKeepsNumbered | bot.py:110-120 | an added row numbered one past the data rows keeps the numbering contiguous |
| Ledger.DeleteKeepsNumbered | bot.py:153-157 | deleting a row and renumbering those after it keeps the numbering contiguous |
| Ledger.RemovedKeepsNumbered | bot.py:155-157 | removing row i and renumbering the later rows by position keeps the sheet numbered |
| Ledger.UpdateKeepsNumbered | bot.py:176-178 | changing a status leaves the numbering intact |
| Ledger.DeleteUndoesFreshAdd | bot.py:103-165 | deleting a link that was just added, and was absent before, gives back the earlier rows and reports success with a backup |
| Ledger.DeleteThenReaddRestartsAtOne | bot.py:110-111 | adding a link to a new file, deleting it, then adding it again numbers it 1 again |
| Ledger.DeleteRemovesUniqueLink | bot.py:153-160 | on a sheet without duplicate links, deleting a link removes it completely and keeps the links unique |
| Ledger.RemovedUnique | bot.py:153-160 | removing the only row with a link from a sheet with unique links leaves the link absent and the links unique |
| Ledger.AddKeepsDuplicates | bot.py:103-141 | add does not look for the link: the link's occurrence count goes up by exactly one, even when it was already present |
| Ledger.UpdateStatusKeepsOtherColumns | bot.py:176-180 | a status update keeps the row count and every row's number, link and date |
| Tally.Bump | bot.py:406-408 | one loop step keeps the keys distinct; the counts total rises by one for a non-empty status and stays the same for an empty one |
| Tally.BumpCounts | bot.py:406-408 | after one more row, every key is still a non-empty status counted exactly, and every non-empty status in the rows is a key |
| Tally.TallyCounts | bot.py:404-408 | each histogram key is a non-empty status whose count is the number of rows carrying it, and every non-empty status of the sheet is a key |
| Tally.Stats | bot.py:393-416 | no summary exactly when the file is missing; otherwise the total is the number of data rows; each listed status is non-empty and carries the number of rows with it; the statuses are distinct, every non-empty status of the sheet is listed, and they come in the order of their first row |
| Tally.AddTalliesStatus | bot.py:404-408 | after an add with a non-empty status that status counts one more row and every other status keeps its count; an add without a status leaves the histogram unchanged |
| Tally.TallyAccountsForEveryRow | bot.py:402-408 | the histogram's counts plus the rows with an empty status add up to the total |
| Tally.TallyInFirstAppearanceOrder | bot.py:404-416 | the statuses are listed in the order of their first row, and each listed status occurs in the sheet |
| Tally.BumpKeepsOrder | bot.py:406-408 | one more row keeps the keys in first-appearance order |
| Links.WordEndSpec | bot.py:223 | the scan for `[a-zA-Z0-9_]+` covers only word characters and stops at the end of the text or at a non-word character |
| Links.DigitEndSpec | bot.py:223 | the scan for `[0-9]+` covers only digits and stops at the end of the text or at a non-digit |
| Links.FindFrom | bot.py:224 | the search reports a position where the attempt succeeds, with every earlier attempt failing; or no position, with every attempt failing |
| Links.ParseAtShaped | bot.py:223 | an attempt succeeds with given group ends exactly when the scheme and host occur there and each group ends where its scan stops |
| Links.ParseAtSound | bot.py:223 | a successful attempt is a match of the pattern covering exactly its span, and it is the parse the engine picks |
| Links.ParseAtComplete | bot.py:223 | wherever the pattern matches, the attempt at that position succeeds |
| Links.ParseAtNone | bot.py:223 | a failed attempt means the pattern matches nowhere at that position |
| Links.ParseAtExact | bot.py:223 | the engine's parse at a position is the one maximal match there |
| Links.FindFromIsFirstMatch | bot.py:224-226 | the search result is the leftmost maximal match, and the extractor returns its text |
| Links.ExtractSpec | bot.py:222-227 | the result is "" if and only if the pattern occurs nowhere in the text; otherwise it is the text of the leftmost, greedily parsed match |
| Links.EmptyMeansNoMatch | bot.py:224-227 | an empty result means the pattern occurs nowhere in the text |
| Links.NoMatchMeansEmpty | bot.py:224-227 | where the pattern occurs nowhere the result is empty |
| Links.FoundIsFirstMatch | bot.py:224-226 | a non-empty result is the text of the leftmost, greedily parsed match |
| Links.FirstMatchUnique | bot.py:224 | a text has at most one leftmost maximal match |
| Links.ExtractFindsFirstMatch | bot.py:224-226 | whatever the leftmost maximal match is, the extractor returns its text |
| Links.ExtractShape | bot.py:223 | a non-empty result starts with one of `http://t.me/`, `https://t.me/`, `http://telegram.me/` or `https://telegram.me/` |
| Links.RenderShape | bot.py:223 | every match starts with one of the four scheme-and-host prefixes |
| Links.ExtractIdempotent | bot.py:222-227 | extracting from the extractor's own result returns it unchanged |
| Links.WholeTextIsItsOwnMatch | bot.py:222-227 | a text that is one maximal match is returned whole |
| Links.ExtractFromSentence | bot.py:222-227 | in `check this out https://t.me/news/55 cool post` the extractor finds `https://t.me/news/55` |
| Links.Decimal | bot.py:252 | Python's `str` of a natural number is a non-empty run of digits |
| Links.DecimalRoundTrip | bot.py:252 | reading the decimal digits back gives the number |
| Links.ForwardLink | bot.py:252 | the forwarded-post link starts with `https://t.me/`, then the username, then `/` |
| Links.ForwardLinkId | bot.py:252 | after that prefix the link holds the message id in decimal: its digits read back as the id, behind a minus sign for a negative id |
| Links.ForwardLinkTail | bot.py:252 | the part after the prefix is Python's `str` of the message id |
| Links.IntTextNegative | bot.py:252 | `str` of a negative int is a minus sign and the digits of its magnitude |
| Links.ForwardLinkIsCanonical | bot.py:251-252 | for a word-character username and a positive message id, the extractor run on the forwarded-post link returns it whole |
| Conversation.MessageLinkSpec | bot.py:246-272 | a usable forward yields its post link; otherwise the text is searched when it is non-empty, else the caption, and no link comes from a message with neither; the link is "" exactly when the searched body holds no match, and else is the leftmost match in it |
| Conversation.NoLinkMeansNoMatch | bot.py:269-272 | a message that is not a usable forward and yields no link has no match in its text or caption |
| Conversation.NoMatchMeansNoLink | bot.py:269-272 | a message that is not a usable forward and has no match in its text or caption yields no link |
| Conversation.TextLinkIsFirstMatch | bot.py:269-272 | the link such a message yields is the leftmost match in its text or caption |
| Conversation.ForwardAlwaysYieldsLink | bot.py:247-253 | a forward with a username and a non-zero message id always yields a link |
| Conversation.StatusOf | bot.py:346-353 | a button has a status exactly when it is one of `status_1` to `status_4`, and each such status is a non-empty label |
| Conversation.Commit | bot.py:69-91 | a copy of the file goes to the backup sender exactly when a backup was requested, a backup chat is configured and the file exists; the copy is the file as it is afterwards |
| Conversation.OnMessage | bot.py:242-296 | creates the file; no link: slot kept, "no link" reply; a link: it becomes pending, with the duplicate menu when already saved and the status menu otherwise |
| Conversation.OnDelete | bot.py:320-338 | always empties the slot; with nothing pending, or a pending link absent from the sheet, the store is unchanged and the matching error is sent |
| Conversation.OnChoice | bot.py:340-380 | with nothing pending the store and slot are unchanged and the link is asked for again; otherwise the slot is emptied, and a non-status button changes nothing else |
| Conversation.OnPress | bot.py:298-318 | `export_db` changes neither slot nor store; `new_link` empties the slot and keeps the store |
| Conversation.StatsReply | bot.py:393-418 | "database empty" exactly when the file is missing; otherwise the report's total is the number of data rows and its histogram is the one `Tally.Stats` computes |
| Conversation.Step | bot.py:231-418 | every modelled update (`/start`, a new non-command message, a button, `/export`, `/stats`) keeps the backup setting, sends at least one reply, and either keeps the rows or leaves a file behind |
| Conversation.Run | bot.py:432-439 | a run of updates keeps the backup setting and sends at least one reply per update |
| Conversation.CommitKeepsConsistent | bot.py:69-91 | storing a numbered sheet, with or without a backup, keeps the sheet and every backup copy numbered |
| Conversation.StepKeepsConsistent | bot.py:231-418 | every update keeps the sheet and every backup copy numbered 1..n |
| Conversation.RunKeepsConsistent | bot.py:231-418 | any sequence of updates keeps the sheet and every backup copy numbered 1..n |
| Conversation.PressClearsPending | bot.py:315-380 | every button except `export_db` leaves no link pending |
| Conversation.MessageSetsPending | bot.py:253-281 | after a message a link is pending exactly when the message yielded one or a link was already pending |
| Conversation.ReadOnlyEvents | bot.py:304-313 | the export button, `/export` and `/stats` change neither the slot nor the store |
| Conversation.StalePressChangesNothing | bot.py:340-344 | a button pressed with no link pending leaves the store unchanged |
| Conversation.ReplayedPressChangesNothing | bot.py:298-380 | a button delivered twice: the second delivery leaves the store as the first left it |
| Conversation.StatusPressAdds | bot.py:353-373 | a status button with a link pending appends that link as the next row with the button's status, sends the file and the new number, and empties the slot |
| Conversation.StatusPressIsAdd | bot.py:353-373 | a status button with a link pending is the ledger's add, committed with its backup |
| Conversation.DeletePressRemoves | bot.py:320-338 | with a pending link that is present, the delete button removes its first row and renumbers the rest, sends the file and empties the slot |
| Conversation.BackupExactlyOnChange | bot.py:140-163 | a copy reaches the backup sender exactly when backups are on and a status button adds a row or the delete button removes one; the copy is the new sheet |
| Conversation.StatusPressKeepsDuplicates | bot.py:340-356 | a status button does not check the sheet, so with a link already saved pending it stores a second row with the same link |
| Conversation.RunTwo | bot.py:432-439 | two updates in a row are the second applied to what the first left, with the replies in order |
| Conversation.MessageThenStatusAdds | bot.py:242-373 | a message yielding a new link and then a status button add that link as the next row with that status; the replies are the status menu, the file and the new number |
| Conversation.DeleteAfterAddFindsNothing | bot.py:320-373 | after a status button adds the pending link, the delete button of the confirmation finds no pending link, changes nothing, and the added row stays |

## Left out

- The Telegram transport: receiving updates, answering callback queries, reply
  wording, Markdown, keyboards, and editing a message versus sending a new
  one. Replies are modelled as tags.
- Users: the model is one user's conversation and file. Files are per user id
  and never shared, so users do not interact.
- Cell styling, column widths, hyperlinks on cells and the sheet title
  (bot.py:39-64, bot.py:113-137). These are presentation only.
- The file system and environment: the data directory, file names, and reading
  `BACKUP_CHAT_ID`. Whether a backup chat is configured is the flag
  `Store.backupsOn`.
- The backup task itself (bot.py:73-89). It runs detached and its errors are
  only logged. The model records each copy handed to it, in `Store.backups`.
- The clock: the date column and the export file names. The caller supplies
  the time as `Stamp`.
- The exception branch of the status button (bot.py:374-377). The `try` at
  bot.py:355-373 covers loading and saving the workbook and both Telegram
  sends (bot.py:359, bot.py:367), all I/O. When a send fails after
  `add_post_to_excel` has returned, the row is already added and its backup
  requested, yet the user is told the add failed and the slot is emptied. The
  model has no failing I/O, so it always takes the successful path.
- `main` (bot.py:421-439): wiring the handlers and polling. `Run` stands for
  the update loop.
- Conversation.Step: `Incoming` stands only for a new message that is not a
  command, which is what the `~filters.COMMAND` filter at bot.py:436 lets
  through. A command other than `/start`, `/export` and `/stats` (for example
  `/save https://t.me/news/55`) reaches no handler in the source: no file is
  created, the slot is unchanged and nothing is sent. Such commands are not
  events of the model. Edited messages are left out as well: `update.message`
  is then None, so handle_message fails after creating the file (bot.py:244-247)
  and sends nothing.
- Links.MaximalPrefix: a helper with no source counterpart.
- Ledger.StatusCell: a helper naming the column-C expression of bot.py:131
  inside `Ledger.Add`'s contract; what it means for the statistics is
  `Tally.AddTalliesStatus`.
- Conversation.Body: a helper naming `text or caption or ""` (bot.py:269);
  which field is searched is stated by `Conversation.MessageLinkSpec`.
- Ledger.Add: the add does not reject a link that is already present. Neither
  does any handler before a status button. The model follows the code
  (`Ledger.AddKeepsDuplicates`, `Conversation.StatusPressKeepsDuplicates`).
  Uniqueness is therefore proved only as something `Delete` preserves
  (`Ledger.DeleteRemovesUniqueLink`), not as a ledger invariant.
- Ledger.UpdateStatus: no handler in bot.py calls `update_post_status`. It is
  modelled on its own and is not part of `Step`.
- Conversation.Step: a sheet's link cells are assumed to be strings. A cell
  that openpyxl reads back as a number or date is not modelled.
