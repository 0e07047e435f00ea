# Diary: a model of the journaling menu

`diary.py` is a one-file command-line diary. It keeps entries in one
table, `Entry(id, content, timestamp)`. It runs a menu loop with five
keys: `a` adds an entry, `v` lists the entries, `s` searches them, `d`
deletes all of them and `q` quits. From the list, a number opens one entry
in the detail view. The detail view can step to the newer or older entry,
or delete the shown entry.

This project models that logic as pure Dafny functions over an immutable
store:

- `wrappers.dfy` (module `Wrappers`): the `Option` datatype.
- `text.dfy` (module `Text`): Python's `str.strip()` over the full
  `str.isspace()` character set, the narrower strip `int()` applies,
  `str.lower()`, and the `.lower().strip()` comparisons. The model proves that these comparisons accept a one-letter
  key in either case, surrounded by any whitespace.
- `numbers.dfy` (module `Numbers`): the decimal entry numbers the list
  prints, and Python's base-10 `int()` that reads them back. `int()` strips
  the whitespace it skips, which is `str.isspace()` without the ASCII
  separators U+001C..U+001F. It then takes an optional sign, and allows
  single underscores between digits. The digit-count limit of recent
  interpreters is not modelled (see "Left out"). The model proves the round
  trip `int(str(n)) == n`.
- `entries.dfy` (module `Entries`): the store as a sequence of entries in
  creation order, plus the queries the program runs against it. The
  queries are `define_entries()` (newest first), `fn.Max`/`fn.Min` over
  ids, `Entry.create`, `delete_instance`, `.where(...)` and
  `.where(...).get()`. The store invariant `Valid` says that ids are unique
  and that ids and timestamps rise together.
- `listing.dfy` (module `ListScreen`): the list lines. Each line shows a
  1-based number, a timestamp string, and the first line of the content cut
  to 50 characters. `...` is added exactly when the preview is not the
  whole content. The module also models the selection prompt.
- `diary.dfy` (module `Diary`): one step of each screen. Each step returns
  the new store, the next screen (`MainMenu`, `ListView`, `DetailView`,
  `Exited`) and the confirmation line printed. The steps are `AddEntry`,
  `ViewEntries` with `ListStep`, `DetailStep` with its offers and targets,
  `DeleteEntry`, `SearchEntries`, `DeleteEntries`, and the key dispatch
  `ParseCommand`/`MenuStep`.

The store is a `seq<Entry>`, oldest first. A timestamp is an opaque
ordered value (`int`). Where a step needs the clock, the clock reading is a
parameter (`now`). The two `strftime` formats are parameters as well
(`stamp`). New ids follow SQLite's rule for an integer primary key without
AUTOINCREMENT: one more than the largest id present, or 1 in an empty
table. `Entry.create` only reaches this rule through peewee.

Two rules of the code that a simpler rule matches:

- **Ellipsis.** The code (diary.py:86) adds `...` when the whole content
  is longer than 50 characters. A rule that looks only at the first line,
  adding `...` when it is longer than 50 characters or when the content has
  several lines, agrees on every input: `ListScreen.EllipsisByFirstLine`.
- **Navigation order.** The code picks, for "newer", the first entry in
  ascending timestamp order whose id is above the current one, and for
  "older" the first entry of the newest-first listing whose id is below it.
  In a valid store these are the next larger and the next smaller id:
  `Diary.NewerIsSuccessor` and `Diary.OlderIsPredecessor`.

## Model

| member | source | states |
|---|---|---|
| Text.StripOf | diary.py:56 | the stripped text is the input minus a whitespace-only prefix and a whitespace-only suffix, has no whitespace at either end, and is empty exactly when the input is whitespace only |
| Text.StripKeepsChars | diary.py:56 | stripping only removes characters, it never adds any |
| Text.NormalizeIsLowerOfStrip | diary.py:46 | `.lower().strip()` equals stripping first and lowering after, for every input |
| Text.KeyMatch | diary.py:46-49 | `.lower().strip()` of a line equals a one-letter key exactly when the stripped line is that letter in either case |
| Text.YesAnswers | diary.py:119 | an answer confirms a deletion exactly when, stripped, it is `y` or `Y` |
| Text.NoAnswers | diary.py:59 | an answer declines saving exactly when, stripped, it is `n` or `N` |
| Numbers.Decimal | diary.py:80-81 | the printed entry number is a non-empty run of digits with no leading zero |
| Numbers.ParseInt | diary.py:92 | apart from the digit-count limit under "Left out", `int()` succeeds exactly when the text, stripped of the whitespace `int()` skips, is an optional sign followed by digits with single underscores between them; the value is the digits' value, negated after `-` |
| Numbers.SeparatorIsNotSkipped | diary.py:92 | `int()` rejects `"\x1c1"` although `str.strip()` reduces it to `"1"`: U+001C is whitespace to `strip()` but not to `int()` |
| Numbers.ParseIntNeedsDigit | diary.py:92-97 | `int()` raises `ValueError` on every answer without a digit |
| Numbers.DecimalValue | diary.py:80-81 | the value of the printed digits is the number itself |
| Numbers.DecimalRoundTrip | diary.py:80-92 | reading a printed entry number back with `int()` gives that number |
| Entries.MaxId | diary.py:141 | `fn.Max(Entry.id)` is an id in the store and no id exceeds it |
| Entries.MinId | diary.py:143 | `fn.Min(Entry.id)` is an id in the store and no id is below it |
| Entries.ExtremeIds | diary.py:141-143 | in a valid store the newest entry holds the largest id and the oldest the smallest |
| Entries.NextId | diary.py:61 | a new entry's id is above every id in the store |
| Entries.Create | diary.py:61 | creating adds one entry at the end with the given content and clock reading, leaves every old entry in place, and gives it an id above all others |
| Entries.CreateKeepsValid | diary.py:13-15 | a clock reading later than every stored timestamp keeps ids and timestamps rising together |
| Entries.Remove | diary.py:165 | deleting an id keeps exactly the entries with any other id |
| Entries.RemoveKeepsValid | diary.py:165 | deletion keeps the store valid |
| Entries.RemovePresent | diary.py:165 | deleting an id that is present lowers the count by exactly one |
| Entries.RemoveAbsent | diary.py:165 | deleting an id that is absent changes nothing |
| Entries.Listing | diary.py:33-35 | the listing holds the same entries as the store, the newest entry first |
| Entries.ListingNewestFirst | diary.py:35 | the listing of a valid store is strictly ordered by timestamp, newest first, and so by id |
| Entries.Filter | diary.py:108 | the results are exactly the entries whose content matches the query |
| Entries.FilterKeepsOrder | diary.py:108 | the results keep the newest-first order of the listing they are taken from |
| Entries.FilterCount | diary.py:108-109 | in a newest-first sequence the number of results is the number of distinct entries that match |
| Entries.FirstWhere | diary.py:151-154 | `.get()` returns the first position whose entry passes the condition, and none only when no entry passes |
| ListScreen.FirstLine | diary.py:79 | the first line is the prefix of the content before its first newline |
| ListScreen.FirstLineBeforeNewline | diary.py:79 | the first line of `a` + newline + `b` is `a`, when `a` has no newline |
| ListScreen.Preview | diary.py:83 | the preview is a prefix of the content of at most 50 characters, without a newline, and the whole first line when shorter than 50 |
| ListScreen.EllipsisMarksCut | diary.py:86-89 | `...` is printed exactly when the preview is not the whole content |
| ListScreen.EllipsisByFirstLine | diary.py:86 | testing the whole content's length or only the first line's length gives the same ellipsis decision |
| ListScreen.Lines | diary.py:74-89 | line k shows number k, the k-th entry's timestamp and preview, and an ellipsis exactly when the preview is cut |
| ListScreen.Render | diary.py:80-89 | a printed line is the entry number, ` \| `, the timestamp, ` \| ` and the preview, in that order, followed by `...` when the preview was cut and by nothing otherwise |
| ListScreen.RenderedNumberSelects | diary.py:80-95 | the digits at the head of the k-th printed line, typed back at the prompt, open the entry shown on that line |
| ListScreen.Select | diary.py:91-97 | the answer opens the k-th listed entry exactly when `int()` reads it as k with 1 <= k <= count; every other answer opens nothing |
| ListScreen.SelectNumber | diary.py:92-95 | typing the number k opens the k-th entry shown |
| ListScreen.SelectPrintedNumber | diary.py:78-95 | typing back the number printed on a line opens the entry shown on that line |
| ListScreen.SelectNeedsDigit | diary.py:91-97 | an answer without a digit never opens an entry |
| ListScreen.HelloWorldLine | diary.py:79-89 | the content `Hello\nWorld` is listed as `1 \| <timestamp> \| Hello...` |
| Diary.AddEntry | diary.py:53-64 | blank text or an `n` answer leaves the store unchanged. Otherwise exactly one entry is appended: its content is the stripped text, which is non-empty and has no whitespace at either end; its id is above every existing id; the old entries are unchanged |
| Diary.AddEntryKeepsValid | diary.py:56-61 | adding at a clock reading later than every stored timestamp keeps the store valid |
| Diary.ViewEntries | diary.py:67-74 | the list view opens exactly when the store is non-empty, and it shows every entry |
| Diary.ViewEntriesNewestFirst | diary.py:67-89 | the list view of a valid store is newest first |
| Diary.ListStep | diary.py:91-97 | the selection opens the k-th shown entry exactly when the answer reads as k in [1, count]; the store never changes |
| Diary.DetailFrame | diary.py:136-140 | the content is framed by two equal rules of `=` as long as the timestamp text |
| Diary.DetailOffers | diary.py:141-144 | "newer" is offered exactly when some entry has a larger id, "older" exactly when some entry has a smaller id |
| Diary.Newer | diary.py:151 | a newer target exists exactly when some id is above the current one, and it is such an entry of the store |
| Diary.Older | diary.py:154 | an older target exists exactly when some id is below the current one, and it is such an entry of the store |
| Diary.OfferedTargetsExist | diary.py:141-154 | an action is offered exactly when its target entry exists |
| Diary.NewerIsSuccessor | diary.py:149-151 | in a valid store "newer" goes to the smallest id above the current one |
| Diary.OlderIsPredecessor | diary.py:152-154 | in a valid store "older" goes to the largest id below the current one |
| Diary.DeleteEntry | diary.py:162-169 | a `y` answer removes exactly the entries with the shown id; any other answer changes nothing |
| Diary.DeleteEntryRemovesOne | diary.py:164-165 | confirmed deletion from a valid store lowers the count by one and keeps the store valid |
| Diary.DetailStep | diary.py:148-159 | `n` opens the newer target and `o` the older target when offered, without changing the store; when not offered they return to the menu. `d` runs the deletion question. Any other key returns to the menu with nothing changed. Only a confirmed `d` changes the store, and every entry it opens is in the store |
| Diary.DetailNavigatesById | diary.py:148-154 | in a valid store `n` moves to the next larger id and `o` to the next smaller one |
| Diary.DetailStepKeepsValid | diary.py:155-157 | a detail-view step keeps the store valid |
| Diary.SearchEntries | diary.py:100-114 | an empty query does nothing. Otherwise the printed count is the number of results: zero returns to the menu and only zero does, exactly one opens that entry, more than one open a list of exactly the matches. The store never changes |
| Diary.SearchCountsMatches | diary.py:108-109 | in a valid store the printed count is the number of entries that match |
| Diary.SeveralMatchesOpenList | diary.py:111-112 | two different matching entries open the list of results |
| Diary.SearchResultsNewestFirst | diary.py:102-112 | the search list of a valid store is newest first |
| Diary.UniqueMatchOpensEntry | diary.py:108-114 | a text contained in exactly one entry opens that entry's detail view |
| Diary.DeleteEntries | diary.py:117-125 | a `y` answer empties the store; any other answer leaves it unchanged |
| Diary.ParseCommand | diary.py:46-50 | each of `a`, `v`, `s`, `d`, `q`, in either case and with surrounding whitespace, selects its command; nothing else does |
| Diary.MenuStep | diary.py:38-50 | in the dispatch step of a menu pass, unknown input changes nothing and stays in the menu, only `q` exits, and only `a` and `d` can change the store. A view opened by `v` or `s` continues in `ListStep` and `DetailStep`, where a confirmed `d` deletes |
| Diary.MenuStepKeepsValid | diary.py:38-50 | a menu step keeps the store valid when the clock reads later than every stored timestamp |

## Left out

- peewee and SQLite (`SqliteDatabase`, `create_tables`, `initialize`, `.count()`, `.offset()`) are replaced by the sequence model. The id rule for new rows is SQLite's documented rule, not code in this file.
- `Entry.content.contains`: the matching rule is peewee's (a case-insensitive `LIKE` with wildcards). That code is not part of this model, so `SearchEntries` takes the match test as a parameter. `Diary.Contains` is plain case-sensitive substring matching, one instance of the parameter.
- Timestamps: `datetime.now` is the `now` parameter, and both `strftime` formats are the `stamp` parameter. `Valid` assumes that the clock rises from one entry to the next. The lemmas that keep the store valid after an add require this.
- Terminal I/O: screen clearing, `print`, `input()` and `sys.stdin.read()`. Answers are string parameters. Output is the returned `Screen`, `Notice`, `ListLine` and frame values. The menu's own text (the entry count and the list of keys with their docstrings) is not modelled.
- `quit`: `exit()` ends the process. The model returns the `Exited` screen instead.
- The loops: the recursion of `view_entry` and the endless `menu_loop` are modelled as single steps (`MenuStep`, `ListStep`, `DetailStep`), not as the interactive loop.
- `.order_by(Entry.timestamp).asc()` (diary.py:151): the meaning of `.asc()` on a query is peewee's and is not visible here. It is modelled as timestamp-ascending order, which is creation order in a valid store.
- Text.LowerChar: lowers only ASCII letters. No other character lowers to one of the one-letter keys `a`, `v`, `s`, `d`, `q`, `n` or `y`, so every key comparison is unaffected.
- Numbers.ParseInt: accepts only ASCII digits. Python's `int()` also accepts other Unicode decimal digits.
- Numbers.ParseInt: has no limit on the number of digits. Python 3.11 and later (and the 3.7.14, 3.8.14, 3.9.14 and 3.10.7 security releases) by default reject a base-10 string of more than 4300 digits, leading zeros included, with `ValueError`; the limit is an interpreter setting (`sys.set_int_max_str_digits`), not part of diary.py, and older interpreters have none. So the model reads 4300 zeros followed by `1` as 1 where such an interpreter returns to the menu.
