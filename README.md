# Clippy clipboard manager — a verified model

This project models the core of Clippy, an Electron clipboard manager, in
Dafny. Clippy watches the system clipboard and keeps a history of text
entries in an SQLite database. Entries can be starred, renamed, encrypted
with a password and tagged with user-defined categories. A React window
lists, searches and filters the history.

The model covers five parts of the program:

- **The store** (`database.js`). `Schema.Tables` holds the three tables as
  maps and a set. The next-id counters stand for SQLite's AUTOINCREMENT
  sequences. `Schema.Valid` states the schema's guarantees:
  - rows sit under their own ids;
  - content hashes are unique;
  - category names are unique;
  - every link refers to a live entry and a live category;
  - an IV is stored exactly for encrypted rows.

  Every mutator is a function `Operations.X` from the old tables to the new
  ones. Each keeps `Valid`. `Database.ClipboardDatabase` is the class whose
  methods update its fields in place, each proved to leave exactly
  `Operations.X(old(State()))`. The read queries are functions over the
  tables, in `Queries`. SQL `LIKE` is modelled exactly in `SqlLike`, with
  `%` and `_` as wildcards and ASCII case folding.
- **The main process** (`main.js`). `MainProcess.MainState` holds the
  process-level `db`, `lastClipboardText` and `themeMode`. It covers:
  - the clipboard poller's step;
  - `addToClipboardHistory`;
  - every IPC handler, with its "no database yet" default;
  - the decrypt chain: the entry password first, then the master password;
  - the tray's history items;
  - the theme setting.
- **The renderer's list filter** (`src/App.js`). `AppView.FilterEntries` is
  the category → search → date pipeline. It is proved equal to a single
  filter by the conjunction `Shown` of the three conditions. The class
  `AppView.AddEntryDialog` models the "add entry" form.
- **The category dialog** (`src/components/CategorySelector.js`). It covers
  toggling a checkbox and the `toAdd`/`toRemove` diff. `HandleSave` is a
  method with two loops that send the link changes through the main process.
- **The entry card** (`src/components/EntryCard.js`). It covers the relative
  age label, the type chip, the manual badge, which text the card shows, and
  the reveal action's state steps.

The cipher and the hash are foreign library calls. They enter as the
uninterpreted functions of `Schema.Crypto`, and decryption may fail
(`None`). The clock, the IV and the local midnights are parameters. The
operating-system clipboard is a parameter of `CheckClipboard`, and the text
written to it is a result of `HandleCopyEntry`.

Some behaviour of the code is kept as written:

- The content hash is taken over the plaintext, so a repeat add of an
  encrypted text only refreshes its timestamp.
- Search runs over the stored content, which for an encrypted row is its
  ciphertext.
- `copy-entry` copies the stored content, ciphertext included.
- An encrypted card shows its stored ciphertext on an italic line at all
  times. Only its body line stays empty until the entry is revealed.
- Mutators answer `true` for ids that do not exist.
- `assignCategory` answers `false` when a foreign key fails. `INSERT OR
  IGNORE` does not cover foreign-key violations, so the insert throws and
  the error is caught.
- `updateCategory` to another category's name answers `false`.
- An unknown date range in the renderer empties the list. Its `start` stays
  `undefined`, so every comparison with it is false.

## Model

| member | source | states |
|---|---|---|
| Schema.EmptyTables | database.js:37-74 | A freshly created database satisfies every schema constraint (unique hashes and names, live links, IV exactly for encrypted rows). |
| Schema.PlaintextContentUnique | database.js:44 | Under the schema's constraints, with the hash taken over the plaintext, no two plaintext rows hold the same text. |
| Operations.IdWithHash | database.js:106-109 | The lookup by content hash finds a row exactly when one has that hash, and the row it returns has it. |
| Operations.AddEntry | database.js:102-136 | `addEntry` keeps the schema's constraints. The returned id is a row stamped with the current time and keyed by the hash of the plaintext. Categories and links are untouched. |
| Operations.AddKnownHash | database.js:104-115 | Content whose hash is stored returns that row's id, changes only that row's timestamp, and inserts nothing. |
| Operations.AddNewHash | database.js:116-131 | A first add inserts exactly one row under the next id, and no existing row changes. |
| Operations.NewRowFields | database.js:116-125 | An inserted row is not a favourite. It is encrypted with an IV exactly when `encrypt` and a non-empty password are both given, and verbatim with no IV otherwise. It is hashed over the plaintext. It is named by the title, with an empty title stored as null. |
| Operations.RepeatAddIgnoresOptions | database.js:110-115 | A repeat add gives the same result whatever title, encryption and IV it is given. |
| Operations.AddSameContentTwice | database.js:102-136 | Adding the same text twice leaves one row, under the first id, with the second timestamp. |
| Operations.ReAddPlaintextRow | database.js:104-115 | Re-adding the content of a stored plaintext row finds that row. |
| Operations.ToggleFavorite | database.js:207-220 | `toggleFavorite` flips the flag of that row only. Nothing else in the tables changes, and an unknown id changes nothing. |
| Operations.ToggleTwice | database.js:207-220 | Two toggles restore the tables. |
| Operations.UpdateCustomName | database.js:223-236 | `updateCustomName` sets the name of that row only, and an unknown id changes nothing. |
| Operations.RowUpdatesKeepValid | database.js:207-236 | Toggling and renaming preserve every schema constraint. |
| Operations.DeleteEntry | database.js:184-193 | `deleteEntry` removes the row and, by cascade, exactly the links that name it. |
| Operations.ClearAll | database.js:196-204 | `clearAll` empties the entries and the links, and keeps categories and the id sequences. |
| Operations.DeleteCategory | database.js:315-324 | `deleteCategory` removes the category and, by cascade, exactly its links. |
| Operations.DeletesKeepValid | database.js:184-204 | The three deletes preserve every schema constraint. |
| Operations.DeletesCascade | database.js:71-72 | After any delete no link refers to a removed row, and no other entry or category is removed. |
| Operations.CreateCategory | database.js:270-282 | `createCategory` returns null and changes nothing when the name is taken. Otherwise it inserts under the next id with the colour `#3b82f6` and the icon `Label` as defaults. |
| Operations.CreateDuplicateName | database.js:58 | Creating a category under an existing name returns null and leaves the tables as they were. |
| Operations.UpdateCategory | database.js:299-312 | `updateCategory` fails, with nothing changed, exactly when another category has the name. Otherwise it replaces the row. An unknown id answers true and changes nothing. |
| Operations.CategoryMutatorsKeepValid | database.js:270-312 | Creating and updating categories preserve every schema constraint, name uniqueness included. |
| Operations.AssignCategory | database.js:327-339 | `assignCategory` adds the pair and answers true exactly when the entry and the category both exist. Otherwise it changes nothing and answers false. |
| Operations.AssignIdempotent | database.js:327-339 | Assigning a pair twice is the same as assigning it once. |
| Operations.RemoveCategory | database.js:342-354 | `removeCategory` deletes that one pair and nothing else. |
| Operations.RemoveThenAssign | database.js:327-354 | Removing a pair of live rows and assigning it back restores the links. |
| Operations.LinkUpdatesKeepValid | database.js:327-354 | Link changes preserve every schema constraint. |
| Database.ClipboardDatabase.constructor | database.js:26-74 | A store created on a fresh database file is empty and valid. |
| Database.ClipboardDatabase.Reopen | database.js:26-74 | A store opened on an existing `clipboard.db` holds the saved tables unchanged, because every `CREATE TABLE IF NOT EXISTS` is skipped. |
| Database.ClipboardDatabase.AddEntry | database.js:102-136 | The lookup-then-update-or-insert leaves the state `Operations.AddEntry` describes and returns its id. |
| Database.ClipboardDatabase.DeleteEntry | database.js:184-193 | Leaves the state `Operations.DeleteEntry` describes and answers true. |
| Database.ClipboardDatabase.ClearAll | database.js:196-204 | Leaves the state `Operations.ClearAll` describes and answers true. |
| Database.ClipboardDatabase.ToggleFavorite | database.js:207-220 | Leaves the state `Operations.ToggleFavorite` describes and answers true. |
| Database.ClipboardDatabase.UpdateCustomName | database.js:223-236 | Leaves the state `Operations.UpdateCustomName` describes and answers true. |
| Database.ClipboardDatabase.CreateCategory | database.js:270-282 | Leaves the state and id `Operations.CreateCategory` describes. |
| Database.ClipboardDatabase.UpdateCategory | database.js:299-312 | Leaves the state and answer `Operations.UpdateCategory` describes. |
| Database.ClipboardDatabase.DeleteCategory | database.js:315-324 | Leaves the state `Operations.DeleteCategory` describes and answers true. |
| Database.ClipboardDatabase.AssignCategory | database.js:327-339 | Leaves the state and answer `Operations.AssignCategory` describes. |
| Database.ClipboardDatabase.RemoveCategory | database.js:342-354 | Leaves the state `Operations.RemoveCategory` describes and answers true. |
| Queries.AllEntries | database.js:155-167 | `getAllEntries` lists every row exactly once, with non-increasing timestamps. |
| Queries.RecentEntries | database.js:139-152 | `getRecentEntries(n)` returns `min(n, count)` rows, taken from the front of the model's `AllEntries` (newest first), and all rows for a negative limit. Which of several rows with the same timestamp are kept is left to `RecentAreNewest`. |
| Queries.RecentAreNewest | database.js:139-152 | A row left out of the recent list is no newer than any row in it. |
| Queries.GetEntry | database.js:170-181 | `getEntry` finds a row exactly when the id exists. |
| Queries.SearchEntries | database.js:250-265 | `searchEntries` lists exactly the rows whose content or name matches `%query%` under `LIKE`, each once, newest first. |
| Queries.SearchLiteralQuery | database.js:250-265 | For a query without `%` or `_`, a row is found exactly when its content or name contains the query, ignoring ASCII case. |
| Queries.EntriesByCategory | database.js:372-385 | `getEntriesByCategory` lists exactly the rows linked to the category, each once, newest first. |
| Queries.EntriesByDateRange | database.js:402-414 | `getEntriesByDateRange(s, e)` lists exactly the rows with `s <= timestamp <= e`, each once, newest first. |
| Queries.EntryCategories | database.js:357-369 | `getEntryCategories` lists exactly the categories linked to the entry, each once. |
| Queries.AllEntriesWithCategories | database.js:388-399 | Every entry in `getAllEntries` order, each paired with its categories. |
| Queries.AllCategories | database.js:285-296 | `getAllCategories` lists every category exactly once, and every name collates no later than every name after it. |
| Queries.NameLeTotal | database.js:289 | The binary collation orders any two names. |
| Queries.NameLeTransitive | database.js:289 | The binary collation is transitive, so ordering adjacent names orders the whole list. |
| Queries.Count | database.js:239-247 | `getCount` is the number of rows `getAllEntries` lists, and it is zero exactly when the table is empty. |
| SqlLike.SearchPatternIsIncludes | database.js:254-258 | `s LIKE '%q%'` for a literal `q` is case-insensitive substring containment. |
| SqlLike.Like | database.js:250-260 | `s LIKE p` needs one text character for each pattern character other than `%`. A pattern without `%` matches only texts of its own length. |
| SqlLike.LikeAnything | database.js:254-258 | An empty query (`%%`) matches every text. |
| SqlLike.UnderscoreMatchesAnyContent | database.js:254-258 | A query of a single `_` matches every non-empty text, because the user's `_` is a wildcard. |
| SqlLike.LikeLiteralPrefix | database.js:254-258 | A literal character of the pattern must match the text's next character, ignoring ASCII case. |
| SqlLike.LikeAnySuffix | database.js:254-258 | A `%` can absorb any prefix of the text. |
| Ordering.SortBy | database.js:289 | `ORDER BY` yields an ordered permutation of the rows. |
| Ordering.Filter | src/App.js:126-157 | `Array.filter` keeps exactly the elements that pass, in their order, as a subsequence. |
| Ordering.FilterTwo | src/App.js:126-157 | Two filters in a row equal one filter by both conditions. |
| Ordering.FilterOrdered | database.js:139-167 | Filtering an ordered list keeps it ordered. |
| Ordering.FilterDistinct | database.js:139-167 | Filtering a list without duplicates keeps it without duplicates. |
| Text.Truncate | main.js:113-116 | `truncateText(t, m)` is `t` when it fits. Otherwise it is the first `m` characters followed by `...`. |
| Text.TrimEmptyIffBlank | main.js:70 | `text.trim()` is empty exactly when every character is JavaScript white space. |
| Text.TrimEnds | main.js:70 | What `trim()` leaves is empty, or begins and ends with a character that is not white space. |
| Text.TrimStart | src/App.js:134 | The leading white space `parseInt` and `trim` skip: what is left is a suffix of the text, it starts with a character that is not white space, and everything dropped is white space. |
| Text.TrimEnd | main.js:98 | The trailing white space `trim` drops: what is left is a prefix of the text, it ends with a character that is not white space, and everything dropped is white space. |
| Text.Lower | src/App.js:138 | `toLowerCase` keeps the length and lower-cases each character. |
| Text.Includes | src/App.js:138 | `includes` holds exactly when the pattern occurs at some index. |
| Text.ParseIntDecimal | src/App.js:134 | `parseInt` of an id's decimal rendering gives back the id. |
| Text.ParseInt | src/App.js:134 | `parseInt` of blank text is `NaN`. A negative result needs a leading `-`. Every number read holds a decimal digit, since base 16 needs the `0x` prefix. |
| Patterns.EmailHasOneAt | src/App.js:131 | Text matched by the email pattern has exactly one `@`. |
| Patterns.FormatCountsAsCode | src/App.js:132 | The code pattern has no word boundary, so "format" counts as code. |
| Patterns.IsUrl | src/App.js:130 | A text matched by `/^https?:\/\/.+/i` opens with `http` in any case and is longer than `http://`. |
| Patterns.IsEmail | src/App.js:131 | A text matched by the email pattern is at least 5 characters long and holds no white space anywhere. |
| Patterns.IsCode | src/App.js:132 | A text matched by the code pattern opens with a lower-case letter and is never matched by the URL pattern. |
| MainProcess.PollStep | main.js:66-74 | A poll forwards the text exactly when it differs from the last one and has a character that is not white space. `lastClipboardText` becomes the forwarded text and is otherwise unchanged. |
| MainProcess.SameTextForwardedOnce | main.js:70-72 | Two polls reading the same text forward it at most once. |
| MainProcess.IsNewClipboardText | main.js:70 | The poller's guard holds exactly when the text differs from the last one and is not all white space; the separate empty-string test adds nothing. |
| MainProcess.TryDecrypt | main.js:14-16 | One `db.decrypt` call: a row without an IV never decrypts, and otherwise the answer is the library's. |
| MainProcess.DecryptEntry | main.js:11-28 | A missing or unencrypted entry gives "Not encrypted". Otherwise the content comes from the entry password if it decrypts, and from a non-empty master password if not. Else the reply is "Invalid password or corrupt data"; no path throws. |
| MainProcess.WrongPasswordNoMaster | main.js:16-27 | Without a master password, a password that fails gives the failure reply. |
| MainProcess.AddThenDecrypt | main.js:9-29 | Text added encrypted comes back from `decrypt-entry` with its password, when the cipher round-trips that text. |
| MainProcess.CopiedText | main.js:139-147 | `copy-entry` writes exactly the stored content of an entry with non-empty content. |
| MainProcess.CopyEncryptedEntryWritesCiphertext | main.js:142-144 | Copying an encrypted entry writes its ciphertext, not its plaintext. |
| MainProcess.TrayLabel | main.js:492 | A tray item is labelled by the custom name when it is non-empty, else by the content cut to 50 characters. |
| MainProcess.TrayHistoryItems | main.js:488-514 | The tray lists the 1 to 3 newest entries, enabled and labelled, or one disabled placeholder when there are none. |
| MainProcess.ThemeFromSettings | main.js:48 | The saved theme is used when it is non-empty, and `light` otherwise. |
| MainProcess.MainState.constructor | main.js:31-36 | The process starts with no database, no last text and the `light` theme. |
| MainProcess.MainState.LoadSettings | main.js:43-53 | Loading settings sets the theme only when the file exists. |
| MainProcess.MainState.OpenDatabase | main.js:687 | At start-up the store reopens the saved `clipboard.db` with its history intact, or starts empty and valid when there is no file. |
| MainProcess.MainState.AddToClipboardHistory | main.js:97-104 | Blank text or a missing database changes nothing. Otherwise the store takes `addEntry`. |
| MainProcess.MainState.CheckClipboard | main.js:66-74 | One tick follows `PollStep`. A forwarded text is added with the poller's unencrypted options. |
| MainProcess.MainState.HandleAddEntry | main.js:106-110 | `add-entry` answers null without a database. Otherwise it adds the text as given, with no blank check, and answers the id. |
| MainProcess.MainState.HandleDecryptEntry | main.js:9-29 | `decrypt-entry` answers "No DB" before the store exists, and otherwise the decrypt chain on `getEntry`. |
| MainProcess.MainState.HandleCopyEntry | main.js:139-147 | `copy-entry` answers false without a database. Otherwise it answers true exactly when it writes the entry's content. |
| MainProcess.MainState.HandleGetClipboardEntries | main.js:121-124 | `[]` without a database, else `getAllEntries`. |
| MainProcess.MainState.HandleGetRecentEntries | main.js:127-130 | `[]` without a database, else `getRecentEntries(limit)`. |
| MainProcess.MainState.HandleSearchEntries | main.js:133-136 | `[]` without a database, else `searchEntries(query)`. |
| MainProcess.MainState.HandleGetCount | main.js:176-179 | `0` without a database, else `getCount`, the number of rows. |
| MainProcess.MainState.HandleDeleteEntry | main.js:150-157 | `false` without a database. Otherwise it deletes and answers true. |
| MainProcess.MainState.HandleToggleFavorite | main.js:160-167 | `false` without a database. Otherwise it toggles and answers true. |
| MainProcess.MainState.HandleUpdateCustomName | main.js:170-173 | `false` without a database. Otherwise it renames and answers true. |
| MainProcess.MainState.HandleClearAllEntries | main.js:182-185 | `false` without a database. Otherwise it clears and answers true. |
| MainProcess.MainState.HandleCreateCategory | main.js:190-193 | null without a database, else `createCategory`'s state and id. |
| MainProcess.MainState.HandleGetAllCategories | main.js:196-199 | `[]` without a database, else `getAllCategories`. |
| MainProcess.MainState.HandleUpdateCategory | main.js:202-205 | `false` without a database, else `updateCategory`'s state and answer. |
| MainProcess.MainState.HandleDeleteCategory | main.js:208-211 | `false` without a database. Otherwise it deletes and answers true. |
| MainProcess.MainState.HandleAssignCategory | main.js:214-221 | `false` without a database, else `assignCategory`'s state and answer. |
| MainProcess.MainState.HandleRemoveCategory | main.js:224-231 | `false` without a database. Otherwise it removes and answers true. |
| MainProcess.MainState.HandleGetEntriesWithCategories | main.js:234-237 | `[]` without a database, else `getAllEntriesWithCategories`. |
| MainProcess.MainState.HandleGetEntriesByCategory | main.js:240-243 | `[]` without a database, else `getEntriesByCategory`. |
| MainProcess.MainState.HandleGetEntriesByDateRange | main.js:248-251 | `[]` without a database, else `getEntriesByDateRange`. |
| MainProcess.MainState.TrayHistory | main.js:482-514 | No menu is built before the store exists; afterwards the menu holds `TrayHistoryItems`. |
| MainProcess.MainState.HandleGetThemeMode | main.js:254-256 | `get-theme-mode` answers the current theme. |
| MainProcess.MainState.HandleSetThemeMode | main.js:258-269 | `set-theme-mode` stores the mode and answers true. |
| AppView.CustomKey | src/components/Sidebar.js:168 | The sidebar's key for a category is `custom-` followed by the id's decimal digits. |
| AppView.CustomKeySelectsTagged | src/App.js:133-135 | Selecting `custom-<id>` keeps exactly the entries tagged with that id. |
| AppView.InCategory | src/App.js:128-136 | Any key other than the four built-in ones and `custom-…` keeps every entry, and a `custom-` key whose rest is `NaN` keeps none. |
| AppView.RangeBounds | src/App.js:140-156 | The bounds for each date range: `all` applies no bound, and `today`, `yesterday` and the last 7, 30 or 90 days are closed intervals. An unknown range keeps nothing. |
| AppView.FilterEntries | src/App.js:126-157 | The filtered list is an order-preserving subsequence of the input. It holds exactly the entries that pass the category, search and date stages. |
| AppView.StagesFuse | src/App.js:126-157 | The three staged filters, with skipped stages made explicit, equal one filter by `Shown`. |
| AppView.Shown | src/App.js:126-157 | The single condition behind the pipeline: an unknown date range shows nothing, and the defaults show everything. |
| AppView.SearchStageIsFilter | src/App.js:138 | An empty query filters nothing. A non-empty one keeps the entries whose lower-cased content or name contains it. |
| AppView.MatchesQuery | src/App.js:138 | An entry whose content contains the query as typed always matches, and a query longer than both the content and the name never does. |
| AppView.LowerKeepsOccurrence | src/App.js:138 | Lower-casing both sides keeps every occurrence found without it. |
| AppView.DateStageIsFilter | src/App.js:140-156 | The `all` range filters nothing, and any other range keeps the entries within its bounds. |
| AppView.UnknownRangeShowsNothing | src/App.js:140-156 | An unrecognised date range empties the list. |
| AppView.NoFiltersShowsEverything | src/App.js:126-157 | `all`, an empty query and the `all` range show every entry, in order. |
| AppView.AddEntryDialog.constructor | src/App.js:81-86 | The form starts empty and closed. |
| AppView.AddEntryDialog.HandleAddEntry | src/App.js:100-115 | Whitespace-only text changes nothing. Otherwise the text is added with the form's options, the dialog closes and the form resets. The message follows the checkbox. |
| AppView.EncryptWithoutPasswordStoresPlaintext | src/App.js:104-114 | With the checkbox ticked and no password, the row is stored in plain text while the message says "Encrypted entry added!". |
| CategorySelection.Toggle | src/components/CategorySelector.js:39-45 | A toggle flips the membership of that id and keeps every other id's. |
| CategorySelection.ToggleTwice | src/components/CategorySelector.js:39-45 | Toggling twice restores which ids are selected. |
| CategorySelection.ToggleKeepsDistinct | src/components/CategorySelector.js:39-45 | A selection without duplicates stays so after a toggle. |
| CategorySelection.Ids | src/components/CategorySelector.js:26 | The initial selection is the ids of the current categories, in order. |
| CategorySelection.ToAdd | src/components/CategorySelector.js:51 | `toAdd` is the selected ids that are not current. |
| CategorySelection.ToRemove | src/components/CategorySelector.js:52 | `toRemove` is the current ids that are not selected. |
| CategorySelection.AddRemoveDisjoint | src/components/CategorySelector.js:50-62 | No id is both added and removed. A selection equal to the current set sends no call. |
| CategorySelection.AssignAll | src/components/CategorySelector.js:55-57 | The assign calls add the links of those ids whose entry and category exist, and change nothing else. |
| CategorySelection.RemoveAll | src/components/CategorySelector.js:60-62 | The remove calls delete exactly those links. |
| CategorySelection.Save | src/components/CategorySelector.js:47-69 | Saving touches only the links of this entry. A newly selected live category gets linked, and a deselected current one gets unlinked. |
| CategorySelection.SaveLinksSelection | src/components/CategorySelector.js:47-69 | With the dialog opened on the entry's real categories and all selected categories present, saving links the entry to exactly the selection. No other entry's links change. |
| CategorySelection.CategorySelector.constructor | src/components/CategorySelector.js:19-21 | The dialog starts closed with an empty selection. |
| CategorySelection.CategorySelector.Open | src/components/CategorySelector.js:23-28 | Opening sets the selection to the current categories' ids. |
| CategorySelection.CategorySelector.HandleToggle | src/components/CategorySelector.js:39-45 | The selection becomes `Toggle` of the old one. |
| CategorySelection.CategorySelector.HandleSave | src/components/CategorySelector.js:47-69 | The two loops leave the store as `Save` describes (the additions, then the removals), and the dialog closes. The entry and its current categories are kept. |
| EntryCardView.FormatDate | src/components/EntryCard.js:45-59 | Under a minute, including the future, is "Just now". Otherwise whole minutes 1–59, hours 1–23 or days 1–6, each within its floor bounds. From seven days on, the date itself. |
| EntryCardView.FormatDateMonotone | src/components/EntryCard.js:45-59 | An older entry never gets a fresher label than a newer one. |
| EntryCardView.RelativeText | src/components/EntryCard.js:53-56 | Every bucket but the locale date has a relative text: "Just now" or the count followed by `m ago`, `h ago` or `d ago`. |
| EntryCardView.RelativeUnderAWeek | src/components/EntryCard.js:45-59 | An entry gets a relative label exactly when it is less than a week old. |
| EntryCardView.DetectCategory | src/components/EntryCard.js:61-71 | The chip is URL if the URL pattern matches, else Email, else Code, else none. |
| EntryCardView.UrlShadowsEmail | src/components/EntryCard.js:61-71 | `http://a@b.c` matches both the URL and the email patterns, and its chip says URL. |
| EntryCardView.ManualFollowsName | src/components/EntryCard.js:36 | The manual badge shows exactly when the custom name is non-empty. That is, from insertion when a title was given, and after any rename to a non-empty name. |
| EntryCardView.IsManual | src/components/EntryCard.js:36 | The manual badge shows exactly when the tray labels the entry by its custom name, and otherwise the tray shows its content cut to 50 characters. |
| EntryCardView.ShownText | src/components/EntryCard.js:253 | The card's body line shows the revealed plaintext, else the content of a plain entry, each cut at 150. The body line of an unrevealed encrypted entry is empty. |
| EntryCardView.RevealShowsPlaintext | src/components/EntryCard.js:253 | An encrypted entry's body line is empty until revealed, and then shows its plaintext. |
| EntryCardView.CipherLine | src/components/EntryCard.js:218-224 | The italic line appears exactly on encrypted entries and shows the stored content, whether or not the entry has been revealed. |
| EntryCardView.EncryptedCardShowsCiphertext | src/components/EntryCard.js:218-253 | A card added with a password shows the ciphertext `encrypt` produced on its italic line at all times, and its body line is empty until a reveal. |
| EntryCardView.CardNeverBlank | src/components/EntryCard.js:218-253 | Every card shows its entry in the body line or in the italic line. |
| EntryCardView.EntryCard.constructor | src/components/EntryCard.js:37-43 | A card starts unrevealed, with no error. |
| EntryCardView.EntryCard.HandleDecrypt | src/components/EntryCard.js:81-96 | Success reveals the content and clears the error. Failure sets the reply's error, or "Decryption failed", and keeps the card as it was. `decrypting` ends false. |

## Left out

- Electron plumbing is not modelled: windows, the spotlight window, menus, dialogs, notifications to the renderer, global shortcuts and the app lifecycle.
- `updateTrayMenu`'s click handlers, icons and the rest of the tray menu are not modelled; only the history items are.
- The AES-256-CBC cipher, scrypt key derivation and SHA-256 are foreign library calls. They are uninterpreted functions, so no property of the cipher is proved. `MainProcess.AddThenDecrypt` takes the round trip of one text as a hypothesis.
- The SQLite engine, the WAL pragma and file paths are not modelled. An existing database file enters `MainState.OpenDatabase` as its saved tables, taken to meet the schema's constraints.
- The settings file's reading, JSON parsing and writing are I/O. `MainState.LoadSettings` takes the parsed `themeMode` as a parameter, and `HandleSetThemeMode` does not model the file write.
- Clocks and the locale are not modelled. `Date.now()`, `new Date()` and the local-midnight computations are parameters. `toLocaleDateString` is represented by `Age.OnDate` carrying the timestamp.
- The `created_at` and `content_type` columns are not modelled: no modelled operation reads them.
- Queries.SearchEntries: returns whole rows, while the source's `SELECT` leaves out `is_encrypted` and `iv`.
- Queries.RecentEntries: SQL orders both queries only by timestamp, so among rows with equal timestamps `LIMIT` may pick other rows than the model's prefix of `AllEntries`. `RecentAreNewest` states the guarantee that holds whatever the tie order.
- Queries.AllEntries: rows with equal timestamps may come in any order in the source, so the model promises only non-increasing timestamps.
- Queries.EntryCategories: the query has no `ORDER BY`; the model lists by id and promises only membership and distinctness.
- Operations.AddEntry: the `catch` that answers null when the library throws (a failed encryption, say) is not modelled.
- Text.Lower: case folding is ASCII only, for `toLowerCase` and for `LIKE` alike. JavaScript also folds non-ASCII letters.
- Text.ParseInt: values are exact integers; `parseInt`'s floating-point rounding of very long digit strings is not modelled.
- Strings are sequences of code points. JavaScript lengths count UTF-16 units, so `truncateText` on text outside the Basic Multilingual Plane cuts at a different place.
- The regular expressions are written out as predicates (`Patterns`) rather than run by a regex engine.
- React's asynchronous state updates and the IPC transport are not modelled. Each handler is one atomic step, and intermediate states such as `decrypting == true` are not observable in the model.
- `handleAddEntry`'s and `handleSave`'s follow-up `fetchEntries` and snackbar display are not modelled. The snackbar message is the result of `AddEntryDialog.HandleAddEntry`.
- The code has no eviction, retention limit or debounce, so the model has none.
