/**
 * The decision logic of the Electron main process (main.js): the clipboard
 * poller with its last-seen text, the IPC handlers with their "no database
 * yet" guards, the decrypt chain, the tray's history items and the theme
 * setting. Reading the OS clipboard, the clock and the random IV are
 * parameters; windows, menus and notifications are not modelled.
 */
module MainProcess {
  import opened Wrappers
  import opened Text
  import opened Schema
  import Operations
  import Queries
  import Database

  // ----- the clipboard poller -----

  /** `currentText && currentText.trim() && currentText !== lastClipboardText`. */
  function IsNewClipboardText(currentText: string, lastClipboardText: string): (r: bool)
    ensures r <==> currentText != lastClipboardText && !IsBlank(currentText)
  {
    TrimEmptyIffBlank(currentText);
    currentText != "" && Trim(currentText) != "" && currentText != lastClipboardText
  }

  /** One `checkClipboard` tick: whether the text is forwarded, and the new `lastClipboardText`. */
  function PollStep(lastClipboardText: string, currentText: string): (r: (bool, string))
    ensures r.0 <==> currentText != lastClipboardText && exists i | 0 <= i < |currentText| :: !IsJsWhitespace(currentText[i])
    ensures r.1 == if r.0 then currentText else lastClipboardText
  {
    TrimEmptyIffBlank(currentText);
    var forward := IsNewClipboardText(currentText, lastClipboardText);
    (forward, if forward then currentText else lastClipboardText)
  }

  /** Two ticks that read the same text forward it at most once. */
  lemma SameTextForwardedOnce(lastClipboardText: string, text: string)
    ensures var (f1, last1) := PollStep(lastClipboardText, text);
            var (f2, last2) := PollStep(last1, text);
      !f2 && last2 == last1 && (f1 ==> last1 == text)
  {
  }

  // ----- the decrypt chain -----

  /** The structured reply of `decrypt-entry`; it never throws. */
  datatype DecryptReply = Decrypted(content: string) | DecryptFailed(error: string)

  /** One `db.decrypt(entry.content, password, entry.iv)`; a missing IV makes the library throw. */
  function TryDecrypt(c: Crypto, e: Entry, password: string): (r: Option<string>)
    ensures e.iv.None? ==> r.None?
    ensures e.iv.Some? ==> r == c.decrypt(e.content, password, e.iv.value)
  {
    if e.iv.None? then None else c.decrypt(e.content, password, e.iv.value)
  }

  /**
   * `decrypt-entry` once the store exists: only an existing encrypted entry
   * is decrypted; the entry password is tried first and the master password,
   * when it is non-empty, second.
   */
  function DecryptEntry(c: Crypto, entry: Option<Entry>, password: string, masterPassword: string): (r: DecryptReply)
    ensures entry.None? || !entry.value.isEncrypted ==> r == DecryptFailed("Not encrypted")
    ensures r.Decrypted? <==>
      entry.Some? && entry.value.isEncrypted &&
      (TryDecrypt(c, entry.value, password).Some? || (masterPassword != "" && TryDecrypt(c, entry.value, masterPassword).Some?))
    ensures r.Decrypted? && TryDecrypt(c, entry.value, password).Some? ==> r.content == TryDecrypt(c, entry.value, password).value
    ensures r.Decrypted? && TryDecrypt(c, entry.value, password).None? ==> r.content == TryDecrypt(c, entry.value, masterPassword).value
    ensures r.DecryptFailed? && entry.Some? && entry.value.isEncrypted ==> r.error == "Invalid password or corrupt data"
  {
    if entry.None? || !entry.value.isEncrypted then DecryptFailed("Not encrypted")
    else
      match TryDecrypt(c, entry.value, password)
      case Some(content) => Decrypted(content)
      case None =>
        if masterPassword == "" then DecryptFailed("Invalid password or corrupt data")
        else
          match TryDecrypt(c, entry.value, masterPassword)
          case Some(content) => Decrypted(content)
          case None => DecryptFailed("Invalid password or corrupt data")
  }

  /** With no master password set, a password that does not decrypt gets a failure, never content. */
  lemma WrongPasswordNoMaster(c: Crypto, e: Entry, password: string)
    requires e.isEncrypted && TryDecrypt(c, e, password).None?
    ensures DecryptEntry(c, Some(e), password, "") == DecryptFailed("Invalid password or corrupt data")
  {
  }

  /**
   * An entry added encrypted under a password that the cipher round-trips
   * comes back as its plaintext from `decrypt-entry` with that password,
   * whatever master password is also sent.
   */
  lemma AddThenDecrypt(t: Tables, c: Crypto, content: string, opts: Operations.AddOptions, now: int, iv: string, masterPassword: string)
    requires Valid(t, c.hash) && forall id | id in t.entries :: t.entries[id].contentHash != c.hash(content)
    requires opts.encrypt && opts.password != ""
    requires c.decrypt(c.encrypt(content, opts.password, iv), opts.password, iv) == Some(content)
    ensures var (r, id) := Operations.AddEntry(t, c, content, opts, now, iv);
      DecryptEntry(c, Queries.GetEntry(r, id), opts.password, masterPassword) == Decrypted(content)
  {
    Operations.AddNewHash(t, c, content, opts, now, iv);
  }

  /** What `copy-entry` writes to the clipboard: the stored content of an entry whose content is non-empty. */
  function CopiedText(t: Tables, id: int): (r: Option<string>)
    ensures r.Some? <==> id in t.entries && t.entries[id].content != ""
    ensures r.Some? ==> r.value == t.entries[id].content
  {
    match Queries.GetEntry(t, id)
    case Some(e) => if e.content != "" then Some(e.content) else None
    case None => None
  }

  /** `copy-entry` on an entry stored encrypted copies its ciphertext, not the plaintext. */
  lemma CopyEncryptedEntryWritesCiphertext(t: Tables, c: Crypto, content: string, opts: Operations.AddOptions, now: int, iv: string)
    requires Valid(t, c.hash) && forall id | id in t.entries :: t.entries[id].contentHash != c.hash(content)
    requires opts.encrypt && opts.password != ""
    requires c.encrypt(content, opts.password, iv) != ""
    ensures var (r, id) := Operations.AddEntry(t, c, content, opts, now, iv);
      CopiedText(r, id) == Some(c.encrypt(content, opts.password, iv))
  {
    Operations.AddNewHash(t, c, content, opts, now, iv);
  }

  // ----- the tray -----

  datatype MenuItem = MenuItem(caption: string, enabled: bool)

  /** `entry.custom_name || truncateText(entry.content, 50)`. */
  function TrayLabel(e: Entry): (caption: string)
    ensures e.customName.Some? && e.customName.value != "" ==> caption == e.customName.value
    ensures e.customName.None? || e.customName.value == "" ==> |caption| <= 53 && caption == Truncate(e.content, 50)
  {
    if e.customName.Some? && e.customName.value != "" then e.customName.value else Truncate(e.content, 50)
  }

  /** The history part of the tray menu built from `getRecentEntries(3)`. */
  function TrayHistoryItems(t: Tables): (items: seq<MenuItem>)
    requires WellKeyed(t)
    ensures 1 <= |items| <= 3
    ensures Queries.RecentEntries(t, 3) == [] ==> items == [MenuItem("(No clipboard history)", false)]
    ensures Queries.RecentEntries(t, 3) != [] ==>
      |items| == |Queries.RecentEntries(t, 3)| &&
      forall i | 0 <= i < |items| :: items[i] == MenuItem(TrayLabel(Queries.RecentEntries(t, 3)[i]), true)
  {
    var recent := Queries.RecentEntries(t, 3);
    if recent == [] then [MenuItem("(No clipboard history)", false)]
    else seq(|recent|, i requires 0 <= i < |recent| => MenuItem(TrayLabel(recent[i]), true))
  }

  // ----- settings -----

  /** `settings.themeMode || 'light'` when the settings file is read. */
  function ThemeFromSettings(saved: Option<string>): (mode: string)
    ensures mode != ""
    ensures saved.Some? && saved.value != "" ==> mode == saved.value
  {
    if saved.Some? && saved.value != "" then saved.value else "light"
  }

  /** The module-level state of main.js that the modelled handlers use. */
  class MainState {
    var db: Database.ClipboardDatabase?
    var lastClipboardText: string
    var themeMode: string

    ghost predicate Valid()
      reads this, db
    {
      db != null ==> db.Valid()
    }

    /** The state when main.js is loaded: no database until the app is ready. */
    constructor ()
      ensures Valid() && db == null && lastClipboardText == "" && themeMode == "light"
    {
      db := null;
      lastClipboardText := "";
      themeMode := "light";
    }

    /** `loadSettings`: `settingsFile` is the file's `themeMode`, or `None` when there is no file. */
    method LoadSettings(settingsFile: Option<Option<string>>)
      modifies this
      ensures db == old(db) && lastClipboardText == old(lastClipboardText)
      ensures themeMode == if settingsFile.Some? then ThemeFromSettings(settingsFile.value) else old(themeMode)
    {
      if settingsFile.Some? {
        themeMode := ThemeFromSettings(settingsFile.value);
      }
    }

    /**
     * `app.whenReady`: `db = new ClipboardDatabase()`. `saved` is the content
     * of `clipboard.db` left by an earlier run, or `None` when there is no
     * such file; an existing file is reopened with its history intact.
     */
    method OpenDatabase(crypto: Crypto, saved: Option<Tables>)
      requires saved.Some? ==> Schema.Valid(saved.value, crypto.hash)
      modifies this
      ensures Valid() && db != null && fresh(db) && db.crypto == crypto
      ensures db.State() == if saved.Some? then saved.value else EmptyTables()
      ensures lastClipboardText == old(lastClipboardText) && themeMode == old(themeMode)
    {
      if saved.Some? {
        db := new Database.ClipboardDatabase.Reopen(crypto, saved.value);
      } else {
        db := new Database.ClipboardDatabase(crypto);
      }
    }

    /**
     * `addToClipboardHistory(text, opts)`: nothing for blank text or a missing
     * database, otherwise `db.addEntry`.
     */
    method AddToClipboardHistory(text: string, opts: Operations.AddOptions, now: int, iv: string)
      requires Valid()
      modifies db
      ensures Valid()
      ensures db != null ==> (db.State() ==
        if Trim(text) == "" then old(db.State()) else Operations.AddEntry(old(db.State()), db.crypto, text, opts, now, iv).0)
    {
      if text == "" || Trim(text) == "" || db == null {
        return;
      }
      var _ := db.AddEntry(text, opts, now, iv);
    }

    /**
     * `checkClipboard()`, given the text the OS clipboard holds: a new,
     * non-blank text becomes `lastClipboardText` and goes to the store with
     * the poller's options (never encrypted).
     */
    method CheckClipboard(currentText: string, now: int) returns (forwarded: bool)
      requires Valid()
      modifies this, db
      ensures Valid() && db == old(db) && themeMode == old(themeMode)
      ensures (forwarded, lastClipboardText) == PollStep(old(lastClipboardText), currentText)
      ensures db != null ==> (db.State() ==
        if forwarded then Operations.AddEntry(old(db.State()), db.crypto, currentText, Operations.PollerOptions, now, "").0
        else old(db.State()))
    {
      forwarded := IsNewClipboardText(currentText, lastClipboardText);
      if forwarded {
        lastClipboardText := currentText;
        AddToClipboardHistory(currentText, Operations.PollerOptions, now, "");
      }
    }

    // ----- IPC handlers that change the store -----

    /** `add-entry`: null without a database; no blank check here, the renderer does that. */
    method HandleAddEntry(text: string, opts: Operations.AddOptions, now: int, iv: string) returns (id: Option<int>)
      requires Valid()
      modifies db
      ensures Valid()
      ensures db == null ==> id == None
      ensures db != null ==> id.Some? && (db.State(), id.value) == Operations.AddEntry(old(db.State()), db.crypto, text, opts, now, iv)
    {
      if db == null {
        return None;
      }
      var newId := db.AddEntry(text, opts, now, iv);
      id := Some(newId);
    }

    method HandleDeleteEntry(id: int) returns (ok: bool)
      requires Valid()
      modifies db
      ensures Valid() && ok == (db != null)
      ensures db != null ==> db.State() == Operations.DeleteEntry(old(db.State()), id)
    {
      if db == null {
        return false;
      }
      ok := db.DeleteEntry(id);
    }

    method HandleToggleFavorite(id: int) returns (ok: bool)
      requires Valid()
      modifies db
      ensures Valid() && ok == (db != null)
      ensures db != null ==> db.State() == Operations.ToggleFavorite(old(db.State()), id)
    {
      if db == null {
        return false;
      }
      ok := db.ToggleFavorite(id);
    }

    method HandleUpdateCustomName(id: int, name: Option<string>) returns (ok: bool)
      requires Valid()
      modifies db
      ensures Valid() && ok == (db != null)
      ensures db != null ==> db.State() == Operations.UpdateCustomName(old(db.State()), id, name)
    {
      if db == null {
        return false;
      }
      ok := db.UpdateCustomName(id, name);
    }

    method HandleClearAllEntries() returns (ok: bool)
      requires Valid()
      modifies db
      ensures Valid() && ok == (db != null)
      ensures db != null ==> db.State() == Operations.ClearAll(old(db.State()))
    {
      if db == null {
        return false;
      }
      ok := db.ClearAll();
    }

    method HandleCreateCategory(name: string, color: Option<string>, icon: Option<string>) returns (id: Option<int>)
      requires Valid()
      modifies db
      ensures Valid()
      ensures db == null ==> id == None
      ensures db != null ==> (db.State(), id) == Operations.CreateCategory(old(db.State()), name, color, icon)
    {
      if db == null {
        return None;
      }
      id := db.CreateCategory(name, color, icon);
    }

    method HandleUpdateCategory(id: int, name: string, color: string, icon: string) returns (ok: bool)
      requires Valid()
      modifies db
      ensures Valid()
      ensures db == null ==> !ok
      ensures db != null ==> (db.State(), ok) == Operations.UpdateCategory(old(db.State()), id, name, color, icon)
    {
      if db == null {
        return false;
      }
      ok := db.UpdateCategory(id, name, color, icon);
    }

    method HandleDeleteCategory(id: int) returns (ok: bool)
      requires Valid()
      modifies db
      ensures Valid() && ok == (db != null)
      ensures db != null ==> db.State() == Operations.DeleteCategory(old(db.State()), id)
    {
      if db == null {
        return false;
      }
      ok := db.DeleteCategory(id);
    }

    method HandleAssignCategory(entryId: int, categoryId: int) returns (ok: bool)
      requires Valid()
      modifies db
      ensures Valid()
      ensures db == null ==> !ok
      ensures db != null ==> (db.State(), ok) == Operations.AssignCategory(old(db.State()), entryId, categoryId)
    {
      if db == null {
        return false;
      }
      ok := db.AssignCategory(entryId, categoryId);
    }

    method HandleRemoveCategory(entryId: int, categoryId: int) returns (ok: bool)
      requires Valid()
      modifies db
      ensures Valid() && ok == (db != null)
      ensures db != null ==> db.State() == Operations.RemoveCategory(old(db.State()), entryId, categoryId)
    {
      if db == null {
        return false;
      }
      ok := db.RemoveCategory(entryId, categoryId);
    }

    // ----- IPC handlers that only read -----

    /** `decrypt-entry`: "No DB" before the store exists, otherwise the decrypt chain on `getEntry(entryId)`. */
    method HandleDecryptEntry(entryId: int, password: string, masterPassword: string) returns (reply: DecryptReply)
      requires Valid()
      ensures db == null ==> reply == DecryptFailed("No DB")
      ensures db != null ==> reply == DecryptEntry(db.crypto, Queries.GetEntry(db.State(), entryId), password, masterPassword)
    {
      if db == null {
        return DecryptFailed("No DB");
      }
      reply := DecryptEntry(db.crypto, Queries.GetEntry(db.State(), entryId), password, masterPassword);
    }

    /** `copy-entry`: true and the text written to the clipboard when the entry has content, false otherwise. */
    method HandleCopyEntry(entryId: int) returns (ok: bool, written: Option<string>)
      requires Valid()
      ensures db == null ==> !ok && written == None
      ensures db != null ==> written == CopiedText(db.State(), entryId)
      ensures ok <==> written.Some?
    {
      if db == null {
        return false, None;
      }
      written := CopiedText(db.State(), entryId);
      ok := written.Some?;
    }

    method HandleGetClipboardEntries() returns (r: seq<Entry>)
      requires Valid()
      ensures db == null ==> r == []
      ensures db != null ==> r == Queries.AllEntries(db.State())
    {
      if db == null {
        return [];
      }
      r := Queries.AllEntries(db.State());
    }

    /** `get-recent-entries`; the renderer's default limit is 50. */
    method HandleGetRecentEntries(limit: int) returns (r: seq<Entry>)
      requires Valid()
      ensures db == null ==> r == []
      ensures db != null ==> r == Queries.RecentEntries(db.State(), limit)
    {
      if db == null {
        return [];
      }
      r := Queries.RecentEntries(db.State(), limit);
    }

    method HandleSearchEntries(query: string) returns (r: seq<Entry>)
      requires Valid()
      ensures db == null ==> r == []
      ensures db != null ==> r == Queries.SearchEntries(db.State(), query)
    {
      if db == null {
        return [];
      }
      r := Queries.SearchEntries(db.State(), query);
    }

    method HandleGetCount() returns (n: nat)
      requires Valid()
      ensures db == null ==> n == 0
      ensures db != null ==> n == |db.State().entries|
    {
      if db == null {
        return 0;
      }
      n := Queries.Count(db.State());
    }

    method HandleGetAllCategories() returns (r: seq<Category>)
      requires Valid()
      ensures db == null ==> r == []
      ensures db != null ==> r == Queries.AllCategories(db.State())
    {
      if db == null {
        return [];
      }
      r := Queries.AllCategories(db.State());
    }

    method HandleGetEntriesWithCategories() returns (r: seq<EntryWithCategories>)
      requires Valid()
      ensures db == null ==> r == []
      ensures db != null ==> r == Queries.AllEntriesWithCategories(db.State())
    {
      if db == null {
        return [];
      }
      r := Queries.AllEntriesWithCategories(db.State());
    }

    method HandleGetEntriesByCategory(categoryId: int) returns (r: seq<Entry>)
      requires Valid()
      ensures db == null ==> r == []
      ensures db != null ==> r == Queries.EntriesByCategory(db.State(), categoryId)
    {
      if db == null {
        return [];
      }
      r := Queries.EntriesByCategory(db.State(), categoryId);
    }

    method HandleGetEntriesByDateRange(start: int, end: int) returns (r: seq<Entry>)
      requires Valid()
      ensures db == null ==> r == []
      ensures db != null ==> r == Queries.EntriesByDateRange(db.State(), start, end)
    {
      if db == null {
        return [];
      }
      r := Queries.EntriesByDateRange(db.State(), start, end);
    }

    /** `updateTrayMenu()`: no menu is built before the store exists; otherwise its history items. */
    method TrayHistory() returns (items: Option<seq<MenuItem>>)
      requires Valid()
      ensures db == null ==> items == None
      ensures db != null ==> items == Some(TrayHistoryItems(db.State()))
    {
      if db == null {
        return None;
      }
      items := Some(TrayHistoryItems(db.State()));
    }

    method HandleGetThemeMode() returns (mode: string)
      ensures mode == themeMode
    {
      mode := themeMode;
    }

    /** `set-theme-mode`: stores the mode (the settings file write is I/O) and answers true. */
    method HandleSetThemeMode(mode: string) returns (ok: bool)
      modifies this
      ensures ok && themeMode == mode && db == old(db) && lastClipboardText == old(lastClipboardText)
    {
      themeMode := mode;
      ok := true;
    }
  }
}
