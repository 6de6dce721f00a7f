/**
 * `ClipboardDatabase` (database.js): the store as an object whose tables
 * the methods change in place. Each method's new state is the matching
 * function of module Operations applied to the old one, so everything proved
 * there holds of the object.
 */
module Database {
  import opened Wrappers
  import opened Schema
  import Operations

  class ClipboardDatabase {
    /** The library calls `generateHash`, `encrypt` and `decrypt` wrap. */
    const crypto: Crypto
    var entries: map<int, Entry>
    var categories: map<int, Category>
    var links: set<(int, int)>
    var nextEntryId: int
    var nextCategoryId: int

    /** The tables as one value. */
    function State(): Tables
      reads this
    {
      Tables(entries, categories, links, nextEntryId, nextCategoryId)
    }

    ghost predicate Valid()
      reads this
    {
      Schema.Valid(State(), crypto.hash)
    }

    /** A fresh database: `initDatabase` creates the three empty tables. */
    constructor (crypto: Crypto)
      ensures Valid() && State() == EmptyTables() && this.crypto == crypto
    {
      this.crypto := crypto;
      entries, categories, links := map[], map[], {};
      nextEntryId, nextCategoryId := 1, 1;
    }

    /**
     * `new ClipboardDatabase()` on an existing `clipboard.db`: every
     * `CREATE TABLE IF NOT EXISTS` is skipped, so the saved tables are kept.
     */
    constructor Reopen(crypto: Crypto, saved: Tables)
      requires Schema.Valid(saved, crypto.hash)
      ensures Valid() && State() == saved && this.crypto == crypto
    {
      this.crypto := crypto;
      entries, categories, links := saved.entries, saved.categories, saved.links;
      nextEntryId, nextCategoryId := saved.nextEntryId, saved.nextCategoryId;
    }

    /** `addEntry(content, opts)`; `now` is `Date.now()` and `iv` the hex IV `encrypt` would draw. */
    method AddEntry(content: string, opts: Operations.AddOptions, now: int, iv: string) returns (id: int)
      requires Valid()
      modifies this
      ensures Valid()
      ensures (State(), id) == Operations.AddEntry(old(State()), crypto, content, opts, now, iv)
    {
      var contentHash := crypto.hash(content);
      var existing := Operations.IdWithHash(State(), contentHash);
      if existing.Some? {
        id := existing.value;
        entries := entries[id := entries[id].(timestamp := now)];
        return;
      }
      var dbContent, isEncrypted, storedIv := content, false, None;
      if opts.encrypt && opts.password != "" {
        dbContent, isEncrypted, storedIv := crypto.encrypt(content, opts.password, iv), true, Some(iv);
      }
      var customName := if opts.title == "" then None else Some(opts.title);
      id := nextEntryId;
      entries := entries[id := Entry(id, dbContent, contentHash, now, false, customName, isEncrypted, storedIv)];
      nextEntryId := nextEntryId + 1;
    }

    method DeleteEntry(id: int) returns (ok: bool)
      requires Valid()
      modifies this
      ensures Valid() && ok
      ensures State() == Operations.DeleteEntry(old(State()), id)
    {
      entries := entries - {id};
      links := set l | l in links && l.0 != id;
      ok := true;
    }

    method ClearAll() returns (ok: bool)
      requires Valid()
      modifies this
      ensures Valid() && ok
      ensures State() == Operations.ClearAll(old(State()))
    {
      entries := map[];
      links := {};
      ok := true;
    }

    method ToggleFavorite(id: int) returns (ok: bool)
      requires Valid()
      modifies this
      ensures Valid() && ok
      ensures State() == Operations.ToggleFavorite(old(State()), id)
    {
      if id in entries {
        entries := entries[id := entries[id].(isFavorite := !entries[id].isFavorite)];
      }
      ok := true;
    }

    method UpdateCustomName(id: int, name: Option<string>) returns (ok: bool)
      requires Valid()
      modifies this
      ensures Valid() && ok
      ensures State() == Operations.UpdateCustomName(old(State()), id, name)
    {
      if id in entries {
        entries := entries[id := entries[id].(customName := name)];
      }
      ok := true;
    }

    method CreateCategory(name: string, color: Option<string>, icon: Option<string>) returns (id: Option<int>)
      requires Valid()
      modifies this
      ensures Valid()
      ensures (State(), id) == Operations.CreateCategory(old(State()), name, color, icon)
    {
      if Operations.NameTaken(State(), name, None) {
        return None;
      }
      id := Some(nextCategoryId);
      categories := categories[nextCategoryId := Category(nextCategoryId, name, color.GetOr("#3b82f6"), icon.GetOr("Label"))];
      nextCategoryId := nextCategoryId + 1;
    }

    method UpdateCategory(id: int, name: string, color: string, icon: string) returns (ok: bool)
      requires Valid()
      modifies this
      ensures Valid()
      ensures (State(), ok) == Operations.UpdateCategory(old(State()), id, name, color, icon)
    {
      if id in categories && Operations.NameTaken(State(), name, Some(id)) {
        return false;
      }
      if id in categories {
        categories := categories[id := Category(id, name, color, icon)];
      }
      ok := true;
    }

    method DeleteCategory(id: int) returns (ok: bool)
      requires Valid()
      modifies this
      ensures Valid() && ok
      ensures State() == Operations.DeleteCategory(old(State()), id)
    {
      categories := categories - {id};
      links := set l | l in links && l.1 != id;
      ok := true;
    }

    method AssignCategory(entryId: int, categoryId: int) returns (ok: bool)
      requires Valid()
      modifies this
      ensures Valid()
      ensures (State(), ok) == Operations.AssignCategory(old(State()), entryId, categoryId)
    {
      if entryId !in entries || categoryId !in categories {
        return false;
      }
      links := links + {(entryId, categoryId)};
      ok := true;
    }

    method RemoveCategory(entryId: int, categoryId: int) returns (ok: bool)
      requires Valid()
      modifies this
      ensures Valid() && ok
      ensures State() == Operations.RemoveCategory(old(State()), entryId, categoryId)
    {
      links := links - {(entryId, categoryId)};
      ok := true;
    }
  }
}
