/**
 * The mutators of the clipboard store (database.js) as functions from the
 * table state before the statement to the state after it, with what each
 * returns. Every one of them catches the library's exceptions; the only
 * failures the store's own schema can raise are the UNIQUE and FOREIGN KEY
 * constraints, and those are modelled where they can fire.
 */
module Operations {
  import opened Wrappers
  import opened Schema
  import Queries

  /** The `opts` of `addEntry`: `encrypt`, `password` and `title`, with "" for a missing string. */
  datatype AddOptions = AddOptions(encrypt: bool, password: string, title: string)

  /** The options the clipboard poller passes: `{ encrypt: false, password: '' }`. */
  const PollerOptions: AddOptions := AddOptions(false, "", "")

  /** `SELECT id FROM clipboard_entries WHERE content_hash = ?`: at most one row, the column being UNIQUE. */
  function IdWithHash(t: Tables, h: string): (r: Option<int>)
    requires UniqueHashes(t)
    ensures r.Some? <==> exists id | id in t.entries :: t.entries[id].contentHash == h
    ensures r.Some? ==> r.value in t.entries && t.entries[r.value].contentHash == h
  {
    if exists id | id in t.entries :: t.entries[id].contentHash == h then
      Some(var id :| id in t.entries && t.entries[id].contentHash == h; id)
    else None
  }

  /** The row a first `addEntry` inserts; `iv` is the hex of the random IV `encrypt` draws. */
  function NewRow(c: Crypto, id: int, content: string, opts: AddOptions, now: int, iv: string): Entry {
    var encrypted := opts.encrypt && opts.password != "";
    Entry(
      id,
      if encrypted then c.encrypt(content, opts.password, iv) else content,
      c.hash(content),
      now,
      false,
      if opts.title == "" then None else Some(opts.title),
      encrypted,
      if encrypted then Some(iv) else None)
  }

  /**
   * `addEntry(content, opts)`: an upsert keyed on the hash of the plaintext.
   * A known hash only refreshes that row's timestamp; a new one inserts a row
   * under the next id. Returns the new state and the row's id.
   */
  function AddEntry(t: Tables, c: Crypto, content: string, opts: AddOptions, now: int, iv: string): (r: (Tables, int))
    requires Valid(t, c.hash)
    ensures Valid(r.0, c.hash)
    ensures r.1 in r.0.entries && r.0.entries[r.1].timestamp == now && r.0.entries[r.1].contentHash == c.hash(content)
    ensures r.0.categories == t.categories && r.0.links == t.links
  {
    match IdWithHash(t, c.hash(content))
    case Some(id) =>
      (t.(entries := t.entries[id := t.entries[id].(timestamp := now)]), id)
    case None =>
      var id := t.nextEntryId;
      (t.(entries := t.entries[id := NewRow(c, id, content, opts, now, iv)], nextEntryId := id + 1), id)
  }

  /** `toggleFavorite(id)`: flips `is_favorite` of that row, if there is one; returns true either way. */
  function ToggleFavorite(t: Tables, id: int): (r: Tables)
    ensures r.entries.Keys == t.entries.Keys
    ensures forall k | k in t.entries && k != id :: r.entries[k] == t.entries[k]
    ensures id in t.entries ==>
      r.entries[id].isFavorite == !t.entries[id].isFavorite && r.entries[id].(isFavorite := true) == t.entries[id].(isFavorite := true)
    ensures r.categories == t.categories && r.links == t.links && r.nextEntryId == t.nextEntryId && r.nextCategoryId == t.nextCategoryId
  {
    if id in t.entries then t.(entries := t.entries[id := t.entries[id].(isFavorite := !t.entries[id].isFavorite)]) else t
  }

  /** `updateCustomName(id, name)`: sets `custom_name` of that row, if there is one; returns true either way. */
  function UpdateCustomName(t: Tables, id: int, name: Option<string>): (r: Tables)
    ensures r.entries.Keys == t.entries.Keys
    ensures forall k | k in t.entries && k != id :: r.entries[k] == t.entries[k]
    ensures id in t.entries ==> r.entries[id].customName == name && r.entries[id].(customName := None) == t.entries[id].(customName := None)
    ensures r.categories == t.categories && r.links == t.links && r.nextEntryId == t.nextEntryId && r.nextCategoryId == t.nextCategoryId
  {
    if id in t.entries then t.(entries := t.entries[id := t.entries[id].(customName := name)]) else t
  }

  /** `deleteEntry(id)`: the row and, by ON DELETE CASCADE, its links. */
  function DeleteEntry(t: Tables, id: int): (r: Tables)
    ensures r.entries == t.entries - {id}
    ensures forall l | l in r.links :: l in t.links && l.0 != id
    ensures forall l | l in t.links && l.0 != id :: l in r.links
    ensures r.categories == t.categories && r.nextEntryId == t.nextEntryId && r.nextCategoryId == t.nextCategoryId
  {
    t.(entries := t.entries - {id}, links := set l | l in t.links && l.0 != id)
  }

  /** `clearAll()`: every entry and, by cascade, every link; the id sequence is kept. */
  function ClearAll(t: Tables): (r: Tables)
    ensures r.entries == map[] && r.links == {}
    ensures r.categories == t.categories && r.nextEntryId == t.nextEntryId && r.nextCategoryId == t.nextCategoryId
  {
    t.(entries := map[], links := {})
  }

  /** Some category other than `except` already has this name. */
  predicate NameTaken(t: Tables, name: string, except: Option<int>) {
    exists id | id in t.categories :: t.categories[id].name == name && Some(id) != except
  }

  /**
   * `createCategory(name, color = '#3b82f6', icon = 'Label')`: the new id, or
   * `None` (null) when the UNIQUE name constraint rejects the row; a missing
   * colour or icon takes the default.
   */
  function CreateCategory(t: Tables, name: string, color: Option<string>, icon: Option<string>): (r: (Tables, Option<int>))
    ensures r.1.None? <==> NameTaken(t, name, None)
    ensures r.1.None? ==> r.0 == t
    ensures r.1.Some? ==>
      && r.1.value == t.nextCategoryId
      && r.0.categories.Keys == t.categories.Keys + {r.1.value}
      && r.0.categories[r.1.value] == Category(r.1.value, name, color.GetOr("#3b82f6"), icon.GetOr("Label"))
      && r.0.nextCategoryId == t.nextCategoryId + 1
    ensures forall k | k in t.categories && k != t.nextCategoryId :: k in r.0.categories && r.0.categories[k] == t.categories[k]
    ensures r.0.entries == t.entries && r.0.links == t.links && r.0.nextEntryId == t.nextEntryId
  {
    if NameTaken(t, name, None) then (t, None)
    else
      var id := t.nextCategoryId;
      (t.(categories := t.categories[id := Category(id, name, color.GetOr("#3b82f6"), icon.GetOr("Label"))], nextCategoryId := id + 1), Some(id))
  }

  /**
   * `updateCategory(id, name, color, icon)`: false, with nothing changed, when
   * another category already has the name; true otherwise, also for an
   * unknown id (the UPDATE then touches no row and no constraint fires).
   */
  function UpdateCategory(t: Tables, id: int, name: string, color: string, icon: string): (r: (Tables, bool))
    ensures !r.1 <==> id in t.categories && NameTaken(t, name, Some(id))
    ensures !r.1 || id !in t.categories ==> r.0 == t
    ensures r.1 && id in t.categories ==> r.0 == t.(categories := t.categories[id := Category(id, name, color, icon)])
  {
    if id !in t.categories then (t, true)
    else if NameTaken(t, name, Some(id)) then (t, false)
    else (t.(categories := t.categories[id := Category(id, name, color, icon)]), true)
  }

  /** `deleteCategory(id)`: the category and, by ON DELETE CASCADE, its links. */
  function DeleteCategory(t: Tables, id: int): (r: Tables)
    ensures r.categories == t.categories - {id}
    ensures forall l | l in r.links :: l in t.links && l.1 != id
    ensures forall l | l in t.links && l.1 != id :: l in r.links
    ensures r.entries == t.entries && r.nextEntryId == t.nextEntryId && r.nextCategoryId == t.nextCategoryId
  {
    t.(categories := t.categories - {id}, links := set l | l in t.links && l.1 != id)
  }

  /**
   * `assignCategory(entryId, categoryId)`: `INSERT OR IGNORE` of the pair.
   * OR IGNORE covers the primary key only; a missing entry or category
   * violates a foreign key, which throws, so the call returns false.
   */
  function AssignCategory(t: Tables, entryId: int, categoryId: int): (r: (Tables, bool))
    ensures r.1 <==> entryId in t.entries && categoryId in t.categories
    ensures r.0.links == if r.1 then t.links + {(entryId, categoryId)} else t.links
    ensures r.0.entries == t.entries && r.0.categories == t.categories
    ensures r.0.nextEntryId == t.nextEntryId && r.0.nextCategoryId == t.nextCategoryId
  {
    if entryId in t.entries && categoryId in t.categories then (t.(links := t.links + {(entryId, categoryId)}), true)
    else (t, false)
  }

  /** `removeCategory(entryId, categoryId)`: deletes that one pair, if present; returns true. */
  function RemoveCategory(t: Tables, entryId: int, categoryId: int): (r: Tables)
    ensures r.links == t.links - {(entryId, categoryId)}
    ensures r.entries == t.entries && r.categories == t.categories
    ensures r.nextEntryId == t.nextEntryId && r.nextCategoryId == t.nextCategoryId
  {
    t.(links := t.links - {(entryId, categoryId)})
  }

  // ----- Every mutator keeps the schema's guarantees -----

  lemma RowUpdatesKeepValid(t: Tables, hash: string -> string, id: int, name: Option<string>)
    requires Valid(t, hash)
    ensures Valid(ToggleFavorite(t, id), hash)
    ensures Valid(UpdateCustomName(t, id, name), hash)
  {
  }

  lemma DeletesKeepValid(t: Tables, hash: string -> string, id: int)
    requires Valid(t, hash)
    ensures Valid(DeleteEntry(t, id), hash)
    ensures Valid(ClearAll(t), hash)
    ensures Valid(DeleteCategory(t, id), hash)
  {
  }

  lemma LinkUpdatesKeepValid(t: Tables, hash: string -> string, entryId: int, categoryId: int)
    requires Valid(t, hash)
    ensures Valid(AssignCategory(t, entryId, categoryId).0, hash)
    ensures Valid(RemoveCategory(t, entryId, categoryId), hash)
  {
  }

  lemma CategoryMutatorsKeepValid(t: Tables, hash: string -> string, id: int, name: string, color: string, icon: string)
    requires Valid(t, hash)
    ensures Valid(CreateCategory(t, name, Some(color), Some(icon)).0, hash)
    ensures Valid(UpdateCategory(t, id, name, color, icon).0, hash)
  {
  }

  // ----- addEntry -----

  /** Content whose hash is already stored: that row's id comes back and only its timestamp moves. */
  lemma AddKnownHash(t: Tables, c: Crypto, content: string, opts: AddOptions, now: int, iv: string, id: int)
    requires Valid(t, c.hash) && id in t.entries && t.entries[id].contentHash == c.hash(content)
    ensures AddEntry(t, c, content, opts, now, iv) == (t.(entries := t.entries[id := t.entries[id].(timestamp := now)]), id)
  {
  }

  /** A first add inserts exactly one row under the next id, as `NewRow` describes it. */
  lemma AddNewHash(t: Tables, c: Crypto, content: string, opts: AddOptions, now: int, iv: string)
    requires Valid(t, c.hash) && forall id | id in t.entries :: t.entries[id].contentHash != c.hash(content)
    ensures var (r, id) := AddEntry(t, c, content, opts, now, iv);
      && id == t.nextEntryId && id !in t.entries
      && r.entries == t.entries[id := NewRow(c, id, content, opts, now, iv)]
      && |r.entries| == |t.entries| + 1
  {
  }

  /**
   * The inserted row: not a favourite; encrypted, with the IV stored, exactly
   * when both `encrypt` and a non-empty password are given, otherwise the
   * content verbatim with no IV; hashed over the plaintext either way; named
   * by the title unless it is empty.
   */
  lemma NewRowFields(c: Crypto, id: int, content: string, opts: AddOptions, now: int, iv: string)
    ensures var e := NewRow(c, id, content, opts, now, iv);
      && !e.isFavorite && e.id == id && e.timestamp == now
      && e.contentHash == c.hash(content)
      && (e.isEncrypted <==> opts.encrypt && opts.password != "")
      && (e.iv.Some? <==> e.isEncrypted) && (e.isEncrypted ==> e.iv == Some(iv))
      && (!e.isEncrypted ==> e.content == content)
      && (e.isEncrypted ==> e.content == c.encrypt(content, opts.password, iv))
      && (e.customName.None? <==> opts.title == "") && (opts.title != "" ==> e.customName == Some(opts.title))
  {
  }

  /** A repeated add ignores its options: title, encryption and IV make no difference. */
  lemma RepeatAddIgnoresOptions(t: Tables, c: Crypto, content: string, o1: AddOptions, o2: AddOptions, now: int, iv1: string, iv2: string)
    requires Valid(t, c.hash) && exists id | id in t.entries :: t.entries[id].contentHash == c.hash(content)
    ensures AddEntry(t, c, content, o1, now, iv1) == AddEntry(t, c, content, o2, now, iv2)
  {
  }

  /** Adding the same text twice leaves one row, under the first id, stamped with the second time. */
  lemma {:induction false} AddSameContentTwice(t: Tables, c: Crypto, content: string, opts: AddOptions, now1: int, now2: int, iv: string)
    requires Valid(t, c.hash)
    ensures var (t1, id1) := AddEntry(t, c, content, opts, now1, iv);
            var (t2, id2) := AddEntry(t1, c, content, opts, now2, iv);
      && id2 == id1
      && t2.entries.Keys == t1.entries.Keys
      && t2.entries == t1.entries[id1 := t1.entries[id1].(timestamp := now2)]
  {
    var (t1, id1) := AddEntry(t, c, content, opts, now1, iv);
    AddKnownHash(t1, c, content, opts, now2, iv, id1);
  }

  /** Re-adding the visible text of a plaintext row refreshes that row instead of inserting. */
  lemma ReAddPlaintextRow(t: Tables, c: Crypto, id: int, opts: AddOptions, now: int, iv: string)
    requires Valid(t, c.hash) && id in t.entries && !t.entries[id].isEncrypted
    ensures AddEntry(t, c, t.entries[id].content, opts, now, iv).1 == id
    ensures Queries.Count(AddEntry(t, c, t.entries[id].content, opts, now, iv).0) == Queries.Count(t)
  {
    AddKnownHash(t, c, t.entries[id].content, opts, now, iv, id);
  }

  // ----- single-row updates -----

  /** Two toggles restore the table. */
  lemma ToggleTwice(t: Tables, id: int)
    ensures ToggleFavorite(ToggleFavorite(t, id), id) == t
  {
    if id in t.entries {
      var e := t.entries[id];
      assert e.(isFavorite := !!e.isFavorite) == e;
      assert t.entries[id := e] == t.entries;
    }
  }

  // ----- links -----

  /** `INSERT OR IGNORE` makes assigning a pair twice the same as assigning it once. */
  lemma AssignIdempotent(t: Tables, entryId: int, categoryId: int)
    ensures var (t1, _) := AssignCategory(t, entryId, categoryId);
      AssignCategory(t1, entryId, categoryId) == (t1, entryId in t.entries && categoryId in t.categories)
  {
  }

  /** Removing a pair and then assigning it back, for live rows, restores the links. */
  lemma RemoveThenAssign(t: Tables, entryId: int, categoryId: int)
    requires (entryId, categoryId) in t.links && entryId in t.entries && categoryId in t.categories
    ensures AssignCategory(RemoveCategory(t, entryId, categoryId), entryId, categoryId) == (t, true)
  {
    assert t.links - {(entryId, categoryId)} + {(entryId, categoryId)} == t.links;
  }

  /** After any delete, no link refers to a removed entry or category, and no other row went. */
  lemma DeletesCascade(t: Tables, id: int)
    requires LinksLive(t)
    ensures LinksLive(DeleteEntry(t, id)) && LinksLive(DeleteCategory(t, id)) && LinksLive(ClearAll(t))
    ensures forall k | k in t.entries && k != id :: k in DeleteEntry(t, id).entries
    ensures forall k | k in t.categories && k != id :: k in DeleteCategory(t, id).categories
    ensures DeleteCategory(t, id).entries == t.entries && ClearAll(t).categories == t.categories
  {
  }

  /** Creating a category under an existing name returns null and changes nothing. */
  lemma CreateDuplicateName(t: Tables, id: int, color: Option<string>, icon: Option<string>)
    requires id in t.categories
    ensures CreateCategory(t, t.categories[id].name, color, icon) == (t, None)
  {
  }
}
