/**
 * The three tables of the clipboard store (database.js) as values: entries
 * and categories keyed by their AUTOINCREMENT id, and the entry/category
 * junction table as a set of (entry_id, category_id) pairs.
 */
module Schema {
  import opened Wrappers

  /** A row of `clipboard_entries`. `content` is ciphertext when `isEncrypted`. */
  datatype Entry = Entry(
    id: int,
    content: string,
    contentHash: string,
    timestamp: int,
    isFavorite: bool,
    customName: Option<string>,
    isEncrypted: bool,
    iv: Option<string>)

  /** A row of `custom_categories`. */
  datatype Category = Category(id: int, name: string, color: string, icon: string)

  /** A row of `getAllEntriesWithCategories`: the entry with its categories attached. */
  datatype EntryWithCategories = EntryWithCategories(entry: Entry, categories: seq<Category>)

  /**
   * The whole store. `nextEntryId` and `nextCategoryId` stand for SQLite's
   * AUTOINCREMENT sequence: one more than the largest id ever handed out.
   */
  datatype Tables = Tables(
    entries: map<int, Entry>,
    categories: map<int, Category>,
    links: set<(int, int)>,
    nextEntryId: int,
    nextCategoryId: int)

  /**
   * The library code the store calls but does not define: the SHA-256 hex
   * digest, the AES-256-CBC encryption of a text under a password and a hex
   * IV, and the decryption, which fails (`None`) where the library throws.
   */
  datatype Crypto = Crypto(
    hash: string -> string,
    encrypt: (string, string, string) -> string,
    decrypt: (string, string, string) -> Option<string>)

  /** Every row sits under its own id, below the AUTOINCREMENT sequence. */
  ghost predicate WellKeyed(t: Tables) {
    && t.nextEntryId >= 1
    && t.nextCategoryId >= 1
    && (forall id | id in t.entries :: t.entries[id].id == id && 1 <= id < t.nextEntryId)
    && (forall id | id in t.categories :: t.categories[id].id == id && 1 <= id < t.nextCategoryId)
  }

  /** `content_hash VARCHAR(64) UNIQUE`. */
  ghost predicate UniqueHashes(t: Tables) {
    forall i, j | i in t.entries && j in t.entries && i != j ::
      t.entries[i].contentHash != t.entries[j].contentHash
  }

  /** `name VARCHAR(100) NOT NULL UNIQUE`. */
  ghost predicate UniqueNames(t: Tables) {
    forall i, j | i in t.categories && j in t.categories && i != j ::
      t.categories[i].name != t.categories[j].name
  }

  /** Both foreign keys of `entry_categories` hold (ON DELETE CASCADE keeps them so). */
  ghost predicate LinksLive(t: Tables) {
    forall l | l in t.links :: l.0 in t.entries && l.1 in t.categories
  }

  /**
   * What the schema and the store's own code guarantee of every state: the
   * constraints above, an IV stored exactly for encrypted rows, and the hash
   * of a plaintext row being the hash of its content.
   */
  ghost predicate Valid(t: Tables, hash: string -> string)
  {
    && WellKeyed(t)
    && UniqueHashes(t)
    && UniqueNames(t)
    && LinksLive(t)
    && (forall id | id in t.entries ::
          && (t.entries[id].isEncrypted <==> t.entries[id].iv.Some?)
          && (!t.entries[id].isEncrypted ==> t.entries[id].contentHash == hash(t.entries[id].content)))
  }

  /**
   * The unique hash over the plaintext keeps two plaintext rows from holding
   * the same text: the store deduplicates what it keeps in the clear.
   */
  lemma PlaintextContentUnique(t: Tables, hash: string -> string, i: int, j: int)
    requires Valid(t, hash)
    requires i in t.entries && j in t.entries && i != j
    requires !t.entries[i].isEncrypted && !t.entries[j].isEncrypted
    ensures t.entries[i].content != t.entries[j].content
  {
  }

  /** The store as `initDatabase` leaves a fresh database file. */
  function EmptyTables(): (t: Tables)
    ensures forall hash :: Valid(t, hash)
  {
    Tables(map[], map[], {}, 1, 1)
  }
}
