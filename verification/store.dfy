/**
 * The node store the hierarchy works over: the Package, Language, Folder and
 * Snippet rows of the code-snippet CMS, keyed by (kind, ID), with the
 * relations the hierarchy follows (`Language()`, `Folder()`) as lookups.
 */
module Store {
  import opened Wrappers
  import opened Seqs

  /** The data classes the hierarchy is attached to; each is its own base data class. */
  datatype Kind = Package | Language | Folder | Snippet

  /** The data class name of each kind, as `->class` reports it. */
  function KindName(kd: Kind): string {
    match kd
    case Package => "SnippetPackage"
    case Language => "SnippetLanguage"
    case Folder => "SnippetFolder"
    case Snippet => "Snippet"
  }

  /** Identity of a node: an ID is only unique within its kind. */
  datatype Key = Key(kind: Kind, id: nat)

  /** An attribute value, compared by plain equality. */
  datatype Value = Null | Int(i: int) | Str(s: string)

  /**
   * One row. `languageID` is the logical parent (the `Language()` relation),
   * `folderID` the enclosing folder (the `Folder()` relation; 0 = none).
   */
  datatype Node = Node(languageID: nat, folderID: nat, sort: int, title: string, attrs: map<string, Value>)

  /** What a key with no row reads as: the ORM's empty object, every field zero. */
  const Blank := Node(0, 0, 0, "", map[])

  /**
   * The rows, and the order in which the ORM lists them: every relation in
   * the hierarchy lists its rows in this storage order, which is ascending
   * Sort only when `SortedBySort` holds.
   */
  datatype Db = Db(nodes: map<Key, Node>, rows: seq<Key>)

  /** The listing order holds every row exactly once. */
  predicate Valid(db: Db) {
    && Distinct(db.rows)
    && (forall k :: k in db.rows ==> k in db.nodes)
    && (forall k :: k in db.nodes ==> k in db.rows)
  }

  /** The record behind `k`, or the blank object for a key with no row (such as the ID-0 tree root). */
  function Record(db: Db, k: Key): Node {
    if k in db.nodes then db.nodes[k] else Blank
  }

  /** The stored rows are listed in ascending Sort, the order a `"Sort" ASC` query lists them in. */
  predicate SortedBySort(db: Db) {
    forall i, j :: 0 <= i < j < |db.rows| ==> Record(db, db.rows[i]).sort <= Record(db, db.rows[j]).sort
  }

  function Title(db: Db, k: Key): string {
    Record(db, k).title
  }

  /** `Language()`: the language row `n.languageID` names; nothing when it is 0 or dangling. */
  function LanguageOf(db: Db, n: Node): Option<Key> {
    var p := Key(Language, n.languageID);
    if n.languageID != 0 && p in db.nodes then Some(p) else None
  }

  /** `Folder()`: the folder row `n.folderID` names; nothing when it is 0 or dangling. */
  function FolderOf(db: Db, n: Node): Option<Key> {
    var f := Key(Folder, n.folderID);
    if n.folderID != 0 && f in db.nodes then Some(f) else None
  }

  /** One `Language()` hop from the node behind `k`. */
  function LanguageStep(db: Db, k: Key): Option<Key> {
    LanguageOf(db, Record(db, k))
  }

  /**
   * `$node->$name`: the named attribute of a node. The database fields are
   * read from the record; any other name is looked up among the extra
   * attributes, and an unknown one reads as null.
   */
  function Attr(k: Key, n: Node, name: string): Value {
    if name == "ID" then Int(k.id)
    else if name == "LanguageID" then Int(n.languageID)
    else if name == "FolderID" then Int(n.folderID)
    else if name == "Sort" then Int(n.sort)
    else if name == "Title" then Str(n.title)
    else if name in n.attrs then n.attrs[name]
    else Null
  }
}
