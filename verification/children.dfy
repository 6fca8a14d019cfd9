/**
 * The child provider: `stageChildren` (the children of a node, by kind) and
 * `numChildren` (their count, computed by separate COUNT queries), with the
 * per-instance cache of the count.
 */
module Children {
  import opened Wrappers
  import opened Seqs
  import opened Store

  /** The ORM queries the hierarchy issues. */
  datatype Query =
    | AllOf(kind: Kind)                          // `X::get()`
    | InLanguage(kind: Kind, languageID: nat)    // top-level rows of a language: FolderID 0
    | InFolder(kind: Kind, folderID: nat)        // rows directly inside a folder
    | NextUnder(kind: Kind, languageID: nat, above: Option<int>)  // `LanguageID = n [AND Sort > s]`

  predicate Matches(q: Query, c: Key, n: Node) {
    match q
    case AllOf(kd) => c.kind == kd
    case InLanguage(kd, id) => c.kind == kd && n.languageID == id && n.folderID == 0
    case InFolder(kd, id) => c.kind == kd && n.folderID == id
    case NextUnder(kd, id, above) => c.kind == kd && n.languageID == id && (above.None? || n.sort > above.value)
  }

  /** `c` is a row the query selects. */
  predicate Hit(db: Db, q: Query, c: Key) {
    c in db.nodes && Matches(q, c, db.nodes[c])
  }

  /** The rows of `rows` the query selects, in order. */
  function SelectFrom(db: Db, rows: seq<Key>, q: Query): (r: seq<Key>)
    ensures forall c :: c in r <==> c in rows && Hit(db, q, c)
    ensures Distinct(rows) ==> Distinct(r)
  {
    if rows == [] then []
    else
      var rest := SelectFrom(db, rows[1..], q);
      assert forall c :: c in rows[1..] ==> c in rows;
      if Hit(db, q, rows[0]) then [rows[0]] + rest else rest
  }

  /** A query's result list, in storage order (see `SelectFromInOrder`). */
  function Select(db: Db, q: Query): seq<Key> {
    SelectFrom(db, db.rows, q)
  }

  /** `r` sits inside `rows` in order: its `m`-th entry is the row at position `idx[m]`, and the positions increase. */
  ghost predicate IndexMap(rows: seq<Key>, r: seq<Key>, idx: seq<nat>) {
    && |idx| == |r|
    && (forall m :: 0 <= m < |idx| ==> idx[m] < |rows| && rows[idx[m]] == r[m])
    && (forall m, n :: 0 <= m < n < |idx| ==> idx[m] < idx[n])
  }

  /** A listing keeps storage order. */
  lemma {:induction false} SelectFromInOrder(db: Db, rows: seq<Key>, q: Query) returns (idx: seq<nat>)
    ensures IndexMap(rows, SelectFrom(db, rows, q), idx)
  {
    if rows == [] {
      idx := [];
    } else {
      var sub := SelectFromInOrder(db, rows[1..], q);
      idx := IndexShift(rows, SelectFrom(db, rows[1..], q), sub);
      if Hit(db, q, rows[0]) {
        idx := IndexCons(rows, SelectFrom(db, rows[1..], q), idx);
      }
    }
  }

  /** An index map into the tail of `rows` shifts to one into `rows`, with every position at least 1. */
  lemma IndexShift(rows: seq<Key>, r: seq<Key>, sub: seq<nat>) returns (idx: seq<nat>)
    requires rows != [] && IndexMap(rows[1..], r, sub)
    ensures IndexMap(rows, r, idx) && forall m :: 0 <= m < |idx| ==> idx[m] >= 1
  {
    idx := seq(|sub|, m requires 0 <= m < |sub| => sub[m] + 1);
    forall m | 0 <= m < |idx| ensures rows[idx[m]] == r[m] {
      assert rows[idx[m]] == rows[1..][sub[m]];
    }
  }

  /** Listing the first row ahead of such a map extends it at position 0. */
  lemma IndexCons(rows: seq<Key>, r: seq<Key>, idx: seq<nat>) returns (idx': seq<nat>)
    requires rows != [] && IndexMap(rows, r, idx) && forall m :: 0 <= m < |idx| ==> idx[m] >= 1
    ensures IndexMap(rows, [rows[0]] + r, idx')
  {
    idx' := [0] + idx;
    assert forall m :: 1 <= m < |idx'| ==> idx'[m] == idx[m - 1];
  }

  /** When the store lists its rows in ascending Sort, so does every query. */
  lemma SelectSorted(db: Db, q: Query)
    requires SortedBySort(db)
    ensures forall m, n :: 0 <= m < n < |Select(db, q)| ==> Record(db, Select(db, q)[m]).sort <= Record(db, Select(db, q)[n]).sort
  {
    var idx := SelectFromInOrder(db, db.rows, q);
  }

  /** A query's COUNT: the number of rows it selects. */
  function Count(db: Db, q: Query): nat {
    |set c | c in db.nodes.Keys && Hit(db, q, c)|
  }

  /** The listing and the count of one query agree on a consistent store. */
  lemma SelectCount(db: Db, q: Query)
    requires Valid(db)
    ensures |Select(db, q)| == Count(db, q)
  {
    var r := Select(db, q);
    DistinctCard(r);
    assert Elems(r) == set c | c in db.nodes.Keys && Hit(db, q, c);
  }

  /**
   * The structural child relation, per kind: the ID-0 package has every
   * package, the ID-0 language every language, another language its
   * top-level folders and snippets, a folder the folders and snippets inside
   * it; nothing else has children.
   */
  predicate IsChild(db: Db, k: Key, c: Key)
    requires c in db.nodes
  {
    var n := db.nodes[c];
    match k.kind
    case Package => k.id == 0 && c.kind == Package
    case Language =>
      if k.id == 0 then c.kind == Language
      else (c.kind == Folder || c.kind == Snippet) && n.languageID == k.id && n.folderID == 0
    case Folder => (c.kind == Folder || c.kind == Snippet) && n.folderID == k.id
    case Snippet => false
  }

  /** The node holds its folders and snippets (as opposed to the whole table of packages or languages). */
  predicate HoldsRows(k: Key) {
    (k.kind == Language && k.id != 0) || k.kind == Folder
  }

  /**
   * `stageChildren`: the children of `k`, folders before snippets, each group
   * in storage order. The `augmentStageChildren` hook is the identity.
   */
  function StageChildren(db: Db, k: Key): (r: seq<Key>)
    ensures forall c :: c in r ==> c in db.nodes
  {
    match k.kind
    case Package => if k.id == 0 then Select(db, AllOf(Package)) else []
    case Language =>
      if k.id == 0 then Select(db, AllOf(Language))
      else Select(db, InLanguage(Folder, k.id)) + Select(db, InLanguage(Snippet, k.id))
    case Folder => Select(db, InFolder(Folder, k.id)) + Select(db, InFolder(Snippet, k.id))
    case Snippet => []
  }

  /**
   * The children are exactly the listed rows in the child relation; a
   * language or folder lists all its folders before all its snippets; on a
   * consistent store no child is listed twice.
   */
  lemma StageChildrenMembers(db: Db, k: Key)
    ensures var r := StageChildren(db, k);
            forall c :: c in r <==> c in db.rows && c in db.nodes && IsChild(db, k, c)
    ensures var r := StageChildren(db, k);
            HoldsRows(k) ==> forall i, j :: 0 <= i < j < |r| && r[i].kind == Snippet ==> r[j].kind == Snippet
    ensures Valid(db) ==> Distinct(StageChildren(db, k))
  {
    if k.kind == Language && k.id != 0 {
      Group(db, Select(db, InLanguage(Folder, k.id)), Select(db, InLanguage(Snippet, k.id)));
    } else if k.kind == Folder {
      Group(db, Select(db, InFolder(Folder, k.id)), Select(db, InFolder(Snippet, k.id)));
    }
  }

  /** Folders followed by snippets: the kinds are grouped, and the list is duplicate-free when both parts are. */
  lemma Group(db: Db, fs: seq<Key>, ss: seq<Key>)
    requires forall c :: c in fs ==> c.kind == Folder
    requires forall c :: c in ss ==> c.kind == Snippet
    ensures forall i, j :: 0 <= i < j < |fs + ss| && (fs + ss)[i].kind == Snippet ==> (fs + ss)[j].kind == Snippet
    ensures Distinct(fs) && Distinct(ss) ==> Distinct(fs + ss)
  {
    var r := fs + ss;
    forall i, j | 0 <= i < j < |r| && r[i].kind == Snippet
      ensures r[j].kind == Snippet
    {
      assert r[j] in ss;
    }
    if Distinct(fs) && Distinct(ss) {
      DistinctConcat(fs, ss);
    }
  }

  /**
   * `numChildren` without the cache: for a language (of any ID) its
   * top-level snippets plus its folders, for a folder its snippets plus its
   * folders, counted; 0 for every other kind.
   */
  function NumChildren(db: Db, k: Key): nat {
    match k.kind
    case Language => Count(db, InLanguage(Snippet, k.id)) + Count(db, InLanguage(Folder, k.id))
    case Folder => Count(db, InFolder(Snippet, k.id)) + Count(db, InFolder(Folder, k.id))
    case _ => 0
  }

  /**
   * The count agrees with the child list for a language with ID != 0 and a
   * folder, and is 0 for a package or a snippet, whatever its children.
   */
  lemma NumChildrenAgrees(db: Db, k: Key)
    requires Valid(db)
    ensures HoldsRows(k) ==> NumChildren(db, k) == |StageChildren(db, k)|
    ensures k.kind == Package || k.kind == Snippet ==> NumChildren(db, k) == 0
  {
    if k.kind == Language && k.id != 0 {
      SelectCount(db, InLanguage(Folder, k.id));
      SelectCount(db, InLanguage(Snippet, k.id));
    } else if k.kind == Folder {
      SelectCount(db, InFolder(Folder, k.id));
      SelectCount(db, InFolder(Snippet, k.id));
    }
  }

  /** `_cache_numChildren`: empty, or the first count computed. */
  datatype CountCache = Cold | Warm(count: nat)

  /**
   * `numChildren($cache)`: with the cache on and filled, the cached value;
   * otherwise a fresh count, which also fills the cache.
   */
  function NumChildrenCached(db: Db, k: Key, cache: CountCache, useCache: bool): (r: (nat, CountCache))
    ensures r.1 == Warm(r.0)
    ensures useCache && cache.Warm? ==> r.0 == cache.count
    ensures !useCache || cache.Cold? ==> r.0 == NumChildren(db, k)
  {
    if !useCache || cache.Cold? then
      var n := NumChildren(db, k);
      (n, Warm(n))
    else (cache.count, cache)
  }

  /**
   * Once computed, the cached count is returned again for every later store,
   * until the cache is flushed.
   */
  lemma CacheIsSticky(db: Db, db': Db, k: Key, cache: CountCache)
    ensures var (n, c) := NumChildrenCached(db, k, cache, true);
            NumChildrenCached(db', k, c, true) == (n, c)
  {
  }
}
