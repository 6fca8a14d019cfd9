/**
 * `naturalNext`: the document-order search for the next node of a class,
 * which tries the children of the current node (rows of the same class whose
 * `LanguageID` is the node's ID, in storage order, after the node it came from)
 * and otherwise climbs to the `Language()` parent unless the root bound
 * stops it; and `naturalPrev`, which finds nothing.
 */
module Navigation {
  import opened Wrappers
  import opened Store
  import opened Children

  /** The `$root` bound: a node ID (numeric) or a class name. */
  datatype Root = RootId(id: nat) | RootClass(name: string)

  /** The outcome of a search that may run out of recursion depth. */
  datatype Search = Found(node: Key) | NotFound | OutOfFuel

  /** `!$className`: the empty and the `"0"` class names are falsy and match every class. */
  predicate AnyClass(cls: string) {
    cls == "" || cls == "0"
  }

  /** The class filter lets a node of kind `kd` through. */
  predicate ClassOk(cls: string, kd: Kind) {
    AnyClass(cls) || KindName(kd) == cls
  }

  /** The root bound names `k`, by ID or by class, so the search does not climb above it. */
  predicate Bounds(root: Root, k: Key) {
    match root
    case RootId(id) => id == k.id
    case RootClass(name) => name == KindName(k.kind)
  }

  /** The node itself is the answer: it was reached from another ID and passes the class filter. */
  predicate AnswersSelf(cls: string, k: Key, after: Option<Key>) {
    after.Some? && after.value.id != k.id && ClassOk(cls, k.kind)
  }

  /** The rows searched below `k`: same class, `LanguageID` = `k`'s ID, Sort above `after`'s. */
  function NextChildren(db: Db, k: Key, after: Option<Key>): seq<Key> {
    Select(db, NextUnder(k.kind, k.id, if after.Some? then Some(Record(db, after.value).sort) else None))
  }

  /**
   * `$k->naturalNext($cls, $root, $after)` with at most `fuel` nested calls.
   * A result is the node itself (when it was reached from another ID),
   * a row of the store, or nothing; it always passes the class filter.
   */
  function NextWithin(db: Db, cls: string, k: Key, root: Root, after: Option<Key>, fuel: nat): (r: Search)
    ensures r.Found? ==> ClassOk(cls, r.node.kind)
    ensures r.Found? ==> r.node in db.nodes || (r.node == k && after.Some? && after.value.id != k.id)
    decreases fuel, 0
  {
    if fuel == 0 then OutOfFuel
    else if AnswersSelf(cls, k, after) then Found(k)
    else
      match FirstFound(db, cls, NextChildren(db, k, after), k, fuel - 1)
      case Found(x) => Found(x)
      case OutOfFuel => OutOfFuel
      case NotFound =>
        if Bounds(root, k) then NotFound
        else match LanguageStep(db, k)
          case None => NotFound
          case Some(p) => NextWithin(db, cls, p, root, Some(k), fuel - 1)
  }

  /** The first child (searched with itself as root and `k` as the node it came from) that finds something. */
  function FirstFound(db: Db, cls: string, cs: seq<Key>, k: Key, fuel: nat): (r: Search)
    requires forall c :: c in cs ==> c in db.nodes
    ensures r.Found? ==> ClassOk(cls, r.node.kind) && r.node in db.nodes
    decreases fuel, 1, |cs|
  {
    if cs == [] then NotFound
    else
      match NextWithin(db, cls, cs[0], RootId(cs[0].id), Some(k), fuel)
      case Found(x) => Found(x)
      case OutOfFuel => OutOfFuel
      case NotFound => FirstFound(db, cls, cs[1..], k, fuel)
  }

  /** A larger depth bound never changes a search that finishes. */
  lemma {:induction false} WithinMono(db: Db, cls: string, k: Key, root: Root, after: Option<Key>, f: nat, g: nat)
    requires f <= g && !NextWithin(db, cls, k, root, after, f).OutOfFuel?
    ensures NextWithin(db, cls, k, root, after, g) == NextWithin(db, cls, k, root, after, f)
    decreases f, 0
  {
    if AnswersSelf(cls, k, after) {
    } else {
      var cs := NextChildren(db, k, after);
      FirstMono(db, cls, cs, k, f - 1, g - 1);
      if FirstFound(db, cls, cs, k, f - 1).NotFound? && !Bounds(root, k) && LanguageStep(db, k).Some? {
        WithinMono(db, cls, LanguageStep(db, k).value, root, Some(k), f - 1, g - 1);
      }
    }
  }

  lemma {:induction false} FirstMono(db: Db, cls: string, cs: seq<Key>, k: Key, f: nat, g: nat)
    requires forall c :: c in cs ==> c in db.nodes
    requires f <= g && !FirstFound(db, cls, cs, k, f).OutOfFuel?
    ensures FirstFound(db, cls, cs, k, g) == FirstFound(db, cls, cs, k, f)
    decreases f, 1, |cs|
  {
    if cs != [] {
      WithinMono(db, cls, cs[0], RootId(cs[0].id), Some(k), f, g);
      if NextWithin(db, cls, cs[0], RootId(cs[0].id), Some(k), f).NotFound? {
        FirstMono(db, cls, cs[1..], k, f, g);
      }
    }
  }

  /** The nesting depth allowed: a descent and a climb, each at most the size of the store. */
  function Depth(db: Db): nat {
    2 * |db.nodes| + 2
  }

  /** The search finishes within the allowed depth (it recurses forever on a `LanguageID` cycle). */
  predicate NextEnds(db: Db, cls: string, k: Key, root: Root, after: Option<Key>) {
    !NextWithin(db, cls, k, root, after, Depth(db)).OutOfFuel?
  }

  /** `naturalNext($cls, $root, $after)` on the node `k`: the node found, or null. */
  function NaturalNext(db: Db, cls: string, k: Key, root: Root, after: Option<Key>): (r: Option<Key>)
    requires NextEnds(db, cls, k, root, after)
    ensures r.Some? ==> ClassOk(cls, r.value.kind)
    ensures r.Some? ==> r.value in db.nodes || (r.value == k && after.Some? && after.value.id != k.id)
  {
    match NextWithin(db, cls, k, root, after, Depth(db))
    case Found(x) => Some(x)
    case _ => None
  }

  /** Any depth at which the search finishes gives the same answer as the allowed depth. */
  lemma NaturalNextAnyDepth(db: Db, cls: string, k: Key, root: Root, after: Option<Key>, fuel: nat)
    requires NextEnds(db, cls, k, root, after)
    requires !NextWithin(db, cls, k, root, after, fuel).OutOfFuel?
    ensures NaturalNext(db, cls, k, root, after) ==
              (if NextWithin(db, cls, k, root, after, fuel).Found? then Some(NextWithin(db, cls, k, root, after, fuel).node) else None)
  {
    if fuel <= Depth(db) {
      WithinMono(db, cls, k, root, after, fuel, Depth(db));
    } else {
      WithinMono(db, cls, k, root, after, Depth(db), fuel);
    }
  }

  /** Each of the first `m` of `cs`, searched below itself coming from `k`, finishes and finds nothing. */
  ghost predicate NoneBefore(db: Db, cls: string, cs: seq<Key>, k: Key, m: nat)
    requires m <= |cs|
  {
    forall j :: 0 <= j < m ==>
      NextEnds(db, cls, cs[j], RootId(cs[j].id), Some(k)) && NaturalNext(db, cls, cs[j], RootId(cs[j].id), Some(k)).None?
  }

  /** `FirstFound` answers the first child whose search finds something, after children that find nothing. */
  lemma {:induction false} FirstFoundMeaning(db: Db, cls: string, cs: seq<Key>, k: Key, f: nat)
    requires forall c :: c in cs ==> c in db.nodes
    requires !FirstFound(db, cls, cs, k, f).OutOfFuel?
    ensures FirstFound(db, cls, cs, k, f).NotFound? ==>
              forall j :: 0 <= j < |cs| ==> NextWithin(db, cls, cs[j], RootId(cs[j].id), Some(k), f).NotFound?
    ensures FirstFound(db, cls, cs, k, f).Found? ==>
              exists m :: 0 <= m < |cs| && NextWithin(db, cls, cs[m], RootId(cs[m].id), Some(k), f) == FirstFound(db, cls, cs, k, f)
                && forall j :: 0 <= j < m ==> NextWithin(db, cls, cs[j], RootId(cs[j].id), Some(k), f).NotFound?
    decreases |cs|
  {
    if cs != [] && NextWithin(db, cls, cs[0], RootId(cs[0].id), Some(k), f).NotFound? {
      var tail := cs[1..];
      FirstFoundMeaning(db, cls, tail, k, f);
      if FirstFound(db, cls, cs, k, f).Found? {
        var m :| 0 <= m < |tail| && NextWithin(db, cls, tail[m], RootId(tail[m].id), Some(k), f) == FirstFound(db, cls, tail, k, f)
                 && forall j :: 0 <= j < m ==> NextWithin(db, cls, tail[j], RootId(tail[j].id), Some(k), f).NotFound?;
        assert cs[m + 1] == tail[m];
        forall j | 0 <= j < m + 1 ensures NextWithin(db, cls, cs[j], RootId(cs[j].id), Some(k), f).NotFound? {
          if j > 0 {
            assert cs[j] == tail[j - 1];
          }
        }
      } else {
        forall j | 0 <= j < |cs| ensures NextWithin(db, cls, cs[j], RootId(cs[j].id), Some(k), f).NotFound? {
          if j > 0 {
            assert cs[j] == tail[j - 1];
          }
        }
      }
    }
  }

  /** A search of a child that finishes short of the allowed depth finishes there with the same answer. */
  lemma ChildLifts(db: Db, cls: string, c: Key, k: Key, f: nat)
    requires f < Depth(db) && !NextWithin(db, cls, c, RootId(c.id), Some(k), f).OutOfFuel?
    ensures NextEnds(db, cls, c, RootId(c.id), Some(k))
    ensures NaturalNext(db, cls, c, RootId(c.id), Some(k)).None? <==> NextWithin(db, cls, c, RootId(c.id), Some(k), f).NotFound?
    ensures NextWithin(db, cls, c, RootId(c.id), Some(k), f).Found? ==>
              NaturalNext(db, cls, c, RootId(c.id), Some(k)) == Some(NextWithin(db, cls, c, RootId(c.id), Some(k), f).node)
  {
    WithinMono(db, cls, c, RootId(c.id), Some(k), f, Depth(db));
  }

  /**
   * When some child's search finds something, the answer is that of the
   * first such child, every child before it finding nothing.
   */
  lemma StepDescends(db: Db, cls: string, k: Key, root: Root, after: Option<Key>)
    requires NextEnds(db, cls, k, root, after) && !AnswersSelf(cls, k, after)
    requires !NoneBefore(db, cls, NextChildren(db, k, after), k, |NextChildren(db, k, after)|)
    ensures var cs := NextChildren(db, k, after);
            exists m :: 0 <= m < |cs| && NoneBefore(db, cls, cs, k, m)
              && NextEnds(db, cls, cs[m], RootId(cs[m].id), Some(k))
              && NaturalNext(db, cls, cs[m], RootId(cs[m].id), Some(k)).Some?
              && NaturalNext(db, cls, k, root, after) == NaturalNext(db, cls, cs[m], RootId(cs[m].id), Some(k))
  {
    var cs := NextChildren(db, k, after);
    var f := Depth(db) - 1;
    FirstFoundMeaning(db, cls, cs, k, f);
    if FirstFound(db, cls, cs, k, f).NotFound? {
      forall j | 0 <= j < |cs|
        ensures NextEnds(db, cls, cs[j], RootId(cs[j].id), Some(k)) && NaturalNext(db, cls, cs[j], RootId(cs[j].id), Some(k)).None?
      {
        ChildLifts(db, cls, cs[j], k, f);
      }
      assert false;
    }
    var m :| 0 <= m < |cs| && NextWithin(db, cls, cs[m], RootId(cs[m].id), Some(k), f) == FirstFound(db, cls, cs, k, f)
             && forall j :: 0 <= j < m ==> NextWithin(db, cls, cs[j], RootId(cs[j].id), Some(k), f).NotFound?;
    forall j | 0 <= j < m
      ensures NextEnds(db, cls, cs[j], RootId(cs[j].id), Some(k)) && NaturalNext(db, cls, cs[j], RootId(cs[j].id), Some(k)).None?
    {
      ChildLifts(db, cls, cs[j], k, f);
    }
    ChildLifts(db, cls, cs[m], k, f);
  }

  /**
   * When no child's search finds anything, the search stops at a root bound
   * naming `k` or at a node without a language, and otherwise answers what
   * the search from `k`'s language, coming from `k`, answers.
   */
  lemma StepClimbs(db: Db, cls: string, k: Key, root: Root, after: Option<Key>)
    requires NextEnds(db, cls, k, root, after) && !AnswersSelf(cls, k, after)
    requires NoneBefore(db, cls, NextChildren(db, k, after), k, |NextChildren(db, k, after)|)
    ensures Bounds(root, k) || LanguageStep(db, k).None? ==> NaturalNext(db, cls, k, root, after) == None
    ensures !Bounds(root, k) && LanguageStep(db, k).Some? ==>
              && NextEnds(db, cls, LanguageStep(db, k).value, root, Some(k))
              && NaturalNext(db, cls, k, root, after) == NaturalNext(db, cls, LanguageStep(db, k).value, root, Some(k))
  {
    var cs := NextChildren(db, k, after);
    var f := Depth(db) - 1;
    FirstFoundMeaning(db, cls, cs, k, f);
    if FirstFound(db, cls, cs, k, f).Found? {
      var m :| 0 <= m < |cs| && NextWithin(db, cls, cs[m], RootId(cs[m].id), Some(k), f) == FirstFound(db, cls, cs, k, f)
               && forall j :: 0 <= j < m ==> NextWithin(db, cls, cs[j], RootId(cs[j].id), Some(k), f).NotFound?;
      ChildLifts(db, cls, cs[m], k, f);
      assert false;
    }
    if !Bounds(root, k) && LanguageStep(db, k).Some? {
      WithinMono(db, cls, LanguageStep(db, k).value, root, Some(k), f, Depth(db));
    }
  }

  /**
   * One step of `naturalNext`, for every input on which it finishes: the
   * node itself when reached from another ID and admitted by the filter;
   * otherwise the first child (in listing order) whose own search finds
   * something; otherwise nothing at a root bound naming `k` or a node
   * without a language; otherwise the answer of the climb to the language.
   */
  lemma NaturalNextStep(db: Db, cls: string, k: Key, root: Root, after: Option<Key>)
    requires NextEnds(db, cls, k, root, after)
    ensures AnswersSelf(cls, k, after) ==> NaturalNext(db, cls, k, root, after) == Some(k)
    ensures var cs := NextChildren(db, k, after);
            !AnswersSelf(cls, k, after) && !NoneBefore(db, cls, cs, k, |cs|) ==>
              exists m :: 0 <= m < |cs| && NoneBefore(db, cls, cs, k, m)
                && NextEnds(db, cls, cs[m], RootId(cs[m].id), Some(k))
                && NaturalNext(db, cls, cs[m], RootId(cs[m].id), Some(k)).Some?
                && NaturalNext(db, cls, k, root, after) == NaturalNext(db, cls, cs[m], RootId(cs[m].id), Some(k))
    ensures var cs := NextChildren(db, k, after);
            !AnswersSelf(cls, k, after) && NoneBefore(db, cls, cs, k, |cs|) && (Bounds(root, k) || LanguageStep(db, k).None?) ==>
              NaturalNext(db, cls, k, root, after) == None
    ensures var cs := NextChildren(db, k, after);
            !AnswersSelf(cls, k, after) && NoneBefore(db, cls, cs, k, |cs|) && !Bounds(root, k) && LanguageStep(db, k).Some? ==>
              && NextEnds(db, cls, LanguageStep(db, k).value, root, Some(k))
              && NaturalNext(db, cls, k, root, after) == NaturalNext(db, cls, LanguageStep(db, k).value, root, Some(k))
  {
    var cs := NextChildren(db, k, after);
    if !AnswersSelf(cls, k, after) {
      if NoneBefore(db, cls, cs, k, |cs|) {
        StepClimbs(db, cls, k, root, after);
      } else {
        StepDescends(db, cls, k, root, after);
      }
    }
  }

  /**
   * Started on `k` with no previous node, the search answers the first row
   * below `k` (same class, `LanguageID` = `k`'s ID) when the filter admits
   * `k`'s class and that row has another ID; that row has the lowest Sort
   * when the store lists its rows in ascending Sort.
   */
  lemma FirstChildFound(db: Db, cls: string, k: Key, root: Root)
    requires NextChildren(db, k, None) != []
    requires NextChildren(db, k, None)[0].id != k.id
    requires ClassOk(cls, k.kind)
    ensures NextEnds(db, cls, k, root, None)
    ensures NaturalNext(db, cls, k, root, None) == Some(NextChildren(db, k, None)[0])
    ensures SortedBySort(db) ==>
              forall c :: c in NextChildren(db, k, None) ==> Record(db, NextChildren(db, k, None)[0]).sort <= Record(db, c).sort
  {
    var cs := NextChildren(db, k, None);
    var c := cs[0];
    assert c in cs;
    assert c.kind == k.kind;
    var f := Depth(db) - 1;
    assert NextWithin(db, cls, c, RootId(c.id), Some(k), f) == Found(c);
    assert FirstFound(db, cls, cs, k, f) == Found(c);
    if SortedBySort(db) {
      SelectSorted(db, NextUnder(k.kind, k.id, None));
      forall x | x in cs ensures Record(db, c).sort <= Record(db, x).sort {
        var n :| 0 <= n < |cs| && cs[n] == x;
      }
    }
  }

  /**
   * With no child to descend into and the root bound not naming `k`, the
   * search climbs to `k`'s language and answers that language itself when
   * it has another ID and the filter admits languages.
   */
  lemma AscentFindsParent(db: Db, cls: string, k: Key, root: Root, p: Key)
    requires NextChildren(db, k, None) == []
    requires !Bounds(root, k)
    requires LanguageStep(db, k) == Some(p) && p.id != k.id
    requires ClassOk(cls, Language)
    ensures NextEnds(db, cls, k, root, None)
    ensures NaturalNext(db, cls, k, root, None) == Some(p)
  {
    var f := Depth(db) - 1;
    assert p.kind == Language;
    assert NextWithin(db, cls, p, root, Some(k), f) == Found(p);
    assert FirstFound(db, cls, [], k, f) == NotFound;
  }

  /** `c` is a row of `k`'s class whose `LanguageID` is `k`'s ID. */
  predicate IdLink(db: Db, k: Key, c: Key) {
    c.kind == k.kind && c in db.nodes && db.nodes[c].languageID == k.id
  }

  /** `path` runs down such links, each entry linked below the one before. */
  ghost predicate IdPath(db: Db, path: seq<Key>) {
    && |path| >= 1
    && forall i, j :: 0 <= i && j == i + 1 && j < |path| ==> IdLink(db, path[i], path[j])
  }

  /** A link above the start of a path extends it. */
  lemma PathCons(db: Db, k: Key, tail: seq<Key>)
    requires IdPath(db, tail) && IdLink(db, k, tail[0])
    ensures IdPath(db, [k] + tail)
  {
    var path := [k] + tail;
    forall i, j | 0 <= i && j == i + 1 && j < |path|
      ensures IdLink(db, path[i], path[j])
    {
      if i > 0 {
        assert path[i] == tail[i - 1] && path[j] == tail[j - 1];
      }
    }
  }

  /**
   * When the root bound names `k`, the search never climbs: what it finds is
   * `k` itself or lies at the end of a `LanguageID` path down from `k`.
   */
  lemma {:induction false} BoundedStaysBelow(db: Db, cls: string, k: Key, root: Root, after: Option<Key>, fuel: nat)
    returns (path: seq<Key>)
    requires Bounds(root, k)
    requires NextWithin(db, cls, k, root, after, fuel).Found?
    ensures IdPath(db, path) && path[0] == k && path[|path| - 1] == NextWithin(db, cls, k, root, after, fuel).node
    decreases fuel, 0
  {
    if AnswersSelf(cls, k, after) {
      path := [k];
    } else {
      var cs := NextChildren(db, k, after);
      var c, tail := FirstStaysBelow(db, cls, cs, k, fuel - 1);
      assert IdLink(db, k, c);
      PathCons(db, k, tail);
      path := [k] + tail;
    }
  }

  lemma {:induction false} FirstStaysBelow(db: Db, cls: string, cs: seq<Key>, k: Key, fuel: nat)
    returns (c: Key, path: seq<Key>)
    requires forall c :: c in cs ==> c in db.nodes
    requires FirstFound(db, cls, cs, k, fuel).Found?
    ensures c in cs && IdPath(db, path) && path[0] == c && path[|path| - 1] == FirstFound(db, cls, cs, k, fuel).node
    decreases fuel, 1, |cs|
  {
    if NextWithin(db, cls, cs[0], RootId(cs[0].id), Some(k), fuel).Found? {
      c := cs[0];
      path := BoundedStaysBelow(db, cls, cs[0], RootId(cs[0].id), Some(k), fuel);
    } else {
      c, path := FirstStaysBelow(db, cls, cs[1..], k, fuel);
    }
  }

  /** Every node on such a path has the class of its start. */
  lemma {:induction false} PathKeepsKind(db: Db, path: seq<Key>, i: nat)
    requires IdPath(db, path) && i < |path|
    ensures path[i].kind == path[0].kind
  {
    if i > 0 {
      PathKeepsKind(db, path, i - 1);
      assert IdLink(db, path[i - 1], path[i]);
    }
  }

  /**
   * Hence a search bounded at `k` for another class finds nothing: the rows
   * below `k` all have `k`'s class.
   */
  lemma BoundedOtherClassNotFound(db: Db, cls: string, k: Key, root: Root, after: Option<Key>)
    requires Bounds(root, k) && !ClassOk(cls, k.kind)
    requires NextEnds(db, cls, k, root, after)
    ensures NaturalNext(db, cls, k, root, after) == None
  {
    if NextWithin(db, cls, k, root, after, Depth(db)).Found? {
      var path := BoundedStaysBelow(db, cls, k, root, after, Depth(db));
      PathKeepsKind(db, path, |path| - 1);
    }
  }

  /** `naturalPrev`: not implemented, it finds nothing. */
  function NaturalPrev(db: Db, cls: string, k: Key, after: Option<Key>): (r: Option<Key>)
    ensures r == None
  {
    None
  }
}
