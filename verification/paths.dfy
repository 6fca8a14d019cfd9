/**
 * Path utilities: `getAncestors` and `getBreadcrumbs`, which follow only the
 * `Language()` relation, and `parentStack`, which prefers the enclosing
 * folder.
 */
module Paths {
  import opened Wrappers
  import opened Store

  /**
   * `s` is the whole `Language()` chain above `k`, nearest first: each entry
   * is the language of the one before, and the last has no language.
   */
  ghost predicate IsLanguageChain(db: Db, k: Key, s: seq<Key>) {
    && (if s == [] then LanguageStep(db, k) == None
        else LanguageStep(db, k) == Some(s[0]) && LanguageStep(db, s[|s| - 1]) == None)
    && forall i :: 0 <= i < |s| - 1 ==> LanguageStep(db, s[i]) == Some(s[i + 1])
  }

  /** The `Language()` chain above `k` if it ends within `fuel` hops. */
  function AncestorsWithin(db: Db, k: Key, fuel: nat): Option<seq<Key>>
    decreases fuel
  {
    match LanguageStep(db, k)
    case None => Some([])
    case Some(p) =>
      if fuel == 0 then None
      else match AncestorsWithin(db, p, fuel - 1)
        case None => None
        case Some(s) => Some([p] + s)
  }

  /** The `Language()` chain above `k` ends (it cannot be longer than the store). */
  predicate AncestorsEnd(db: Db, k: Key) {
    AncestorsWithin(db, k, |db.nodes|).Some?
  }

  lemma {:induction false} WithinIsChain(db: Db, k: Key, fuel: nat)
    requires AncestorsWithin(db, k, fuel).Some?
    ensures IsLanguageChain(db, k, AncestorsWithin(db, k, fuel).value)
    ensures |AncestorsWithin(db, k, fuel).value| <= fuel
    decreases fuel
  {
    match LanguageStep(db, k)
    case None =>
    case Some(p) =>
      WithinIsChain(db, p, fuel - 1);
  }

  /** `getAncestors`: the `Language()` chain above the node, nearest first. */
  function GetAncestors(db: Db, k: Key): (r: seq<Key>)
    requires AncestorsEnd(db, k)
    ensures IsLanguageChain(db, k, r)
  {
    WithinIsChain(db, k, |db.nodes|);
    AncestorsWithin(db, k, |db.nodes|).value
  }

  /** A node has at most one `Language()` chain. */
  lemma {:induction false} ChainUnique(db: Db, k: Key, s: seq<Key>, t: seq<Key>)
    requires IsLanguageChain(db, k, s) && IsLanguageChain(db, k, t)
    ensures s == t
    decreases |s|
  {
    if s != [] {
      assert t != [] && t[0] == s[0];
      ChainSuffix(db, k, s, 0);
      ChainSuffix(db, k, t, 0);
      ChainUnique(db, s[0], s[1..], t[1..]);
      assert s == [s[0]] + s[1..] && t == [t[0]] + t[1..];
    }
  }

  /** Past its `i`-th entry, a chain is the chain of that entry. */
  lemma ChainSuffix(db: Db, k: Key, s: seq<Key>, i: nat)
    requires IsLanguageChain(db, k, s) && i < |s|
    ensures IsLanguageChain(db, s[i], s[i + 1..])
  {
  }

  /** The chain above a node never contains the node itself. */
  lemma ChainExcludesSelf(db: Db, k: Key, s: seq<Key>)
    requires IsLanguageChain(db, k, s)
    ensures k !in s
  {
    if k in s {
      var i :| 0 <= i < |s| && s[i] == k;
      ChainSuffix(db, k, s, i);
      ChainUnique(db, k, s, s[i + 1..]);
      assert false;
    }
  }

  /** `getAncestors` starts at the node's language, and excludes the node. */
  lemma AncestorsStep(db: Db, k: Key)
    requires AncestorsEnd(db, k)
    ensures k !in GetAncestors(db, k)
    ensures LanguageStep(db, k).None? ==> GetAncestors(db, k) == []
    ensures LanguageStep(db, k).Some? ==>
              var p := LanguageStep(db, k).value;
              AncestorsEnd(db, p) && GetAncestors(db, k) == [p] + GetAncestors(db, p)
  {
    var s := GetAncestors(db, k);
    ChainExcludesSelf(db, k, s);
    if LanguageStep(db, k).Some? {
      var p := LanguageStep(db, k).value;
      ChainSuffix(db, k, s, 0);
      WithinIsChain(db, k, |db.nodes|);
      ChainMeetsFuel(db, p, s[1..], |db.nodes|);
      ChainUnique(db, p, s[1..], GetAncestors(db, p));
      assert s == [s[0]] + s[1..];
    }
  }

  /** A chain that is a strict suffix of a chain within the store fits in the fuel of the store. */
  lemma ChainMeetsFuel(db: Db, p: Key, s: seq<Key>, fuel: nat)
    requires IsLanguageChain(db, p, s) && |s| <= fuel
    ensures AncestorsWithin(db, p, fuel) == Some(s)
    decreases fuel
  {
    if s != [] {
      ChainSuffix(db, p, s, 0);
      ChainMeetsFuel(db, s[0], s[1..], fuel - 1);
      assert s == [s[0]] + s[1..];
    }
  }

  /** `implode`: the strings with the separator between neighbours. */
  function Join(parts: seq<string>, sep: string): string {
    if parts == [] then ""
    else if |parts| == 1 then parts[0]
    else parts[0] + sep + Join(parts[1..], sep)
  }

  lemma {:induction false} JoinSnoc(parts: seq<string>, x: string, sep: string)
    requires parts != []
    ensures Join(parts + [x], sep) == Join(parts, sep) + sep + x
    decreases |parts|
  {
    if |parts| == 1 {
      assert (parts + [x])[1..] == [x];
    } else {
      assert (parts + [x])[1..] == parts[1..] + [x];
      JoinSnoc(parts[1..], x, sep);
    }
  }

  /** The titles along the path from the top ancestor down to `k`. */
  function Crumbs(db: Db, k: Key): (r: seq<string>)
    requires AncestorsEnd(db, k)
    ensures var a := GetAncestors(db, k);
            && |r| == |a| + 1
            && r[|a|] == Title(db, k)
            && forall i :: 0 <= i < |a| ==> r[i] == Title(db, a[|a| - 1 - i])
  {
    var a := GetAncestors(db, k);
    (seq(|a|, i requires 0 <= i < |a| => Title(db, a[|a| - 1 - i]))) + [Title(db, k)]
  }

  /** `getBreadcrumbs`: the ancestors' titles, top first, then the node's own, joined by the separator. */
  function GetBreadcrumbs(db: Db, k: Key, sep: string): string
    requires AncestorsEnd(db, k)
  {
    Join(Crumbs(db, k), sep)
  }

  /**
   * A node with no language reads as its own title; otherwise its
   * breadcrumbs are its language's breadcrumbs, the separator and its title.
   */
  lemma BreadcrumbsStep(db: Db, k: Key, sep: string)
    requires AncestorsEnd(db, k)
    ensures LanguageStep(db, k).None? ==> GetBreadcrumbs(db, k, sep) == Title(db, k)
    ensures LanguageStep(db, k).Some? ==>
              var p := LanguageStep(db, k).value;
              AncestorsEnd(db, p) && GetBreadcrumbs(db, k, sep) == GetBreadcrumbs(db, p, sep) + sep + Title(db, k)
  {
    AncestorsStep(db, k);
    if LanguageStep(db, k).Some? {
      var p := LanguageStep(db, k).value;
      var ck, cp := Crumbs(db, k), Crumbs(db, p);
      assert ck == cp + [Title(db, k)];
      JoinSnoc(cp, Title(db, k), sep);
    } else {
      assert Crumbs(db, k) == [Title(db, k)];
    }
  }

  /** One `parentStack` hop: up to a node, off the top, or stuck on a dangling folder. */
  datatype Hop = Up(to: Key) | Top | Stuck

  /**
   * The next node of `parentStack`: the folder when FolderID > 0 (a dangling
   * folder leaves the walk where it is), otherwise the language, if any.
   */
  function ParentHop(db: Db, k: Key): (h: Hop)
    ensures h.Up? ==> h.to in db.nodes
  {
    var n := Record(db, k);
    if n.folderID > 0 then
      (match FolderOf(db, n) case Some(f) => Up(f) case None => Stuck)
    else
      (match LanguageOf(db, n) case Some(p) => Up(p) case None => Top)
  }

  /** The stack from `k` upwards if the walk leaves the top within `fuel` hops. */
  function StackWithin(db: Db, k: Key, fuel: nat): Option<seq<Key>>
    decreases fuel
  {
    match ParentHop(db, k)
    case Top => Some([k])
    case Stuck => None
    case Up(p) =>
      if fuel == 0 then None
      else match StackWithin(db, p, fuel - 1)
        case None => None
        case Some(s) => Some([k] + s)
  }

  /** The `parentStack` walk from `k` ends: no dangling folder, no cycle. */
  predicate StackEnds(db: Db, k: Key) {
    StackWithin(db, k, |db.nodes|).Some?
  }

  lemma {:induction false} StackWithinShape(db: Db, k: Key, fuel: nat)
    requires StackWithin(db, k, fuel).Some?
    ensures var s := StackWithin(db, k, fuel).value;
            && |s| >= 1 && s[0] == k
            && ParentHop(db, s[|s| - 1]) == Top
            && forall i :: 0 <= i < |s| - 1 ==> ParentHop(db, s[i]) == Up(s[i + 1])
    decreases fuel
  {
    match ParentHop(db, k)
    case Top =>
    case Up(p) =>
      StackWithinShape(db, p, fuel - 1);
  }

  /**
   * `parentStack`: the node itself, then each next node up: the folder
   * whenever FolderID > 0, else the language; it ends at a node with neither.
   */
  function ParentStack(db: Db, k: Key): (r: seq<Key>)
    requires StackEnds(db, k)
    ensures |r| >= 1 && r[0] == k
    ensures forall i :: 0 <= i < |r| - 1 ==>
              var n := Record(db, r[i]);
              r[i + 1] == (if n.folderID > 0 then Key(Folder, n.folderID) else Key(Language, n.languageID))
    ensures forall i :: 0 <= i < |r| ==> r[i] == k || r[i] in db.nodes
    ensures var n := Record(db, r[|r| - 1]); n.folderID == 0 && LanguageOf(db, n) == None
  {
    StackWithinShape(db, k, |db.nodes|);
    var s := StackWithin(db, k, |db.nodes|).value;
    forall i | 0 < i < |s|
      ensures s[i] in db.nodes
    {
      assert ParentHop(db, s[i - 1]) == Up(s[i]);
    }
    s
  }
}
