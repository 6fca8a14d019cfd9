/**
 * The mark state: the three flag tables (`marked`, `expanded`,
 * `treeOpened`) keyed by base class and ID, threaded explicitly instead of
 * held in static arrays.
 */
module Marks {
  import opened Store

  datatype MarkState = MarkState(marked: map<Key, bool>, expanded: map<Key, bool>, treeOpened: map<Key, bool>)

  /** All three tables empty: the state after `reset` or `flushCache`. */
  const Cleared := MarkState(map[], map[], map[])

  /** A table entry; an unset key reads false. */
  function Flag(m: map<Key, bool>, k: Key): bool {
    k in m && m[k]
  }

  predicate IsMarked(s: MarkState, k: Key) { Flag(s.marked, k) }
  predicate IsExpanded(s: MarkState, k: Key) { Flag(s.expanded, k) }
  predicate IsTreeOpened(s: MarkState, k: Key) { Flag(s.treeOpened, k) }

  /** `k` reads the same three flags in both states. */
  predicate SameFlags(s: MarkState, t: MarkState, k: Key) {
    && IsMarked(s, k) == IsMarked(t, k)
    && IsExpanded(s, k) == IsExpanded(t, k)
    && IsTreeOpened(s, k) == IsTreeOpened(t, k)
  }

  /** `markExpanded`: marks `k` and sets its expanded flag; no other key is touched. */
  function MarkExpanded(s: MarkState, k: Key): (r: MarkState)
    ensures IsMarked(r, k) && IsExpanded(r, k)
    ensures IsTreeOpened(r, k) == IsTreeOpened(s, k)
    ensures forall j :: j != k ==> SameFlags(s, r, j)
    ensures r.treeOpened == s.treeOpened
  {
    s.(marked := s.marked[k := true], expanded := s.expanded[k := true])
  }

  /** `markUnexpanded`: marks `k` and clears its expanded flag; no other key is touched. */
  function MarkUnexpanded(s: MarkState, k: Key): (r: MarkState)
    ensures IsMarked(r, k) && !IsExpanded(r, k)
    ensures IsTreeOpened(r, k) == IsTreeOpened(s, k)
    ensures forall j :: j != k ==> SameFlags(s, r, j)
    ensures r.treeOpened == s.treeOpened
  {
    s.(marked := s.marked[k := true], expanded := s.expanded[k := false])
  }

  /** `markOpened`: marks `k` and sets its tree-opened flag, leaving expanded alone. */
  function MarkOpened(s: MarkState, k: Key): (r: MarkState)
    ensures IsMarked(r, k) && IsTreeOpened(r, k)
    ensures IsExpanded(r, k) == IsExpanded(s, k)
    ensures forall j :: j != k ==> SameFlags(s, r, j)
  {
    s.(marked := s.marked[k := true], treeOpened := s.treeOpened[k := true])
  }

  /** Nothing reads as marked, expanded or opened once the tables are cleared. */
  lemma ClearedReadsFalse(k: Key)
    ensures !IsMarked(Cleared, k) && !IsExpanded(Cleared, k) && !IsTreeOpened(Cleared, k)
  {
  }

  /**
   * `markingClasses`, as its list of CSS classes: "unexpanded jstree-closed"
   * for a node not expanded, then "jstree-open" for an opened node with
   * children or "closed" for a node not opened.
   */
  function MarkingClassList(s: MarkState, k: Key, numChildren: nat): (r: seq<string>)
    ensures "unexpanded" in r <==> !IsExpanded(s, k)
    ensures "jstree-closed" in r <==> !IsExpanded(s, k)
    ensures "jstree-open" in r <==> IsTreeOpened(s, k) && numChildren > 0
    ensures "closed" in r <==> !IsTreeOpened(s, k)
    ensures |r| <= 3
  {
    (if !IsExpanded(s, k) then ["unexpanded", "jstree-closed"] else [])
    + (if IsTreeOpened(s, k) then (if numChildren > 0 then ["jstree-open"] else []) else ["closed"])
  }

  /** The class attribute text: each class preceded by a space. */
  function Spaced(classes: seq<string>): string {
    if classes == [] then "" else " " + classes[0] + Spaced(classes[1..])
  }

  /** `markingClasses`: the class list as the source renders it. */
  function MarkingClasses(s: MarkState, k: Key, numChildren: nat): string {
    Spaced(MarkingClassList(s, k, numChildren))
  }
}
