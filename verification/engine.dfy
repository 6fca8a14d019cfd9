/**
 * The marking engine: the state of one hierarchy instance (its marked-node
 * queue, its marking filter, its cached child count) together with the
 * shared flag tables, and the operations that mark a partial tree.
 */
module Engine {
  import opened Wrappers
  import opened Seqs
  import opened Store
  import opened Children
  import opened Marks
  import opened Filtering
  import Paths

  /**
   * `markedNodes` is an ordered map from the `ClassName_ID` key to the node;
   * since the key determines the node, it is kept as the keys in
   * first-insertion order.
   */
  datatype Hierarchy = Hierarchy(flags: MarkState, markedNodes: seq<Key>, markingFilter: Filter, countCache: CountCache)

  /** The marking filter lets `c` through. */
  predicate Passes(db: Db, filter: Filter, c: Key) {
    FilterMatches(filter, c, Record(db, c))
  }

  /** `c` is a child of `k` that the filter lets through. */
  predicate PassingChild(db: Db, filter: Filter, k: Key, c: Key) {
    c in StageChildren(db, k) && Passes(db, filter, c)
  }

  /**
   * `$markedNodes[$key] = $node`: a new key goes to the end; an existing key
   * keeps its first-insertion position.
   */
  function Insert(q: seq<Key>, k: Key): (r: seq<Key>)
    ensures forall x :: x in r <==> x in q || x == k
    ensures |q| <= |r| && r[..|q|] == q
    ensures k in q ==> r == q
    ensures Distinct(q) ==> Distinct(r)
  {
    if k in q then q else q + [k]
  }

  /** `setMarkingFilter`: attribute filter; replaces any earlier filter. */
  function SetMarkingFilter(h: Hierarchy, name: string, expected: Expected): (r: Hierarchy)
    ensures r.markingFilter == ParamFilter(name, expected)
    ensures r.flags == h.flags && r.markedNodes == h.markedNodes
  {
    h.(markingFilter := ParamFilter(name, expected))
  }

  /** `setMarkingFilterFunction`: predicate filter; replaces any earlier filter. */
  function SetMarkingFilterFunction(h: Hierarchy, f: (Key, Node) -> bool): (r: Hierarchy)
    ensures r.markingFilter == FuncFilter(f)
    ensures r.flags == h.flags && r.markedNodes == h.markedNodes
  {
    h.(markingFilter := FuncFilter(f))
  }

  /** Whichever filter was set last decides. */
  lemma LastFilterWins(h: Hierarchy, name: string, expected: Expected, f: (Key, Node) -> bool, db: Db, c: Key)
    ensures Passes(db, SetMarkingFilterFunction(SetMarkingFilter(h, name, expected), f).markingFilter, c) == f(c, Record(db, c))
    ensures Passes(db, SetMarkingFilter(SetMarkingFilterFunction(h, f), name, expected).markingFilter, c)
            == FilterMatches(ParamFilter(name, expected), c, Record(db, c))
  {
  }

  /** The flags a passing child gets: expanded exactly when it has no children. */
  function MarkChild(db: Db, s: MarkState, c: Key): MarkState {
    if NumChildren(db, c) != 0 then MarkUnexpanded(s, c) else MarkExpanded(s, c)
  }

  /** The child loop of `markChildren`, over `cs` in order. */
  function MarkEach(db: Db, h: Hierarchy, cs: seq<Key>): (r: Hierarchy)
    ensures r.markingFilter == h.markingFilter && r.countCache == h.countCache
    ensures |h.markedNodes| <= |r.markedNodes|
    decreases |cs|
  {
    if cs == [] then h
    else
      var c := cs[0];
      var h' :=
        if Passes(db, h.markingFilter, c)
        then h.(flags := MarkChild(db, h.flags, c), markedNodes := Insert(h.markedNodes, c))
        else h;
      MarkEach(db, h', cs[1..])
  }

  /**
   * The child loop appends each child in `cs` that the filter lets through,
   * unless already queued, and keeps the queue free of duplicates.
   */
  lemma {:induction false} MarkEachQueue(db: Db, h: Hierarchy, cs: seq<Key>)
    ensures var r := MarkEach(db, h, cs);
            && r.markedNodes[..|h.markedNodes|] == h.markedNodes
            && (Distinct(h.markedNodes) ==> Distinct(r.markedNodes))
            && (forall x :: x in r.markedNodes <==> x in h.markedNodes || (x in cs && Passes(db, h.markingFilter, x)))
    decreases |cs|
  {
    if cs != [] {
      var c := cs[0];
      var h' :=
        if Passes(db, h.markingFilter, c)
        then h.(flags := MarkChild(db, h.flags, c), markedNodes := Insert(h.markedNodes, c))
        else h;
      MarkEachQueue(db, h', cs[1..]);
      var r := MarkEach(db, h', cs[1..]);
      assert r == MarkEach(db, h, cs);
      assert forall x :: x in cs <==> x == c || x in cs[1..];
      assert r.markedNodes[..|h.markedNodes|] == r.markedNodes[..|h'.markedNodes|][..|h.markedNodes|];
    }
  }

  /**
   * The child loop appends in the order of `cs`: the `m`-th key it appends
   * is `cs[idx[m]]`, and the positions increase.
   */
  lemma {:induction false} MarkEachOrder(db: Db, h: Hierarchy, cs: seq<Key>) returns (idx: seq<nat>)
    ensures IndexMap(cs, MarkEach(db, h, cs).markedNodes[|h.markedNodes|..], idx)
    decreases |cs|
  {
    if cs == [] {
      idx := [];
    } else {
      var c := cs[0];
      var h' :=
        if Passes(db, h.markingFilter, c)
        then h.(flags := MarkChild(db, h.flags, c), markedNodes := Insert(h.markedNodes, c))
        else h;
      var r := MarkEach(db, h', cs[1..]);
      assert r == MarkEach(db, h, cs);
      var sub := MarkEachOrder(db, h', cs[1..]);
      var later := r.markedNodes[|h'.markedNodes|..];
      idx := IndexShift(cs, later, sub);
      if Passes(db, h.markingFilter, c) && c !in h.markedNodes {
        MarkEachPrefix(db, h', cs[1..]);
        AppendedFirst(h.markedNodes, r.markedNodes, c);
        idx := IndexCons(cs, later, idx);
      } else {
        assert h'.markedNodes == h.markedNodes;
      }
    }
  }

  /** The child loop keeps the queue it was given as a prefix. */
  lemma MarkEachPrefix(db: Db, h: Hierarchy, cs: seq<Key>)
    ensures |h.markedNodes| <= |MarkEach(db, h, cs).markedNodes|
    ensures MarkEach(db, h, cs).markedNodes[..|h.markedNodes|] == h.markedNodes
  {
    MarkEachQueue(db, h, cs);
  }

  /** A queue extending `q + [c]` appends `c` first after `q`. */
  lemma AppendedFirst(q: seq<Key>, r: seq<Key>, c: Key)
    requires |q + [c]| <= |r| && r[..|q + [c]|] == q + [c]
    ensures r[|q|..] == [c] + r[|q| + 1..]
  {
    assert r[|q|] == (q + [c])[|q|];
  }

  /**
   * The child loop marks each child in `cs` that the filter lets through
   * (expanded exactly when it has no children); no other key's flags
   * change, and no mark or opened flag is ever cleared.
   */
  lemma {:induction false} MarkEachFlags(db: Db, h: Hierarchy, cs: seq<Key>)
    ensures var r := MarkEach(db, h, cs);
            && (forall c :: c in cs && Passes(db, h.markingFilter, c) ==>
                  IsMarked(r.flags, c) && (IsExpanded(r.flags, c) <==> NumChildren(db, c) == 0))
            && (forall x :: !(x in cs && Passes(db, h.markingFilter, x)) ==> SameFlags(h.flags, r.flags, x))
            && (forall x :: IsMarked(h.flags, x) ==> IsMarked(r.flags, x))
            && r.flags.treeOpened == h.flags.treeOpened
    decreases |cs|
  {
    if cs != [] {
      var c := cs[0];
      var h' :=
        if Passes(db, h.markingFilter, c)
        then h.(flags := MarkChild(db, h.flags, c), markedNodes := Insert(h.markedNodes, c))
        else h;
      MarkEachFlags(db, h', cs[1..]);
      assert MarkEach(db, h', cs[1..]) == MarkEach(db, h, cs);
      assert forall x :: x in cs <==> x == c || x in cs[1..];
    }
  }

  /** `markChildren`: expand `k`, then run the child loop over its children. */
  function MarkChildren(db: Db, h: Hierarchy, k: Key): (r: Hierarchy)
    ensures r.markingFilter == h.markingFilter && r.countCache == h.countCache
    ensures |h.markedNodes| <= |r.markedNodes|
  {
    MarkEach(db, h.(flags := MarkExpanded(h.flags, k)), StageChildren(db, k))
  }

  /**
   * `markChildren` appends each child of `k` the filter lets through to
   * `markedNodes`, unless already there, and nothing else.
   */
  lemma MarkChildrenQueue(db: Db, h: Hierarchy, k: Key)
    ensures var r := MarkChildren(db, h, k);
            && r.markedNodes[..|h.markedNodes|] == h.markedNodes
            && (Distinct(h.markedNodes) ==> Distinct(r.markedNodes))
            && (forall x :: x in r.markedNodes <==> x in h.markedNodes || PassingChild(db, h.markingFilter, k, x))
  {
    MarkEachQueue(db, h.(flags := MarkExpanded(h.flags, k)), StageChildren(db, k));
  }

  /** `markChildren` appends the children of `k` in `stageChildren` order. */
  lemma MarkChildrenOrder(db: Db, h: Hierarchy, k: Key) returns (idx: seq<nat>)
    ensures IndexMap(StageChildren(db, k), MarkChildren(db, h, k).markedNodes[|h.markedNodes|..], idx)
  {
    idx := MarkEachOrder(db, h.(flags := MarkExpanded(h.flags, k)), StageChildren(db, k));
  }

  /**
   * `markChildren`: `k` becomes marked and expanded (unless it is its own
   * passing child); each child the filter lets through is marked, expanded
   * exactly when it has no children, overwriting any earlier flag; children
   * the filter rejects are not touched; no other key's flags change.
   */
  lemma MarkChildrenFlags(db: Db, h: Hierarchy, k: Key)
    ensures var r := MarkChildren(db, h, k);
            && IsMarked(r.flags, k)
            && (!PassingChild(db, h.markingFilter, k, k) ==> IsExpanded(r.flags, k))
            && (forall c :: PassingChild(db, h.markingFilter, k, c) ==>
                  IsMarked(r.flags, c) && (IsExpanded(r.flags, c) <==> NumChildren(db, c) == 0))
            && (forall x :: x != k && !PassingChild(db, h.markingFilter, k, x) ==> SameFlags(h.flags, r.flags, x))
            && (forall x :: IsMarked(h.flags, x) ==> IsMarked(r.flags, x))
            && r.flags.treeOpened == h.flags.treeOpened
  {
    var h1 := h.(flags := MarkExpanded(h.flags, k));
    var cs := StageChildren(db, k);
    var r := MarkEach(db, h1, cs);
    MarkEachFlags(db, h1, cs);
    forall x | x != k && !PassingChild(db, h.markingFilter, k, x)
      ensures SameFlags(h.flags, r.flags, x)
    {
      assert SameFlags(h.flags, h1.flags, x) && SameFlags(h1.flags, r.flags, x);
    }
    forall x | IsMarked(h.flags, x) ensures IsMarked(r.flags, x) {
      assert IsMarked(h1.flags, x);
    }
    if !PassingChild(db, h.markingFilter, k, k) {
      assert SameFlags(h1.flags, r.flags, k);
    }
  }

  /**
   * `markById`: when `kind_id` is in `markedNodes`, mark its children and,
   * if asked, open it; report whether it was there. A missing class name
   * never names a key.
   */
  function MarkById(db: Db, h: Hierarchy, id: nat, open: bool, kind: Option<Kind>): (r: (bool, Hierarchy))
    ensures r.0 <==> kind.Some? && Key(kind.value, id) in h.markedNodes
    ensures !r.0 ==> r.1 == h
    ensures r.0 ==> r.1.markingFilter == h.markingFilter
    ensures r.0 && open ==> IsMarked(r.1.flags, Key(kind.value, id)) && IsTreeOpened(r.1.flags, Key(kind.value, id))
    ensures r.0 ==> forall x :: x in r.1.markedNodes <==> x in h.markedNodes || PassingChild(db, h.markingFilter, Key(kind.value, id), x)
    ensures Distinct(h.markedNodes) ==> Distinct(r.1.markedNodes)
    ensures forall x :: IsMarked(h.flags, x) ==> IsMarked(r.1.flags, x)
    ensures forall x :: IsTreeOpened(h.flags, x) ==> IsTreeOpened(r.1.flags, x)
  {
    if kind.Some? && Key(kind.value, id) in h.markedNodes then
      var k := Key(kind.value, id);
      var h' := MarkChildren(db, h, k);
      MarkChildrenQueue(db, h, k);
      MarkChildrenFlags(db, h, k);
      (true, if open then h'.(flags := MarkOpened(h'.flags, k)) else h')
    else (false, h)
  }

  /** The loop of `markToExpose`: `markById(open = true)` on each stack item in order. */
  function ExposeEach(db: Db, h: Hierarchy, stack: seq<Key>): (r: Hierarchy)
    ensures r.markingFilter == h.markingFilter
    ensures forall x :: x in h.markedNodes ==> x in r.markedNodes
    ensures Distinct(h.markedNodes) ==> Distinct(r.markedNodes)
    ensures forall x :: IsMarked(h.flags, x) ==> IsMarked(r.flags, x)
    ensures forall x :: IsTreeOpened(h.flags, x) ==> IsTreeOpened(r.flags, x)
    decreases |stack|
  {
    if stack == [] then h
    else ExposeEach(db, MarkById(db, h, stack[0].id, true, Some(stack[0].kind)).1, stack[1..])
  }

  /** The stack reversed: root first. */
  function Reverse(s: seq<Key>): (r: seq<Key>)
    ensures |r| == |s| && forall i :: 0 <= i < |s| ==> r[i] == s[|s| - 1 - i]
  {
    if s == [] then [] else Reverse(s[1..]) + [s[0]]
  }

  /**
   * `markToExpose`: walk the target's `parentStack` from the top down,
   * marking and opening each item found in `markedNodes`. A non-object
   * argument (here `None`) does nothing.
   */
  function MarkToExpose(db: Db, h: Hierarchy, target: Option<Key>): (r: Hierarchy)
    requires target.Some? ==> Paths.StackEnds(db, target.value)
    ensures target.None? ==> r == h
    ensures Distinct(h.markedNodes) ==> Distinct(r.markedNodes)
    ensures forall x :: IsMarked(h.flags, x) ==> IsMarked(r.flags, x)
  {
    match target
    case None => h
    case Some(t) => ExposeEach(db, h, Reverse(Paths.ParentStack(db, t)))
  }

  /** Each item after the first is a child of the one before that the filter lets through. */
  predicate Linked(db: Db, filter: Filter, stack: seq<Key>) {
    forall i :: 0 <= i < |stack| - 1 ==> PassingChild(db, filter, stack[i], stack[i + 1])
  }

  /**
   * When the first stack item is already in `markedNodes` and each next item
   * is a passing child of the one before, every item ends marked and opened.
   */
  lemma {:induction false} ExposeMarksPath(db: Db, h: Hierarchy, stack: seq<Key>)
    requires stack != [] && stack[0] in h.markedNodes
    requires Linked(db, h.markingFilter, stack)
    ensures forall x :: x in stack ==> IsMarked(ExposeEach(db, h, stack).flags, x) && IsTreeOpened(ExposeEach(db, h, stack).flags, x)
    decreases |stack|
  {
    var k := stack[0];
    var h1 := MarkById(db, h, k.id, true, Some(k.kind)).1;
    assert IsMarked(h1.flags, k) && IsTreeOpened(h1.flags, k);
    var r := ExposeEach(db, h1, stack[1..]);
    assert r == ExposeEach(db, h, stack);
    if |stack| > 1 {
      assert PassingChild(db, h.markingFilter, stack[0], stack[1]);
      assert stack[1] in h1.markedNodes;
      assert Linked(db, h1.markingFilter, stack[1..]) by {
        forall i | 0 <= i < |stack[1..]| - 1
          ensures PassingChild(db, h1.markingFilter, stack[1..][i], stack[1..][i + 1])
        {
          assert stack[1..][i] == stack[i + 1] && stack[1..][i + 1] == stack[i + 2];
        }
      }
      ExposeMarksPath(db, h1, stack[1..]);
    }
    forall x | x in stack
      ensures IsMarked(r.flags, x) && IsTreeOpened(r.flags, x)
    {
      if x != k {
        assert x in stack[1..];
      }
    }
  }

  /**
   * `markToExpose` on `target`: when the top of its parent stack is already
   * queued and each stack item is a passing child of the item above it,
   * every item of the stack, the target included, ends marked and opened.
   */
  lemma MarkToExposeOpensPath(db: Db, h: Hierarchy, target: Key)
    requires Paths.StackEnds(db, target)
    requires var stack := Reverse(Paths.ParentStack(db, target));
             stack[0] in h.markedNodes && Linked(db, h.markingFilter, stack)
    ensures var r := MarkToExpose(db, h, Some(target));
            forall x :: x in Paths.ParentStack(db, target) ==> IsMarked(r.flags, x) && IsTreeOpened(r.flags, x)
  {
    var ps := Paths.ParentStack(db, target);
    var stack := Reverse(ps);
    ExposeMarksPath(db, h, stack);
    forall x | x in ps ensures x in stack {
      var i :| 0 <= i < |ps| && ps[i] == x;
      assert stack[|ps| - 1 - i] == x;
    }
  }

  /** The loop of `markingFinished` over `ks`. */
  function FinishEach(db: Db, s: MarkState, ks: seq<Key>): (r: MarkState)
    ensures forall x :: x in ks && NumChildren(db, x) == 0 ==> IsExpanded(r, x)
    ensures forall x :: x in ks && NumChildren(db, x) == 0 && !IsExpanded(s, x) ==> IsMarked(r, x)
    ensures forall x :: !(x in ks && NumChildren(db, x) == 0 && !IsExpanded(s, x)) ==> SameFlags(s, r, x)
    decreases |ks|
  {
    if ks == [] then s
    else
      var x := ks[0];
      var s' := if !IsExpanded(s, x) && NumChildren(db, x) == 0 then MarkExpanded(s, x) else s;
      assert forall y :: y in ks <==> y == x || y in ks[1..];
      FinishEach(db, s', ks[1..])
  }

  /**
   * `markingFinished`: every node in `markedNodes` with no children ends
   * expanded; a childless node not yet expanded is also marked; every
   * other flag is left alone.
   */
  function MarkingFinished(db: Db, h: Hierarchy): (r: Hierarchy)
    ensures r.markedNodes == h.markedNodes && r.markingFilter == h.markingFilter
    ensures forall x :: x in h.markedNodes && NumChildren(db, x) == 0 ==> IsExpanded(r.flags, x)
    ensures forall x :: x in h.markedNodes && NumChildren(db, x) == 0 && !IsExpanded(h.flags, x) ==> IsMarked(r.flags, x)
    ensures forall x :: x in h.markedNodes && NumChildren(db, x) != 0 ==> SameFlags(h.flags, r.flags, x)
    ensures forall x :: x !in h.markedNodes ==> SameFlags(h.flags, r.flags, x)
  {
    h.(flags := FinishEach(db, h.flags, h.markedNodes))
  }

  /** `reset`: clears the three flag tables. */
  function Reset(h: Hierarchy): (r: Hierarchy)
    ensures forall x :: !IsMarked(r.flags, x) && !IsExpanded(r.flags, x) && !IsTreeOpened(r.flags, x)
    ensures r.markedNodes == h.markedNodes && r.countCache == h.countCache
  {
    h.(flags := Cleared)
  }

  /** `flushCache`: clears the flag tables and the cached child count. */
  function FlushCache(h: Hierarchy): (r: Hierarchy)
    ensures forall x :: !IsMarked(r.flags, x) && !IsExpanded(r.flags, x) && !IsTreeOpened(r.flags, x)
    ensures r.countCache == Cold
    ensures r.markedNodes == h.markedNodes
  {
    h.(flags := Cleared, countCache := Cold)
  }

  /** `numChildren` of the instance's own node, through its cache. */
  function OwnNumChildren(db: Db, h: Hierarchy, owner: Key, useCache: bool): (r: (nat, Hierarchy))
    ensures r.1.flags == h.flags && r.1.markedNodes == h.markedNodes
    ensures useCache && h.countCache.Warm? ==> r.0 == h.countCache.count
    ensures !useCache || h.countCache.Cold? ==> r.0 == NumChildren(db, owner)
  {
    var (n, c) := NumChildrenCached(db, owner, h.countCache, useCache);
    (n, h.(countCache := c))
  }

  /** After `flushCache` the count is computed afresh from the store. */
  lemma FlushRecounts(db: Db, h: Hierarchy, owner: Key)
    ensures OwnNumChildren(db, FlushCache(h), owner, true).0 == NumChildren(db, owner)
  {
  }

  /**
   * The `$minNodeCount` argument of `markPartialTree`, as PHP sees it: not
   * numeric, an int, a float, or a numeric string (with the number it reads as).
   */
  datatype MinNodeCount = NotNumeric | IntCount(n: int) | FloatCount(x: real) | NumericString(text: string, value: real)

  /**
   * The stopping threshold `markPartialTree` applies: a non-numeric argument
   * is replaced by 30; a falsy one (the int 0, the float 0.0, the string "0")
   * never stops the walk (None); any other numeric argument is compared with
   * the queue size as a number, so 0.5 and "0.0" stop it at once.
   */
  function MinCount(minNodeCount: MinNodeCount): (r: Option<real>)
    ensures minNodeCount.NotNumeric? ==> r == Some(30.0)
    ensures r.None? <==> minNodeCount == IntCount(0) || minNodeCount == FloatCount(0.0)
                         || (minNodeCount.NumericString? && minNodeCount.text == "0")
    ensures minNodeCount.IntCount? && r.Some? ==> r.value == minNodeCount.n as real
    ensures minNodeCount.FloatCount? && r.Some? ==> r.value == minNodeCount.x
    ensures minNodeCount.NumericString? && r.Some? ==> r.value == minNodeCount.value
  {
    match minNodeCount
    case NotNumeric => Some(30.0)
    case IntCount(n) => if n == 0 then None else Some(n as real)
    case FloatCount(x) => if x == 0.0 then None else Some(x)
    case NumericString(text, v) => if text == "0" then None else Some(v)
  }

  /** `$minNodeCount && sizeof($this->markedNodes) >= $minNodeCount` for the threshold `minCount`. */
  predicate Reached(minCount: Option<real>, size: nat) {
    minCount.Some? && size as real >= minCount.value
  }

  /** A threshold any non-empty queue meets. */
  predicate AtMostOne(minCount: Option<real>) {
    minCount.Some? && minCount.value <= 1.0
  }

  lemma ReachedAtOnce(minCount: Option<real>, size: nat)
    requires AtMostOne(minCount) && size >= 1
    ensures Reached(minCount, size)
  {
  }

  /** The processed node `q[m]` was met again, as a child with children, by a node processed at or after it. */
  ghost predicate Reinserted(db: Db, filter: Filter, q: seq<Key>, m: nat, processed: nat)
    requires m < |q| && processed <= |q|
  {
    NumChildren(db, q[m]) != 0 && exists j :: m <= j < processed && PassingChild(db, filter, q[j], q[m])
  }

  /** The queue starts at the root, holds no key twice and holds only rows (and the root). */
  ghost predicate QueueShape(db: Db, h: Hierarchy, root: Key, t: Hierarchy, i: nat) {
    var q := t.markedNodes;
    && i <= |q| && |q| >= 1 && q[0] == root
    && Distinct(q)
    && (forall x :: x in q ==> x in db.nodes.Keys + {root})
    && t.markingFilter == h.markingFilter && t.countCache == h.countCache
  }

  /** Every queued key is marked; every other key keeps the flags it had in `h`. */
  ghost predicate QueueMarked(h: Hierarchy, t: Hierarchy) {
    && (forall x :: x in t.markedNodes ==> IsMarked(t.flags, x))
    && (forall x :: x !in t.markedNodes ==> SameFlags(h.flags, t.flags, x))
  }

  /** Each entry after the root is a passing child of one of the first `i` entries. */
  ghost predicate QueueFed(db: Db, filter: Filter, q: seq<Key>, i: nat)
    requires i <= |q|
  {
    forall n :: 1 <= n < |q| ==> exists j :: 0 <= j < i && PassingChild(db, filter, q[j], q[n])
  }

  /** Every passing child of each of the first `i` entries is queued. */
  ghost predicate QueueClosed(db: Db, filter: Filter, q: seq<Key>, i: nat)
    requires i <= |q|
  {
    forall j, c :: 0 <= j < i && PassingChild(db, filter, q[j], c) ==> c in q
  }

  /** Each of the first `i` entries is expanded, unless it was met again as a child with children. */
  ghost predicate QueueExpanded(db: Db, filter: Filter, t: Hierarchy, i: nat)
    requires i <= |t.markedNodes|
  {
    forall m :: 0 <= m < i ==> IsExpanded(t.flags, t.markedNodes[m]) || Reinserted(db, filter, t.markedNodes, m, i)
  }

  /** What holds of the queue of `markPartialTree` after `i` expansions. */
  ghost predicate QueueInv(db: Db, h: Hierarchy, root: Key, t: Hierarchy, i: nat) {
    && QueueShape(db, h, root, t, i)
    && QueueMarked(h, t)
    && QueueFed(db, h.markingFilter, t.markedNodes, i)
    && QueueClosed(db, h.markingFilter, t.markedNodes, i)
    && QueueExpanded(db, h.markingFilter, t, i)
  }

  /** The queue right after `markedNodes` is reset to the root. */
  lemma QueueInvInit(db: Db, h: Hierarchy, root: Key)
    ensures QueueInv(db, h, root, h.(flags := MarkUnexpanded(h.flags, root), markedNodes := [root]), 0)
  {
  }

  lemma ShapeStep(db: Db, h: Hierarchy, root: Key, t: Hierarchy, i: nat)
    requires QueueShape(db, h, root, t, i) && i < |t.markedNodes|
    ensures var t' := MarkChildren(db, t, t.markedNodes[i]);
            var u := db.nodes.Keys + {root};
            && QueueShape(db, h, root, t', i + 1)
            && |u - Elems(t'.markedNodes)| <= |u - Elems(t.markedNodes)|
            && (|t'.markedNodes| == |t.markedNodes| || |u - Elems(t'.markedNodes)| < |u - Elems(t.markedNodes)|)
  {
    var t' := MarkChildren(db, t, t.markedNodes[i]);
    var u := db.nodes.Keys + {root};
    var q, q' := t.markedNodes, t'.markedNodes;
    MarkChildrenQueue(db, t, t.markedNodes[i]);
    assert forall x :: x in q' ==> x in u;
    Grows(q, q', u);
    assert q'[0] == root by { assert q'[..|q|][0] == q[0]; }
  }

  lemma MarkedStep(db: Db, h: Hierarchy, t: Hierarchy, i: nat)
    requires QueueMarked(h, t) && i < |t.markedNodes|
    ensures QueueMarked(h, MarkChildren(db, t, t.markedNodes[i]))
  {
    var t' := MarkChildren(db, t, t.markedNodes[i]);
    var q, q' := t.markedNodes, t'.markedNodes;
    MarkChildrenQueue(db, t, t.markedNodes[i]);
    MarkChildrenFlags(db, t, t.markedNodes[i]);
    forall x | x !in q' ensures SameFlags(h.flags, t'.flags, x) {
      assert x !in q && !PassingChild(db, t.markingFilter, q[i], x) && x != q[i];
    }
  }

  /** One expansion keeps the invariant, and either lengthens the queue with unseen keys or advances the cursor. */
  lemma QueueInvStep(db: Db, h: Hierarchy, root: Key, t: Hierarchy, i: nat)
    requires QueueInv(db, h, root, t, i) && i < |t.markedNodes|
    ensures var t' := MarkChildren(db, t, t.markedNodes[i]);
            var u := db.nodes.Keys + {root};
            && QueueInv(db, h, root, t', i + 1)
            && |u - Elems(t'.markedNodes)| <= |u - Elems(t.markedNodes)|
            && (|t'.markedNodes| == |t.markedNodes| || |u - Elems(t'.markedNodes)| < |u - Elems(t.markedNodes)|)
  {
    var t' := MarkChildren(db, t, t.markedNodes[i]);
    ShapeStep(db, h, root, t, i);
    MarkedStep(db, h, t, i);
    ReinsertedKept(db, h.markingFilter, t, t', i);
    ProvenanceKept(db, h.markingFilter, t, t', i);
    ClosedKept(db, h.markingFilter, t, t', i);
  }

  /** The queue never holds more keys than the store has rows, plus the root. */
  lemma QueueBound(db: Db, h: Hierarchy, root: Key, t: Hierarchy, i: nat)
    requires QueueShape(db, h, root, t, i)
    ensures |t.markedNodes| <= |db.nodes| + 1
  {
    var universe := db.nodes.Keys + {root};
    DistinctWithin(t.markedNodes, universe);
    if root !in db.nodes.Keys {
      assert |universe| == |db.nodes.Keys| + 1;
    } else {
      assert universe == db.nodes.Keys;
    }
  }

  /**
   * `markPartialTree`: start `markedNodes` afresh at `root` (marked,
   * unexpanded) and expand its entries in insertion order, a breadth-first
   * walk over a queue that grows as it goes, until the queue has at least
   * `minNodeCount` entries after an expansion (0 never stops early) or every
   * entry is expanded. Returns the queue size; `processed` is the number of
   * entries expanded, which are the first ones.
   */
  method MarkPartialTree(db: Db, h: Hierarchy, root: Key, minNodeCount: MinNodeCount)
    returns (count: nat, r: Hierarchy, ghost processed: nat, ghost before: nat)
    ensures count == |r.markedNodes| && 1 <= count <= |db.nodes| + 1
    ensures r.markedNodes[0] == root && Distinct(r.markedNodes)
    ensures forall x :: x in r.markedNodes ==> x == root || x in db.nodes
    ensures r.markingFilter == h.markingFilter && r.countCache == h.countCache
    ensures forall x :: x in r.markedNodes ==> IsMarked(r.flags, x)
    ensures forall x :: x !in r.markedNodes ==> SameFlags(h.flags, r.flags, x)
    ensures 1 <= processed <= before <= count
    ensures processed == count || Reached(MinCount(minNodeCount), count)
    ensures processed == 1 || !Reached(MinCount(minNodeCount), before)
    ensures Layered(db, h.markingFilter, root, r.markedNodes, before, processed - 1)
    ensures MinCount(minNodeCount).None? ==> processed == count
    ensures AtMostOne(MinCount(minNodeCount)) ==> processed == 1
    ensures forall n :: 1 <= n < count ==> exists j :: 0 <= j < processed && PassingChild(db, h.markingFilter, r.markedNodes[j], r.markedNodes[n])
    ensures forall j, c :: 0 <= j < processed && PassingChild(db, h.markingFilter, r.markedNodes[j], c) ==> c in r.markedNodes
    ensures MinCount(minNodeCount).None? ==>
              forall x, c :: x in r.markedNodes && PassingChild(db, h.markingFilter, x, c) ==> c in r.markedNodes
    ensures forall m :: 0 <= m < processed ==>
              IsExpanded(r.flags, r.markedNodes[m]) || Reinserted(db, h.markingFilter, r.markedNodes, m, processed)
  {
    var minCount := MinCount(minNodeCount);
    var t, i, b := Drain(db, h, root, minCount);
    QueueBound(db, h, root, t, i);
    count, r, processed, before := |t.markedNodes|, t, i, b;
    if minCount.None? {
      forall x, c | x in r.markedNodes && PassingChild(db, h.markingFilter, x, c) ensures c in r.markedNodes {
        var j :| 0 <= j < |r.markedNodes| && r.markedNodes[j] == x;
      }
    }
  }

  /**
   * The loop of `markPartialTree`, from the queue `[root]`: returns the final
   * hierarchy, the number `i` of entries expanded, and the queue length
   * `before` the last expansion. The loop stops at the first expansion after
   * which the minimum is reached, so the queue before it was still short.
   */
  method Drain(db: Db, h: Hierarchy, root: Key, minCount: Option<real>) returns (t: Hierarchy, i: nat, ghost before: nat)
    ensures QueueInv(db, h, root, t, i) && i >= 1
    ensures i <= before <= |t.markedNodes|
    ensures i == |t.markedNodes| || Reached(minCount, |t.markedNodes|)
    ensures i >= 2 ==> !Reached(minCount, before)
    ensures Layered(db, h.markingFilter, root, t.markedNodes, before, i - 1)
    ensures minCount.None? ==> i == |t.markedNodes|
    ensures AtMostOne(minCount) ==> i == 1
  {
    t := h.(flags := MarkUnexpanded(h.flags, root), markedNodes := [root]);
    DrainInvInit(db, h, root, minCount);
    ghost var universe := db.nodes.Keys + {root};
    ghost var pq: seq<Key> := [root];
    i := 0;
    var stopped := false;
    while !stopped && i < |t.markedNodes|
      invariant DrainInv(db, h, root, minCount, t, i, pq, stopped)
      decreases |universe - Elems(t.markedNodes)|, |t.markedNodes| - i
    {
      t, stopped, pq := DrainStep(db, h, root, minCount, t, i, pq);
      i := i + 1;
    }
    before := |pq|;
    DrainDone(db, h, root, minCount, t, i, pq, stopped);
  }

  lemma DrainInvInit(db: Db, h: Hierarchy, root: Key, minCount: Option<real>)
    ensures DrainInv(db, h, root, minCount, h.(flags := MarkUnexpanded(h.flags, root), markedNodes := [root]), 0, [root], false)
  {
    QueueInvInit(db, h, root);
  }

  /** When `Drain`'s loop exits, its invariant gives the method's results. */
  lemma DrainDone(db: Db, h: Hierarchy, root: Key, minCount: Option<real>, t: Hierarchy, i: nat, pq: seq<Key>, stopped: bool)
    requires DrainInv(db, h, root, minCount, t, i, pq, stopped) && (stopped || i >= |t.markedNodes|)
    ensures i >= 1 && i <= |pq| <= |t.markedNodes|
    ensures i == |t.markedNodes| || Reached(minCount, |t.markedNodes|)
    ensures i >= 2 ==> !Reached(minCount, |pq|)
    ensures Layered(db, h.markingFilter, root, t.markedNodes, |pq|, i - 1)
    ensures minCount.None? ==> i == |t.markedNodes|
    ensures AtMostOne(minCount) ==> i == 1
  {
    LayeredFrom(db, h.markingFilter, root, t.markedNodes, pq, i);
  }

  /** What `Drain`'s loop keeps: the queue invariant, the last step's queue, and when the loop stops. */
  ghost predicate DrainInv(db: Db, h: Hierarchy, root: Key, minCount: Option<real>, t: Hierarchy, i: nat, pq: seq<Key>, stopped: bool) {
    && QueueInv(db, h, root, t, i)
    && (i >= 1 ==> LastStep(db, h.markingFilter, root, t.markedNodes, pq, i))
    && (stopped ==> i >= 1 && Reached(minCount, |t.markedNodes|))
    && (!stopped && i >= 1 ==> !Reached(minCount, |t.markedNodes|))
    && (i >= 2 ==> !Reached(minCount, |pq|))
    && (i == 0 ==> !stopped)
    && (AtMostOne(minCount) ==> i <= 1 && (i == 1 ==> stopped))
  }

  /** One pass of `Drain`'s loop: expand the next entry and stop once the minimum is reached. */
  method DrainStep(db: Db, h: Hierarchy, root: Key, minCount: Option<real>, t: Hierarchy, i: nat, ghost pq: seq<Key>)
    returns (t': Hierarchy, stopped: bool, ghost pq': seq<Key>)
    requires DrainInv(db, h, root, minCount, t, i, pq, false) && i < |t.markedNodes|
    ensures DrainInv(db, h, root, minCount, t', i + 1, pq', stopped)
    ensures stopped <==> Reached(minCount, |t'.markedNodes|)
    ensures var u := db.nodes.Keys + {root};
            && |u - Elems(t'.markedNodes)| <= |u - Elems(t.markedNodes)|
            && (|t'.markedNodes| == |t.markedNodes| || |u - Elems(t'.markedNodes)| < |u - Elems(t.markedNodes)|)
  {
    pq' := t.markedNodes;
    t' := ExpandNext(db, h, root, t, i);
    if AtMostOne(minCount) {
      ReachedAtOnce(minCount, |t'.markedNodes|);
    }
    stopped := Reached(minCount, |t'.markedNodes|);
  }

  /**
   * One pass of the loop: `markChildren` on the `i`-th queued key keeps the
   * invariant for `i + 1`, either lengthens the queue with keys it did not
   * hold or leaves its length alone, and extends the queue it was given.
   */
  method ExpandNext(db: Db, h: Hierarchy, root: Key, t: Hierarchy, i: nat) returns (t': Hierarchy)
    requires QueueInv(db, h, root, t, i) && i < |t.markedNodes|
    ensures var u := db.nodes.Keys + {root};
            && QueueInv(db, h, root, t', i + 1)
            && |u - Elems(t'.markedNodes)| <= |u - Elems(t.markedNodes)|
            && (|t'.markedNodes| == |t.markedNodes| || |u - Elems(t'.markedNodes)| < |u - Elems(t.markedNodes)|)
    ensures LastStep(db, h.markingFilter, root, t'.markedNodes, t.markedNodes, i + 1)
  {
    QueueInvStep(db, h, root, t, i);
    LastStepAfter(db, h, root, t, i);
    t' := MarkChildren(db, t, t.markedNodes[i]);
  }

  /**
   * `pq` is the queue before the last of `i` expansions: a prefix of `q`
   * starting at the root, holding every passing child of its first `i - 1`
   * entries and only such children after the root.
   */
  ghost predicate LastStep(db: Db, filter: Filter, root: Key, q: seq<Key>, pq: seq<Key>, i: nat) {
    && 1 <= i <= |pq| <= |q| && q[..|pq|] == pq && pq[0] == root
    && QueueFed(db, filter, pq, i - 1) && QueueClosed(db, filter, pq, i - 1)
  }

  lemma LastStepAfter(db: Db, h: Hierarchy, root: Key, t: Hierarchy, i: nat)
    requires QueueInv(db, h, root, t, i) && i < |t.markedNodes|
    ensures LastStep(db, h.markingFilter, root, MarkChildren(db, t, t.markedNodes[i]).markedNodes, t.markedNodes, i + 1)
  {
    MarkChildrenQueue(db, t, t.markedNodes[i]);
  }

  /** The first `before` entries of `q` are exactly the root and the passing children of the first `n` entries. */
  ghost predicate Layered(db: Db, filter: Filter, root: Key, q: seq<Key>, before: nat, n: nat) {
    n <= before <= |q| &&
    forall x :: x in q[..before] <==> x == root || exists j :: 0 <= j < n && PassingChild(db, filter, q[j], x)
  }

  lemma LayeredFrom(db: Db, filter: Filter, root: Key, q: seq<Key>, pq: seq<Key>, i: nat)
    requires LastStep(db, filter, root, q, pq, i)
    ensures Layered(db, filter, root, q, |pq|, i - 1)
  {
    assert q[..|pq|] == pq;
    forall j | 0 <= j < i - 1 ensures q[j] == pq[j] {
      assert q[..|pq|][j] == q[j];
    }
    forall x ensures x in pq <==> x == root || exists j :: 0 <= j < i - 1 && PassingChild(db, filter, q[j], x) {
      if x in pq && x != root {
        var n :| 0 <= n < |pq| && pq[n] == x;
        var j :| 0 <= j < i - 1 && PassingChild(db, filter, pq[j], pq[n]);
        assert PassingChild(db, filter, q[j], x);
      }
    }
  }

  /** The queue after a step extends the queue before it, so the unseen part of the universe does not grow. */
  lemma Grows(a: seq<Key>, b: seq<Key>, u: set<Key>)
    requires Distinct(b) && |a| <= |b| && b[..|a|] == a
    requires forall x :: x in b ==> x in u
    ensures |u - Elems(b)| <= |u - Elems(a)|
    ensures |b| > |a| ==> |u - Elems(b)| < |u - Elems(a)|
  {
    assert forall x :: x in a ==> x in b by {
      forall x | x in a ensures x in b {
        var i :| 0 <= i < |a| && a[i] == x;
        assert b[i] == x;
      }
    }
    SubsetCard(u - Elems(b), u - Elems(a));
    if |b| > |a| {
      var y := b[|a|];
      forall i | 0 <= i < |a| ensures a[i] != y {
        assert a[i] == b[i];
      }
      SubsetCard(u - Elems(b), (u - Elems(a)) - {y});
    }
  }

  /** One `markChildren` step keeps every processed entry expanded or re-inserted. */
  lemma ReinsertedKept(db: Db, filter: Filter, before: Hierarchy, t: Hierarchy, i: nat)
    requires i < |before.markedNodes| && before.markingFilter == filter
    requires t == MarkChildren(db, before, before.markedNodes[i])
    requires QueueExpanded(db, filter, before, i)
    ensures QueueExpanded(db, filter, t, i + 1)
  {
    forall m | 0 <= m < i + 1
      ensures IsExpanded(t.flags, t.markedNodes[m]) || Reinserted(db, filter, t.markedNodes, m, i + 1)
    {
      ReinsertedOne(db, filter, before, t, i, m);
    }
  }

  lemma ReinsertedOne(db: Db, filter: Filter, before: Hierarchy, t: Hierarchy, i: nat, m: nat)
    requires m <= i < |before.markedNodes| && before.markingFilter == filter
    requires t == MarkChildren(db, before, before.markedNodes[i])
    requires m < i ==> IsExpanded(before.flags, before.markedNodes[m]) || Reinserted(db, filter, before.markedNodes, m, i)
    ensures IsExpanded(t.flags, t.markedNodes[m]) || Reinserted(db, filter, t.markedNodes, m, i + 1)
  {
    var q, q' := before.markedNodes, t.markedNodes;
    var k := q[i];
    MarkChildrenQueue(db, before, k);
    MarkChildrenFlags(db, before, k);
    assert q'[m] == q[m] && q'[i] == q[i] by {
      assert q'[..|q|][m] == q[m] && q'[..|q|][i] == q[i];
    }
    var x := q[m];
    if PassingChild(db, filter, k, x) {
      if NumChildren(db, x) != 0 {
        assert PassingChild(db, filter, q'[i], q'[m]);
      }
    } else if x != k {
      assert SameFlags(before.flags, t.flags, x);
      if !IsExpanded(before.flags, x) {
        var j :| m <= j < i && PassingChild(db, filter, q[j], q[m]);
        assert q'[j] == q[j] by {
          assert q'[..|q|][j] == q[j];
        }
        assert PassingChild(db, filter, q'[j], q'[m]);
      }
    }
  }

  /** One `markChildren` step keeps every entry after the root a passing child of an expanded entry. */
  lemma ProvenanceKept(db: Db, filter: Filter, before: Hierarchy, t: Hierarchy, i: nat)
    requires i < |before.markedNodes| && before.markingFilter == filter && Distinct(before.markedNodes)
    requires t == MarkChildren(db, before, before.markedNodes[i])
    requires QueueFed(db, filter, before.markedNodes, i)
    ensures QueueFed(db, filter, t.markedNodes, i + 1)
  {
    var q, q' := before.markedNodes, t.markedNodes;
    MarkChildrenQueue(db, before, q[i]);
    assert forall j :: 0 <= j < |q| ==> q'[j] == q[j] by {
      forall j | 0 <= j < |q| ensures q'[j] == q[j] {
        assert q'[..|q|][j] == q[j];
      }
    }
    forall n | 1 <= n < |q'|
      ensures exists j :: 0 <= j < i + 1 && PassingChild(db, filter, q'[j], q'[n])
    {
      if n < |q| {
        assert q'[n] == q[n];
        var j :| 0 <= j < i && PassingChild(db, filter, q[j], q[n]);
        assert q'[j] == q[j];
      } else {
        assert q'[n] !in q by {
          forall p | 0 <= p < |q| ensures q[p] != q'[n] {
            assert q[p] == q'[p];
          }
        }
        assert PassingChild(db, filter, q'[i], q'[n]);
      }
    }
  }

  /** One `markChildren` step queues every passing child of the entry it expands, and loses no queued key. */
  lemma ClosedKept(db: Db, filter: Filter, before: Hierarchy, t: Hierarchy, i: nat)
    requires i < |before.markedNodes| && before.markingFilter == filter
    requires t == MarkChildren(db, before, before.markedNodes[i])
    requires QueueClosed(db, filter, before.markedNodes, i)
    ensures QueueClosed(db, filter, t.markedNodes, i + 1)
  {
    var q, q' := before.markedNodes, t.markedNodes;
    MarkChildrenQueue(db, before, q[i]);
    forall j, c | 0 <= j < i + 1 && PassingChild(db, filter, q'[j], c) ensures c in q' {
      assert q'[j] == q[j] by {
        assert q'[..|q|][j] == q[j];
      }
    }
  }
}
