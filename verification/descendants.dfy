/**
 * `loadDescendantIDListInto` / `getDescendantIDList`: a depth-first,
 * preorder walk over `stageChildren` that appends each child's bare ID to an
 * accumulating list, skipping a child whose ID the list already holds.
 */
module Descendants {
  import opened Seqs
  import opened Store
  import opened Children

  /** The tags of the stored records. */
  function TagsOf<T>(db: Db, tag: Key -> T): (r: set<T>)
    ensures forall k :: k in db.nodes ==> tag(k) in r
  {
    set k | k in db.nodes :: tag(k)
  }

  /** The tag the source deduplicates on: the bare ID, which ignores the kind. */
  function BareId(k: Key): nat { k.id }

  /** The tag that tells every record apart: the whole key. */
  function WholeKey(k: Key): Key { k }

  /**
   * The outcome of a walk from an accumulator `acc`: the final ID list and,
   * in order, the keys whose IDs the walk appended.
   */
  datatype Walk<T> = Walk(ids: seq<T>, visited: seq<Key>)

  /** `w` keeps `acc` as its prefix and appended exactly the IDs of its visited keys. */
  predicate Extends<T(==)>(tag: Key -> T, acc: seq<T>, w: Walk<T>) {
    && |acc| <= |w.ids| && w.ids[..|acc|] == acc
    && |w.visited| == |w.ids| - |acc|
    && forall j :: 0 <= j < |w.visited| ==> w.ids[|acc| + j] == tag(w.visited[j])
  }

  /** Extending a list never uncovers an ID. */
  lemma Shrinks<T>(u: set<T>, a: seq<T>, b: seq<T>)
    requires |a| <= |b| && b[..|a|] == a
    ensures |u - Elems(b)| <= |u - Elems(a)|
  {
    forall x | x in a ensures x in b {
      var i :| 0 <= i < |a| && a[i] == x;
      assert b[..|a|][i] == x;
    }
    SubsetCard(u - Elems(b), u - Elems(a));
  }

  /** Appending a new member of `u` covers one more of it. */
  lemma ShrinksStrict<T>(u: set<T>, a: seq<T>, x: T)
    requires x in u && x !in a
    ensures |u - Elems(a + [x])| < |u - Elems(a)|
  {
    assert u - Elems(a + [x]) == (u - Elems(a)) - {x};
  }

  /** `loadDescendantIDListInto` on `k`: the child loop over `stageChildren(k)`. */
  function LoadInto<T(==)>(db: Db, tag: Key -> T, k: Key, acc: seq<T>): (w: Walk<T>)
    ensures Extends(tag, acc, w)
    ensures forall x :: x in w.visited ==> x in db.nodes
    ensures Distinct(acc) ==> Distinct(w.ids)
    decreases |TagsOf(db, tag) - Elems(acc)|, 1, 0
  {
    LoadEach(db, tag, StageChildren(db, k), acc)
  }

  /** The child loop: skip a child whose ID is listed, else list it and walk below it. */
  function LoadEach<T(==)>(db: Db, tag: Key -> T, cs: seq<Key>, acc: seq<T>): (w: Walk<T>)
    requires forall c :: c in cs ==> c in db.nodes
    ensures Extends(tag, acc, w)
    ensures forall x :: x in w.visited ==> x in db.nodes
    ensures Distinct(acc) ==> Distinct(w.ids)
    decreases |TagsOf(db, tag) - Elems(acc)|, 0, |cs|
  {
    if cs == [] then Walk(acc, [])
    else
      var c := cs[0];
      if tag(c) in acc then LoadEach(db, tag, cs[1..], acc)
      else
        ShrinksStrict(TagsOf(db, tag), acc, tag(c));
        var inner := LoadInto(db, tag, c, acc + [tag(c)]);
        Shrinks(TagsOf(db, tag), acc + [tag(c)], inner.ids);
        var rest := LoadEach(db, tag, cs[1..], inner.ids);
        JoinWalks(tag, acc, c, inner, rest);
        Walk(rest.ids, [c] + inner.visited + rest.visited)
  }

  /** The bookkeeping of one listed child: the two walks chain into one that extends `acc`. */
  lemma JoinWalks<T>(tag: Key -> T, acc: seq<T>, c: Key, inner: Walk<T>, rest: Walk<T>)
    requires tag(c) !in acc
    requires Extends(tag, acc + [tag(c)], inner) && Extends(tag, inner.ids, rest)
    ensures Extends(tag, acc, Walk(rest.ids, [c] + inner.visited + rest.visited))
    ensures Distinct(acc) ==> Distinct(acc + [tag(c)])
  {
    var a1 := acc + [tag(c)];
    var v := [c] + inner.visited + rest.visited;
    assert rest.ids[..|acc|] == acc by {
      assert rest.ids[..|inner.ids|][..|acc|] == inner.ids[..|acc|];
      assert inner.ids[..|a1|][..|acc|] == acc;
    }
    forall j | 0 <= j < |v| ensures rest.ids[|acc| + j] == tag(v[j]) {
      if j == 0 {
        assert rest.ids[..|inner.ids|][|acc|] == inner.ids[..|a1|][|acc|];
      } else if j < 1 + |inner.visited| {
        assert rest.ids[..|inner.ids|][|a1| + (j - 1)] == inner.ids[|a1| + (j - 1)];
      } else {
        var m := j - 1 - |inner.visited|;
        assert v[j] == rest.visited[m];
      }
    }
  }

  /** `getDescendantIDList`: the walk from an empty list. */
  function GetDescendantIDList(db: Db, k: Key): (r: seq<nat>)
    ensures Distinct(r)
  {
    LoadInto(db, BareId, k, []).ids
  }

  /** Every child in `cs` has its ID in the result, whether it was listed now or before. */
  lemma {:induction false} LoadEachCovers<T>(db: Db, tag: Key -> T, cs: seq<Key>, acc: seq<T>)
    requires forall c :: c in cs ==> c in db.nodes
    ensures var w := LoadEach(db, tag, cs, acc);
            forall c :: c in cs ==> tag(c) in w.ids
    decreases |cs|
  {
    var w := LoadEach(db, tag, cs, acc);
    if cs != [] {
      var c := cs[0];
      var next := if tag(c) in acc then acc else LoadInto(db, tag, c, acc + [tag(c)]).ids;
      assert w.ids == LoadEach(db, tag, cs[1..], next).ids;
      LoadEachCovers(db, tag, cs[1..], next);
      assert tag(c) in next by {
        if tag(c) !in acc {
          var a1 := acc + [tag(c)];
          assert next[..|a1|][|acc|] == tag(c);
        }
      }
      assert tag(c) in w.ids by {
        var i :| 0 <= i < |next| && next[i] == tag(c);
        assert w.ids[..|next|][i] == tag(c);
      }
      forall x | x in cs ensures tag(x) in w.ids {
        if x != c {
          assert x in cs[1..];
        }
      }
    }
  }

  /** Every child of `k` has its ID in the result of `LoadInto`. */
  lemma LoadIntoCovers<T>(db: Db, tag: Key -> T, k: Key, acc: seq<T>)
    ensures forall c :: c in StageChildren(db, k) ==> tag(c) in LoadInto(db, tag, k, acc).ids
  {
    LoadEachCovers(db, tag, StageChildren(db, k), acc);
  }

  /** Where the pieces of a listed child's walk sit in the joined visit order. */
  lemma Pieces(c: Key, a: seq<Key>, b: seq<Key>)
    ensures var v := [c] + a + b;
            && |v| == 1 + |a| + |b| && v[0] == c
            && (forall m :: 0 <= m < |a| ==> v[1 + m] == a[m])
            && (forall m :: 0 <= m < |b| ==> v[1 + |a| + m] == b[m])
  {
  }

  /** The IDs of `w`'s list are kept by every later extension of it. */
  lemma Kept<T>(a: seq<T>, b: seq<T>, x: T)
    requires |a| <= |b| && b[..|a|] == a && x in a
    ensures x in b
  {
    var i :| 0 <= i < |a| && a[i] == x;
    assert b[..|a|][i] == x;
  }

  /** Each visited key's children all have their IDs in the final list. */
  ghost predicate Closed<T>(db: Db, tag: Key -> T, w: Walk<T>) {
    forall j, c :: 0 <= j < |w.visited| && c in StageChildren(db, w.visited[j]) ==> tag(c) in w.ids
  }

  lemma {:induction false} LoadIntoClosed<T>(db: Db, tag: Key -> T, k: Key, acc: seq<T>)
    ensures Closed(db, tag, LoadInto(db, tag, k, acc))
    decreases |TagsOf(db, tag) - Elems(acc)|, 1, 0
  {
    LoadEachClosed(db, tag, StageChildren(db, k), acc);
  }

  /** The walk is closed under children: below every visited key, every child's ID is listed. */
  lemma {:induction false} LoadEachClosed<T>(db: Db, tag: Key -> T, cs: seq<Key>, acc: seq<T>)
    requires forall c :: c in cs ==> c in db.nodes
    ensures Closed(db, tag, LoadEach(db, tag, cs, acc))
    decreases |TagsOf(db, tag) - Elems(acc)|, 0, |cs|
  {
    if cs != [] {
      var c := cs[0];
      if tag(c) in acc {
        LoadEachClosed(db, tag, cs[1..], acc);
      } else {
        var a1 := acc + [tag(c)];
        ShrinksStrict(TagsOf(db, tag), acc, tag(c));
        var inner := LoadInto(db, tag, c, a1);
        Shrinks(TagsOf(db, tag), a1, inner.ids);
        var rest := LoadEach(db, tag, cs[1..], inner.ids);
        var w := LoadEach(db, tag, cs, acc);
        assert w == Walk(rest.ids, [c] + inner.visited + rest.visited);
        LoadIntoClosed(db, tag, c, a1);
        LoadIntoCovers(db, tag, c, a1);
        LoadEachClosed(db, tag, cs[1..], inner.ids);
        ClosedJoin(db, tag, c, inner, rest);
      }
    }
  }

  /** Joining a listed child's walk and the rest of the loop keeps closure. */
  lemma ClosedJoin<T>(db: Db, tag: Key -> T, c: Key, inner: Walk<T>, rest: Walk<T>)
    requires Closed(db, tag, inner) && Closed(db, tag, rest)
    requires forall x :: x in StageChildren(db, c) ==> tag(x) in inner.ids
    requires |inner.ids| <= |rest.ids| && rest.ids[..|inner.ids|] == inner.ids
    ensures Closed(db, tag, Walk(rest.ids, [c] + inner.visited + rest.visited))
  {
    var w := Walk(rest.ids, [c] + inner.visited + rest.visited);
    Pieces(c, inner.visited, rest.visited);
    forall j, x | 0 <= j < |w.visited| && x in StageChildren(db, w.visited[j])
      ensures tag(x) in w.ids
    {
      if j == 0 {
        Kept(inner.ids, rest.ids, tag(x));
      } else if j < 1 + |inner.visited| {
        var m := j - 1;
        assert w.visited[1 + m] == inner.visited[m];
        Kept(inner.ids, rest.ids, tag(x));
      } else {
        var m := j - 1 - |inner.visited|;
        assert w.visited[1 + |inner.visited| + m] == rest.visited[m];
      }
    }
  }

  /** Each visited key is one of `cs`, or a child of a key visited before it. */
  ghost predicate Sound(db: Db, cs: seq<Key>, v: seq<Key>) {
    forall j :: 0 <= j < |v| ==>
      v[j] in cs || exists i :: 0 <= i < j && v[j] in StageChildren(db, v[i])
  }

  lemma {:induction false} LoadIntoSound<T>(db: Db, tag: Key -> T, k: Key, acc: seq<T>)
    ensures Sound(db, StageChildren(db, k), LoadInto(db, tag, k, acc).visited)
    decreases |TagsOf(db, tag) - Elems(acc)|, 1, 0
  {
    LoadEachSound(db, tag, StageChildren(db, k), acc);
  }

  /** The walk lists only descendants: each visited key hangs below the loop's children. */
  lemma {:induction false} LoadEachSound<T>(db: Db, tag: Key -> T, cs: seq<Key>, acc: seq<T>)
    requires forall c :: c in cs ==> c in db.nodes
    ensures Sound(db, cs, LoadEach(db, tag, cs, acc).visited)
    decreases |TagsOf(db, tag) - Elems(acc)|, 0, |cs|
  {
    if cs != [] {
      var c := cs[0];
      if tag(c) in acc {
        LoadEachSound(db, tag, cs[1..], acc);
        var w := LoadEach(db, tag, cs, acc);
        forall j | 0 <= j < |w.visited| && w.visited[j] in cs[1..] ensures w.visited[j] in cs {
        }
      } else {
        var a1 := acc + [tag(c)];
        ShrinksStrict(TagsOf(db, tag), acc, tag(c));
        var inner := LoadInto(db, tag, c, a1);
        Shrinks(TagsOf(db, tag), a1, inner.ids);
        var rest := LoadEach(db, tag, cs[1..], inner.ids);
        var w := LoadEach(db, tag, cs, acc);
        assert w == Walk(rest.ids, [c] + inner.visited + rest.visited);
        LoadIntoSound(db, tag, c, a1);
        LoadEachSound(db, tag, cs[1..], inner.ids);
        SoundJoin(db, cs, c, inner.visited, rest.visited);
      }
    }
  }

  /** Joining a listed child's visits and the rest of the loop's keeps every visit below `cs`. */
  lemma SoundJoin(db: Db, cs: seq<Key>, c: Key, a: seq<Key>, b: seq<Key>)
    requires cs != [] && c == cs[0]
    requires Sound(db, StageChildren(db, c), a) && Sound(db, cs[1..], b)
    ensures Sound(db, cs, [c] + a + b)
  {
    var v := [c] + a + b;
    Pieces(c, a, b);
    forall j | 0 <= j < |v|
      ensures v[j] in cs || exists i :: 0 <= i < j && v[j] in StageChildren(db, v[i])
    {
      if j == 0 {
      } else if j < 1 + |a| {
        SoundJoinInner(db, c, a, b, j - 1);
      } else {
        SoundJoinRest(db, cs, c, a, b, j - 1 - |a|);
      }
    }
  }

  /** A visit of the child's own walk hangs below the child or below an earlier visit. */
  lemma SoundJoinInner(db: Db, c: Key, a: seq<Key>, b: seq<Key>, m: nat)
    requires Sound(db, StageChildren(db, c), a) && m < |a|
    ensures var v := [c] + a + b;
            exists i :: 0 <= i < 1 + m && v[1 + m] in StageChildren(db, v[i])
  {
    var v := [c] + a + b;
    Pieces(c, a, b);
    var y := a[m];
    if y in StageChildren(db, c) {
      assert y in StageChildren(db, v[0]);
    } else {
      var i :| 0 <= i < m && y in StageChildren(db, a[i]);
      assert y in StageChildren(db, v[1 + i]);
    }
  }

  /** A visit of the rest of the loop is one of `cs` or hangs below an earlier visit. */
  lemma SoundJoinRest(db: Db, cs: seq<Key>, c: Key, a: seq<Key>, b: seq<Key>, m: nat)
    requires cs != [] && Sound(db, cs[1..], b) && m < |b|
    ensures var v := [c] + a + b;
            v[1 + |a| + m] in cs || exists i :: 0 <= i < 1 + |a| + m && v[1 + |a| + m] in StageChildren(db, v[i])
  {
    var v := [c] + a + b;
    Pieces(c, a, b);
    var y := b[m];
    if y in cs[1..] {
      assert y in cs;
    } else {
      var i :| 0 <= i < m && y in StageChildren(db, b[i]);
      assert y in StageChildren(db, v[1 + |a| + i]);
    }
  }

  /** No two stored records share a tag. */
  predicate Injective<T(==)>(db: Db, tag: Key -> T) {
    forall a, b :: a in db.nodes && b in db.nodes && tag(a) == tag(b) ==> a == b
  }

  /**
   * When no two records share a tag, the walk from an empty list visits
   * every child of `k` and every child of every key it visits: the whole
   * subtree below `k`.
   */
  lemma DescendantsComplete<T>(db: Db, tag: Key -> T, k: Key)
    requires Injective(db, tag)
    ensures var w := LoadInto(db, tag, k, []);
            && (forall c :: c in StageChildren(db, k) ==> c in w.visited)
            && (forall j, c :: 0 <= j < |w.visited| && c in StageChildren(db, w.visited[j]) ==> c in w.visited)
  {
    var w := LoadInto(db, tag, k, []);
    LoadIntoCovers(db, tag, k, []);
    LoadIntoClosed(db, tag, k, []);
    forall c | c in db.nodes && tag(c) in w.ids ensures c in w.visited {
      var i :| 0 <= i < |w.ids| && w.ids[i] == tag(c);
      assert w.ids[0 + i] == tag(w.visited[i]);
    }
  }

  /**
   * `getDescendantIDList` as written: every child's ID is listed, and every
   * listed ID belongs to a key below `k`; when IDs are unique across kinds,
   * the listed keys are the whole subtree.
   */
  lemma DescendantIDListMeaning(db: Db, k: Key)
    ensures var w := LoadInto(db, BareId, k, []);
            && GetDescendantIDList(db, k) == w.ids
            && |w.ids| == |w.visited|
            && (forall i :: 0 <= i < |w.ids| ==> w.ids[i] == w.visited[i].id)
            && (forall c :: c in StageChildren(db, k) ==> c.id in w.ids)
            && Sound(db, StageChildren(db, k), w.visited)
    ensures Injective(db, BareId) ==>
              var w := LoadInto(db, BareId, k, []);
              forall j, c :: 0 <= j < |w.visited| && c in StageChildren(db, w.visited[j]) ==> c in w.visited
  {
    var w := LoadInto(db, BareId, k, []);
    LoadIntoCovers(db, BareId, k, []);
    LoadIntoSound(db, BareId, k, []);
    forall i | 0 <= i < |w.ids| ensures w.ids[i] == w.visited[i].id {
      assert w.ids[0 + i] == BareId(w.visited[i]);
    }
    if Injective(db, BareId) {
      DescendantsComplete(db, BareId, k);
    }
  }

  /**
   * The walk deduplicating on whole keys, as `getDescendantIDList` evidently
   * intends: the IDs of every key it visits, in visit order.
   */
  function GetDescendantIDListByKey(db: Db, k: Key): (r: seq<nat>)
    ensures var w := LoadInto(db, WholeKey, k, []);
            |r| == |w.visited| && forall i :: 0 <= i < |r| ==> r[i] == w.visited[i].id
  {
    var w := LoadInto(db, WholeKey, k, []);
    seq(|w.visited|, i requires 0 <= i < |w.visited| => w.visited[i].id)
  }

  /**
   * Deduplicating on whole keys visits each key below `k` once and the
   * whole subtree: every child of `k`, and every child of every visited key,
   * with no condition on how IDs are shared between kinds.
   */
  lemma ByKeyComplete(db: Db, k: Key)
    ensures var w := LoadInto(db, WholeKey, k, []);
            && Distinct(w.visited)
            && (forall c :: c in StageChildren(db, k) ==> c in w.visited && c.id in GetDescendantIDListByKey(db, k))
            && (forall j, c :: 0 <= j < |w.visited| && c in StageChildren(db, w.visited[j]) ==>
                  c in w.visited && c.id in GetDescendantIDListByKey(db, k))
  {
    var w := LoadInto(db, WholeKey, k, []);
    var r := GetDescendantIDListByKey(db, k);
    DescendantsComplete(db, WholeKey, k);
    assert w.ids == w.visited by {
      forall i | 0 <= i < |w.ids| ensures w.ids[i] == w.visited[i] {
        assert w.ids[0 + i] == WholeKey(w.visited[i]);
      }
    }
    forall c | c in w.visited ensures c.id in r {
      var i :| 0 <= i < |w.visited| && w.visited[i] == c;
      assert r[i] == c.id;
    }
  }

  /** `p` is a chain of stage children: each key after the first is a child of the one before it. */
  ghost predicate ChildChain(db: Db, p: seq<Key>) {
    && |p| >= 2
    && forall i, j :: 0 <= i && j == i + 1 && j < |p| ==> p[j] in StageChildren(db, p[i])
  }

  /** `x` is a descendant of `k`: a chain of stage children leads from `k` down to `x`. */
  ghost predicate Below(db: Db, k: Key, x: Key) {
    exists p :: ChildChain(db, p) && p[0] == k && p[|p| - 1] == x
  }

  lemma ChainExtend(db: Db, p: seq<Key>, x: Key)
    requires ChildChain(db, p) && x in StageChildren(db, p[|p| - 1])
    ensures ChildChain(db, p + [x]) && (p + [x])[0] == p[0]
  {
    var p' := p + [x];
    forall i, j | 0 <= i && j == i + 1 && j < |p'| ensures p'[j] in StageChildren(db, p'[i]) {
      if j < |p| {
        assert p'[i] == p[i] && p'[j] == p[j];
      }
    }
  }

  /** Every key a sound walk visits is a descendant of `k`. */
  lemma {:induction false} SoundBelow(db: Db, k: Key, v: seq<Key>, j: nat)
    requires Sound(db, StageChildren(db, k), v) && j < |v|
    ensures Below(db, k, v[j])
    decreases j
  {
    if v[j] in StageChildren(db, k) {
      assert ChildChain(db, [k, v[j]]);
    } else {
      var i :| 0 <= i < j && v[j] in StageChildren(db, v[i]);
      SoundBelow(db, k, v, i);
      var p :| ChildChain(db, p) && p[0] == k && p[|p| - 1] == v[i];
      ChainExtend(db, p, v[j]);
      assert (p + [v[j]])[|p + [v[j]]| - 1] == v[j];
    }
  }

  /** A visit list holding the children of `k` and of each of its own keys holds every descendant of `k`. */
  lemma {:induction false} ClosedHoldsBelow(db: Db, k: Key, v: seq<Key>, p: seq<Key>, m: nat)
    requires forall c :: c in StageChildren(db, k) ==> c in v
    requires forall j, c :: 0 <= j < |v| && c in StageChildren(db, v[j]) ==> c in v
    requires ChildChain(db, p) && p[0] == k && 1 <= m < |p|
    ensures p[m] in v
    decreases m
  {
    assert p[m] in StageChildren(db, p[m - 1]);
    if m > 1 {
      ClosedHoldsBelow(db, k, v, p, m - 1);
      var j :| 0 <= j < |v| && v[j] == p[m - 1];
    }
  }

  /** Every key of a walk's visit list that holds the children of `k` and of its own keys is a descendant's. */
  lemma VisitedHoldsBelow(db: Db, k: Key, v: seq<Key>, x: Key)
    requires forall c :: c in StageChildren(db, k) ==> c in v
    requires forall j, c :: 0 <= j < |v| && c in StageChildren(db, v[j]) ==> c in v
    requires Below(db, k, x)
    ensures x in v
  {
    var p :| ChildChain(db, p) && p[0] == k && p[|p| - 1] == x;
    ClosedHoldsBelow(db, k, v, p, |p| - 1);
  }

  /**
   * The list deduplicating on whole keys is exactly the subtree: the ID of
   * every descendant of `k` is listed, and every listed ID is the ID of a
   * descendant of `k`.
   */
  lemma ByKeyMeaning(db: Db, k: Key)
    ensures forall x :: Below(db, k, x) ==> x.id in GetDescendantIDListByKey(db, k)
    ensures forall n :: n in GetDescendantIDListByKey(db, k) ==> exists x :: Below(db, k, x) && x.id == n
  {
    forall x | Below(db, k, x) ensures x.id in GetDescendantIDListByKey(db, k) {
      ByKeyHolds(db, k, x);
    }
    forall n | n in GetDescendantIDListByKey(db, k) ensures exists x :: Below(db, k, x) && x.id == n {
      ByKeyOnly(db, k, n);
    }
  }

  /** The corrected list holds the ID of every descendant of `k`. */
  lemma ByKeyHolds(db: Db, k: Key, x: Key)
    requires Below(db, k, x)
    ensures x.id in GetDescendantIDListByKey(db, k)
  {
    var v := LoadInto(db, WholeKey, k, []).visited;
    var r := GetDescendantIDListByKey(db, k);
    WholeKeyWalkClosed(db, k, v);
    VisitedHoldsBelow(db, k, v, x);
    var i :| 0 <= i < |v| && v[i] == x;
    assert r[i] == x.id;
  }

  /** The walk on whole keys holds the children of `k` and of each key it visits. */
  lemma WholeKeyWalkClosed(db: Db, k: Key, v: seq<Key>)
    requires v == LoadInto(db, WholeKey, k, []).visited
    ensures forall c :: c in StageChildren(db, k) ==> c in v
    ensures forall j, c :: 0 <= j < |v| && c in StageChildren(db, v[j]) ==> c in v
  {
    DescendantsComplete(db, WholeKey, k);
  }

  /** Every ID in the corrected list is the ID of a descendant of `k`. */
  lemma ByKeyOnly(db: Db, k: Key, n: nat)
    requires n in GetDescendantIDListByKey(db, k)
    ensures exists x :: Below(db, k, x) && x.id == n
  {
    var w := LoadInto(db, WholeKey, k, []);
    var r := GetDescendantIDListByKey(db, k);
    var i :| 0 <= i < |r| && r[i] == n;
    LoadIntoSound(db, WholeKey, k, []);
    SoundBelow(db, k, w.visited, i);
  }

  /**
   * `getDescendantIDList` as written lists only IDs of descendants of `k`,
   * and the ID of every descendant when no two records share an ID.
   */
  lemma DescendantIDListSubtree(db: Db, k: Key)
    ensures forall n :: n in GetDescendantIDList(db, k) ==> exists x :: Below(db, k, x) && x.id == n
    ensures Injective(db, BareId) ==> forall x :: Below(db, k, x) ==> x.id in GetDescendantIDList(db, k)
  {
    var b := LoadInto(db, BareId, k, []);
    DescendantIDListMeaning(db, k);
    forall n | n in b.ids ensures exists x :: Below(db, k, x) && x.id == n {
      var i :| 0 <= i < |b.ids| && b.ids[i] == n;
      SoundBelow(db, k, b.visited, i);
    }
    if Injective(db, BareId) {
      LoadIntoCovers(db, BareId, k, []);
      forall x | Below(db, k, x) ensures x.id in b.ids {
        VisitedHoldsBelow(db, k, b.visited, x);
        var i :| 0 <= i < |b.visited| && b.visited[i] == x;
      }
    }
  }
}

/** A store on which deduplicating by bare ID loses part of a subtree. */
module DescendantsExample {
  import opened Store
  import opened Children
  import opened Descendants

  /**
   * Language 1 holds top-level folders 2 and 5, listed in that order;
   * snippet 5 sits in folder 2 and snippet 9 in folder 5.
   */
  predicate SkipShape(db: Db) {
    var l, f2, f5, s5, s9 := Key(Language, 1), Key(Folder, 2), Key(Folder, 5), Key(Snippet, 5), Key(Snippet, 9);
    && db.rows == [l, f2, f5, s5, s9]
    && l in db.nodes && db.nodes[l].languageID == 0 && db.nodes[l].folderID == 0
    && f2 in db.nodes && db.nodes[f2].languageID == 1 && db.nodes[f2].folderID == 0
    && f5 in db.nodes && db.nodes[f5].languageID == 1 && db.nodes[f5].folderID == 0
    && s5 in db.nodes && db.nodes[s5].languageID == 1 && db.nodes[s5].folderID == 2
    && s9 in db.nodes && db.nodes[s9].languageID == 1 && db.nodes[s9].folderID == 5
  }

  /** One store of that shape. */
  function SkipStore(): (db: Db)
    ensures SkipShape(db)
  {
    var n := map[];
    Db(map[Key(Language, 1) := Node(0, 0, 1, "", n),
           Key(Folder, 2) := Node(1, 0, 1, "", n),
           Key(Folder, 5) := Node(1, 0, 2, "", n),
           Key(Snippet, 5) := Node(1, 2, 1, "", n),
           Key(Snippet, 9) := Node(1, 5, 1, "", n)],
       [Key(Language, 1), Key(Folder, 2), Key(Folder, 5), Key(Snippet, 5), Key(Snippet, 9)])
  }

  /** `[x]` when the query selects `x`, else nothing. */
  function Keep(db: Db, q: Query, x: Key): seq<Key> {
    if Hit(db, q, x) then [x] else []
  }

  /** One step of a listing: the head row is kept exactly when the query selects it. */
  lemma SelectHead(db: Db, x: Key, rest: seq<Key>, q: Query)
    ensures SelectFrom(db, [x] + rest, q) == Keep(db, q, x) + SelectFrom(db, rest, q)
  {
    assert ([x] + rest)[1..] == rest;
  }

  /** The listing of `q` over the five rows, row by row. */
  lemma SelectFive(db: Db, q: Query)
    requires db.rows == [Key(Language, 1), Key(Folder, 2), Key(Folder, 5), Key(Snippet, 5), Key(Snippet, 9)]
    ensures Select(db, q) ==
              Keep(db, q, Key(Language, 1)) + (Keep(db, q, Key(Folder, 2)) + (Keep(db, q, Key(Folder, 5)) +
              (Keep(db, q, Key(Snippet, 5)) + Keep(db, q, Key(Snippet, 9)))))
  {
    var l, f2, f5, s5, s9 := Key(Language, 1), Key(Folder, 2), Key(Folder, 5), Key(Snippet, 5), Key(Snippet, 9);
    var t4: seq<Key> := [s9];
    var t3 := [s5] + t4;
    var t2 := [f5] + t3;
    var t1 := [f2] + t2;
    assert db.rows == [l] + t1;
    SelectHead(db, s9, [], q);
    assert [s9] + [] == t4;
    assert SelectFrom(db, t4, q) == Keep(db, q, s9);
    SelectHead(db, s5, t4, q);
    SelectHead(db, f5, t3, q);
    SelectHead(db, f2, t2, q);
    SelectHead(db, l, t1, q);
  }

  /** The listing of `q` over the five rows, given which rows it selects. */
  lemma ListFive(db: Db, q: Query, a: seq<Key>, b: seq<Key>, c: seq<Key>, d: seq<Key>, e: seq<Key>)
    requires db.rows == [Key(Language, 1), Key(Folder, 2), Key(Folder, 5), Key(Snippet, 5), Key(Snippet, 9)]
    requires Keep(db, q, Key(Language, 1)) == a && Keep(db, q, Key(Folder, 2)) == b
    requires Keep(db, q, Key(Folder, 5)) == c && Keep(db, q, Key(Snippet, 5)) == d
    requires Keep(db, q, Key(Snippet, 9)) == e
    ensures Select(db, q) == a + (b + (c + (d + e)))
  {
    SelectFive(db, q);
  }

  /** Language 1's top-level folders are 2 and 5. */
  lemma LanguageFolders(db: Db)
    requires SkipShape(db)
    ensures Select(db, InLanguage(Folder, 1)) == [Key(Folder, 2), Key(Folder, 5)]
  {
    var f2, f5 := Key(Folder, 2), Key(Folder, 5);
    ListFive(db, InLanguage(Folder, 1), [], [f2], [f5], [], []);
    assert [] + ([f2] + ([f5] + ([] + []))) == [f2, f5];
  }

  /** Language 1 has no top-level snippets. */
  lemma LanguageSnippets(db: Db)
    requires SkipShape(db)
    ensures Select(db, InLanguage(Snippet, 1)) == []
  {
    ListFive(db, InLanguage(Snippet, 1), [], [], [], [], []);
  }

  /** Language 1 holds folders 2 and 5, in that order. */
  lemma LanguageChildren(db: Db)
    requires SkipShape(db)
    ensures StageChildren(db, Key(Language, 1)) == [Key(Folder, 2), Key(Folder, 5)]
  {
    LanguageFolders(db);
    LanguageSnippets(db);
    assert [Key(Folder, 2), Key(Folder, 5)] + [] == [Key(Folder, 2), Key(Folder, 5)];
  }

  /** No folder lies inside folder `id`, for `id` 2 or 5. */
  lemma NoSubfolders(db: Db, id: nat)
    requires SkipShape(db) && (id == 2 || id == 5)
    ensures Select(db, InFolder(Folder, id)) == []
  {
    ListFive(db, InFolder(Folder, id), [], [], [], [], []);
  }

  /** Snippet 5 is the one snippet in folder 2. */
  lemma FolderTwoSnippets(db: Db)
    requires SkipShape(db)
    ensures Select(db, InFolder(Snippet, 2)) == [Key(Snippet, 5)]
  {
    var s5 := Key(Snippet, 5);
    ListFive(db, InFolder(Snippet, 2), [], [], [], [s5], []);
    assert [] + ([] + ([] + ([s5] + []))) == [s5];
  }

  /** Snippet 9 is the one snippet in folder 5. */
  lemma FolderFiveSnippets(db: Db)
    requires SkipShape(db)
    ensures Select(db, InFolder(Snippet, 5)) == [Key(Snippet, 9)]
  {
    var s9 := Key(Snippet, 9);
    ListFive(db, InFolder(Snippet, 5), [], [], [], [], [s9]);
    assert [] + ([] + ([] + ([] + [s9]))) == [s9];
  }

  /** Folder 2 holds snippet 5 only. */
  lemma FolderTwoChildren(db: Db)
    requires SkipShape(db)
    ensures StageChildren(db, Key(Folder, 2)) == [Key(Snippet, 5)]
  {
    NoSubfolders(db, 2);
    FolderTwoSnippets(db);
    assert [] + [Key(Snippet, 5)] == [Key(Snippet, 5)];
  }

  /** Folder 5 holds snippet 9 only. */
  lemma FolderFiveChildren(db: Db)
    requires SkipShape(db)
    ensures StageChildren(db, Key(Folder, 5)) == [Key(Snippet, 9)]
  {
    NoSubfolders(db, 5);
    FolderFiveSnippets(db);
    assert [] + [Key(Snippet, 9)] == [Key(Snippet, 9)];
  }

  /** Below snippet 5 there is nothing to list. */
  lemma WalkSnippetFive(db: Db)
    ensures LoadInto(db, BareId, Key(Snippet, 5), [2, 5]) == Walk([2, 5], [])
  {
  }

  /** The walk below folder 2 lists snippet 5. */
  lemma WalkFolderTwo(db: Db)
    requires StageChildren(db, Key(Folder, 2)) == [Key(Snippet, 5)]
    ensures LoadInto(db, BareId, Key(Folder, 2), [2]) == Walk([2, 5], [Key(Snippet, 5)])
  {
    var s5 := Key(Snippet, 5);
    WalkSnippetFive(db);
    assert [2] + [BareId(s5)] == [2, 5];
    assert [s5][1..] == [];
    assert LoadEach(db, BareId, [s5], [2]) == Walk([2, 5], [s5] + [] + []);
  }

  /** From language 1 the walk lists folder 2, then snippet 5, then skips folder 5. */
  lemma SkipWalk(db: Db)
    requires StageChildren(db, Key(Language, 1)) == [Key(Folder, 2), Key(Folder, 5)]
    requires StageChildren(db, Key(Folder, 2)) == [Key(Snippet, 5)]
    ensures GetDescendantIDList(db, Key(Language, 1)) == [2, 5]
  {
    var f2, f5 := Key(Folder, 2), Key(Folder, 5);
    WalkFolderTwo(db);
    assert [f5][1..] == [];
    assert LoadEach(db, BareId, [f5], [2, 5]) == Walk([2, 5], []);
    assert [f2, f5][1..] == [f5];
    assert [] + [BareId(f2)] == [2];
    assert LoadEach(db, BareId, [f2, f5], []).ids == [2, 5];
  }

  /**
   * On a store of that shape, snippet 9 lies below language 1, yet the walk
   * lists snippet 5's ID before it reaches folder 5, skips folder 5 because
   * its bare ID is already listed, and never reaches snippet 9;
   * deduplicating on whole keys lists it.
   */
  lemma BareIdSkipsSubtree(db: Db)
    requires SkipShape(db)
    ensures Key(Folder, 5) in StageChildren(db, Key(Language, 1))
    ensures Key(Snippet, 9) in StageChildren(db, Key(Folder, 5))
    ensures GetDescendantIDList(db, Key(Language, 1)) == [2, 5]
    ensures 9 in GetDescendantIDListByKey(db, Key(Language, 1))
  {
    LanguageChildren(db);
    FolderTwoChildren(db);
    FolderFiveChildren(db);
    SkipWalk(db);
    ByKeyComplete(db, Key(Language, 1));
  }
}
