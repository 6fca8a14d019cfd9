/**
 * The cycle validator (`validate`): when a saved node's LanguageID changes,
 * walk up the `Language()` relation from the node itself and report
 * INFINITE_LOOP if some node on the way names the saved node's ID as its
 * LanguageID.
 */
module Validator {
  import opened Wrappers
  import opened Store

  datatype ErrorCode = InfiniteLoop

  /** The node `j` hops up the `Language()` walk from `n` (0 hops: `n` itself). */
  function NodeAt(db: Db, n: Node, j: nat): Option<Node>
    decreases j
  {
    if j == 0 then Some(n)
    else match LanguageOf(db, n)
      case None => None
      case Some(p) => NodeAt(db, db.nodes[p], j - 1)
  }

  /** The walk reaches, after `j` hops, a node whose LanguageID is `ownerID`. */
  predicate HitsAt(db: Db, ownerID: nat, n: Node, j: nat) {
    NodeAt(db, n, j).Some? && NodeAt(db, n, j).value.languageID == ownerID
  }

  /** How the upward walk ends: on a node naming the owner, at the top, or out of fuel. */
  datatype Climb = Looped | Ended | Spun

  /** The source's `while ($node)` loop, given at most `fuel` hops. */
  function ClimbFrom(db: Db, ownerID: nat, n: Node, fuel: nat): Climb
    decreases fuel
  {
    if n.languageID == ownerID then Looped
    else match LanguageOf(db, n)
      case None => Ended
      case Some(p) => if fuel == 0 then Spun else ClimbFrom(db, ownerID, db.nodes[p], fuel - 1)
  }

  /** The loop reports a loop exactly when the walk hits the owner, and ends only when it never does. */
  lemma {:induction false} ClimbMeaning(db: Db, ownerID: nat, n: Node, fuel: nat)
    ensures ClimbFrom(db, ownerID, n, fuel) == Looped ==> exists j: nat :: HitsAt(db, ownerID, n, j)
    ensures ClimbFrom(db, ownerID, n, fuel) == Ended ==> forall j: nat :: !HitsAt(db, ownerID, n, j)
    decreases fuel
  {
    if n.languageID == ownerID {
      assert HitsAt(db, ownerID, n, 0);
    } else {
      match LanguageOf(db, n)
      case None =>
        forall j: nat ensures !HitsAt(db, ownerID, n, j) {
          if j > 0 { assert NodeAt(db, n, j) == None; } else { assert NodeAt(db, n, j) == Some(n); }
        }
      case Some(p) =>
        if fuel > 0 {
          var m := db.nodes[p];
          ClimbMeaning(db, ownerID, m, fuel - 1);
          if ClimbFrom(db, ownerID, m, fuel - 1) == Looped {
            var j: nat :| HitsAt(db, ownerID, m, j);
            assert NodeAt(db, n, j + 1) == NodeAt(db, m, j);
            assert HitsAt(db, ownerID, n, j + 1);
          } else if ClimbFrom(db, ownerID, m, fuel - 1) == Ended {
            forall j: nat ensures !HitsAt(db, ownerID, n, j) {
              if j > 0 {
                assert NodeAt(db, n, j) == NodeAt(db, m, j - 1);
                assert !HitsAt(db, ownerID, m, j - 1);
              } else {
                assert NodeAt(db, n, j) == Some(n);
              }
            }
          }
        }
    }
  }

  /** The check runs: the node is saved, has a language, and the language changed. */
  predicate Checked(ownerID: nat, n: Node, originalLanguageID: nat) {
    ownerID != 0 && n.languageID != 0 && n.languageID != originalLanguageID
  }

  /**
   * `validate` on the node `owner` with (new) record `n`, whose LanguageID
   * was `originalLanguageID` before the change. The walk must end (a cycle
   * not through the owner makes the source loop forever).
   */
  function Validate(db: Db, owner: Key, n: Node, originalLanguageID: nat): (r: Option<ErrorCode>)
    requires Checked(owner.id, n, originalLanguageID) ==> ClimbFrom(db, owner.id, n, |db.nodes|) != Spun
    ensures r.Some? <==> Checked(owner.id, n, originalLanguageID) && exists j: nat :: HitsAt(db, owner.id, n, j)
    ensures r.Some? ==> r.value == InfiniteLoop
    ensures Checked(owner.id, n, originalLanguageID) && n.languageID == owner.id ==> r == Some(InfiniteLoop)
  {
    if !Checked(owner.id, n, originalLanguageID) then None
    else
      ClimbMeaning(db, owner.id, n, |db.nodes|);
      if ClimbFrom(db, owner.id, n, |db.nodes|) == Looped then Some(InfiniteLoop) else None
  }
}
