/**
 The guard against recursion rejects exactly the attribute values whose references never end.
 */
module AttributeGuard {
  import opened Options
  import opened Utf8
  import opened AttributeValue
  import opened AttributeMeaning

  // The pieces of an entity's replacement text.
  function Inner(d: Document, name: text): Option<seq<Piece>>
  {
    match Replacement(d, name)
    case None => None
    case Some(replacement) => Pieces(replacement)
  }

  lemma UnfoldEntity(d: Document, k: nat, p: Piece)
    requires p.EntRef?
    ensures UnfoldPiece(d, k, p)
      == match Inner(d, p.name)
         case None => Failure
         case Some(ps) => if k == 0 then Failure else UnfoldPieces(d, k - 1, ps)
  {
    hide Pieces, Replacement;
  }

  lemma GuardedEntity(d: Document, stack: seq<text>, p: Piece)
    requires p.EntRef?
    ensures GuardedPiece(d, stack, p)
      == match Inner(d, p.name)
         case None => Failure
         case Some(ps) => if p.name in stack then Failure else GuardedPieces(d, stack + [p.name], ps)
  {
    hide Pieces, Replacement;
  }

  lemma SimplePiece(d: Document, stack: seq<text>, k: nat, p: Piece)
    requires !p.EntRef?
    ensures UnfoldPiece(d, k, p) == Simple(d, p) && GuardedPiece(d, stack, p) == Simple(d, p)
  {
  }

  lemma {:induction false} UnfoldDeeper(d: Document, j: nat, k: nat, ps: seq<Piece>)
    requires j <= k && UnfoldPieces(d, j, ps).Ok?
    ensures UnfoldPieces(d, k, ps) == UnfoldPieces(d, j, ps)
    decreases j, |ps|
  {
    if ps != [] {
      hide UnfoldPiece, Inner;
      if ps[0].EntRef? {
        UnfoldEntity(d, j, ps[0]);
        UnfoldEntity(d, k, ps[0]);
        UnfoldDeeper(d, j - 1, k - 1, Inner(d, ps[0].name).value);
      } else {
        SimplePiece(d, [], j, ps[0]);
        SimplePiece(d, [], k, ps[0]);
      }
      UnfoldDeeper(d, j, k, ps[1..]);
    }
  }

  // As deep as there are entities left is deep enough.
  lemma {:induction false} GuardedIsUnfolded(d: Document, stack: seq<text>, ps: seq<Piece>)
    requires GuardedPieces(d, stack, ps).Ok?
    ensures UnfoldPieces(d, Free(d, stack), ps) == GuardedPieces(d, stack, ps)
    decreases Free(d, stack), |ps|
  {
    if ps != [] {
      if ps[0].EntRef? {
        var name := ps[0].name;
        GuardedEntity(d, stack, ps[0]);
        UnfoldEntity(d, Free(d, stack), ps[0]);
        var inner := Inner(d, name).value;
        LessFree(d, stack, name);
        GuardedIsUnfolded(d, stack + [name], inner);
        UnfoldDeeper(d, Free(d, stack + [name]), Free(d, stack) - 1, inner);
      } else {
        SimplePiece(d, stack, Free(d, stack), ps[0]);
      }
      GuardedIsUnfolded(d, stack, ps[1..]);
    }
  }

  // The entity's replacement text ends when it is unfolded to the depth `k`.
  predicate EndsAt(d: Document, k: nat, name: text)
  {
    Inner(d, name).Some? && UnfoldPieces(d, k, Inner(d, name).value).Ok?
  }

  lemma {:induction false} LeastDepth(d: Document, k: nat, name: text) returns (j: nat)
    requires EndsAt(d, k, name)
    ensures j <= k && EndsAt(d, j, name) && forall i: nat :: i < j ==> !EndsAt(d, i, name)
  {
    if exists i: nat :: i < k && EndsAt(d, i, name) {
      var i: nat :| i < k && EndsAt(d, i, name);
      j := LeastDepth(d, i, name);
    } else {
      j := k;
    }
  }

  // An entity that takes at least the depth `k` does not turn up in what ends at that depth.
  lemma {:induction false} UnfoldedIsGuarded(d: Document, k: nat, stack: seq<text>, ps: seq<Piece>)
    requires UnfoldPieces(d, k, ps).Ok?
    requires forall name, j: nat :: name in stack && j < k ==> !EndsAt(d, j, name)
    ensures GuardedPieces(d, stack, ps) == UnfoldPieces(d, k, ps)
    decreases k, |ps|
  {
    if ps != [] {
      if ps[0].EntRef? {
        var name := ps[0].name;
        GuardedEntity(d, stack, ps[0]);
        UnfoldEntity(d, k, ps[0]);
        var inner := Inner(d, name).value;
        assert EndsAt(d, k - 1, name);
        var j := LeastDepth(d, k - 1, name);
        UnfoldDeeper(d, j, k - 1, inner);
        UnfoldedIsGuarded(d, j, stack + [name], inner);
      } else {
        SimplePiece(d, stack, k, ps[0]);
      }
      UnfoldedIsGuarded(d, k, stack, ps[1..]);
    }
  }

  /**
   Normalizing gives a result exactly when unfolding without a guard ends at some depth, and it
   gives that result.
   */
  lemma NormalizeIsUnfolding(d: Document, s: text, r: text)
    ensures Normalize(d, [], s) == Ok(r) <==> exists k: nat :: Unfold(d, k, s) == Ok(r)
  {
    ScanIsGuarded(d, [], s);
    if Normalize(d, [], s) == Ok(r) {
      GuardedIsUnfolded(d, [], Pieces(s).value);
      assert Unfold(d, Free(d, []), s) == Ok(r);
    }
    if k: nat :| Unfold(d, k, s) == Ok(r) {
      UnfoldedIsGuarded(d, k, [], Pieces(s).value);
    }
  }
}
