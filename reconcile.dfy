/**
  The snapshot reconciler `compare_claims` (main.py:76-98): given an older
  and a newer list of claims it reports the claims that disappeared and the
  ones that appeared. An older claim whose id is gone is still not reported
  as removed when some claim of the newer dict has exactly its coordinates
  (a renamed or re-numbered claim). The added side does no such check.
 */
module Reconciler {
  import opened ClaimModel
  import opened KeyedClaims

  /** An entry of the older dict that counts as removed against the newer dict. */
  predicate Vanished(c: Claim, newDict: seq<Claim>) {
    && c.id !in IdSet(newDict)
    && forall k :: 0 <= k < |newDict| ==> !SameCoordinates(c, newDict[k])
  }

  /** The entries of `oldDict`, in order, that vanished from `newDict`. */
  function RemovedFrom(oldDict: seq<Claim>, newDict: seq<Claim>): seq<Claim>
    decreases |oldDict|
  {
    if |oldDict| == 0 then []
    else
      var c := oldDict[|oldDict| - 1];
      RemovedFrom(oldDict[..|oldDict| - 1], newDict) + (if Vanished(c, newDict) then [c] else [])
  }

  /** The entries of `newDict`, in order, whose id is not among `oldIds`. */
  function AddedFrom(newDict: seq<Claim>, oldIds: set<string>): seq<Claim>
    decreases |newDict|
  {
    if |newDict| == 0 then []
    else
      var c := newDict[|newDict| - 1];
      AddedFrom(newDict[..|newDict| - 1], oldIds) + (if c.id !in oldIds then [c] else [])
  }

  /** The first list `compare_claims(oldClaims, newClaims)` returns. */
  function Removed(oldClaims: seq<Claim>, newClaims: seq<Claim>): seq<Claim> {
    RemovedFrom(ById(oldClaims), ById(newClaims))
  }

  /** The second list `compare_claims(oldClaims, newClaims)` returns. */
  function Added(oldClaims: seq<Claim>, newClaims: seq<Claim>): seq<Claim> {
    AddedFrom(ById(newClaims), IdSet(ById(oldClaims)))
  }

  /**
    `compare_claims`: build both dicts, then compare them.
   */
  method Reconcile(oldClaims: seq<Claim>, newClaims: seq<Claim>)
    returns (removed: seq<Claim>, added: seq<Claim>)
    ensures removed == Removed(oldClaims, newClaims)
    ensures added == Added(oldClaims, newClaims)
  {
    var oldDict := ById(oldClaims);
    var newDict := ById(newClaims);
    removed, added := CompareDicts(oldDict, newDict);
  }

  /**
    The two loops of `compare_claims`: scan the older dict, looking for a
    coordinate match in the newer one (stopping at the first) for each id that
    is gone; then scan the newer dict for ids the older one lacks.
   */
  method CompareDicts(oldDict: seq<Claim>, newDict: seq<Claim>)
    returns (removed: seq<Claim>, added: seq<Claim>)
    ensures removed == RemovedFrom(oldDict, newDict)
    ensures added == AddedFrom(newDict, IdSet(oldDict))
  {
    var newIds := IdSet(newDict);
    var oldIds := IdSet(oldDict);
    removed := [];
    added := [];

    var i := 0;
    while i < |oldDict|
      invariant 0 <= i <= |oldDict|
      invariant removed == RemovedFrom(oldDict[..i], newDict)
    {
      var oldClaim := oldDict[i];
      assert RemovedFrom(oldDict[..i + 1], newDict)
          == removed + (if Vanished(oldClaim, newDict) then [oldClaim] else []) by {
        assert oldDict[..i + 1][..i] == oldDict[..i];
      }
      if oldClaim.id !in newIds {
        var coordinatesMatch := false;
        var j := 0;
        while j < |newDict|
          invariant 0 <= j <= |newDict|
          invariant !coordinatesMatch
          invariant forall k :: 0 <= k < j ==> !SameCoordinates(oldClaim, newDict[k])
        {
          if SameCoordinates(oldClaim, newDict[j]) {
            coordinatesMatch := true;
            break;
          }
          j := j + 1;
        }
        assert !coordinatesMatch <==> Vanished(oldClaim, newDict);
        if !coordinatesMatch {
          removed := removed + [oldClaim];
        }
      }
      i := i + 1;
    }
    assert oldDict[..i] == oldDict;

    i := 0;
    while i < |newDict|
      invariant 0 <= i <= |newDict|
      invariant added == AddedFrom(newDict[..i], oldIds)
    {
      var newClaim := newDict[i];
      assert AddedFrom(newDict[..i + 1], oldIds)
          == added + (if newClaim.id !in oldIds then [newClaim] else []) by {
        assert newDict[..i + 1][..i] == newDict[..i];
      }
      if newClaim.id !in oldIds {
        added := added + [newClaim];
      }
      i := i + 1;
    }
    assert newDict[..i] == newDict;
  }

  /** A claim is in `RemovedFrom` exactly when it is an entry of the older dict that vanished. */
  lemma {:induction false} RemovedFromMembers(oldDict: seq<Claim>, newDict: seq<Claim>)
    ensures forall c :: c in RemovedFrom(oldDict, newDict) <==> c in oldDict && Vanished(c, newDict)
    decreases |oldDict|
  {
    if |oldDict| > 0 {
      var t := oldDict[..|oldDict| - 1];
      assert oldDict == t + [oldDict[|oldDict| - 1]];
      RemovedFromMembers(t, newDict);
    }
  }

  /** A claim is in `AddedFrom` exactly when it is an entry of the newer dict with an id the older one lacks. */
  lemma {:induction false} AddedFromMembers(newDict: seq<Claim>, oldIds: set<string>)
    ensures forall c :: c in AddedFrom(newDict, oldIds) <==> c in newDict && c.id !in oldIds
    decreases |newDict|
  {
    if |newDict| > 0 {
      var t := newDict[..|newDict| - 1];
      assert newDict == t + [newDict[|newDict| - 1]];
      AddedFromMembers(t, oldIds);
    }
  }

  /**
    Soundness of removal: a removed claim is the entry the older dict holds for its
    id (the last claim with that id in the older list), its id is absent from the
    newer list, and no entry of the newer dict has its coordinates.
   */
  lemma RemovedIsSound(oldClaims: seq<Claim>, newClaims: seq<Claim>, c: Claim)
    requires c in Removed(oldClaims, newClaims)
    ensures c.id in IdSet(oldClaims) && c == oldClaims[LastIndexOf(oldClaims, c.id)]
    ensures c.id !in IdSet(newClaims)
    ensures forall n :: n in ById(newClaims) ==> !SameCoordinates(c, n)
  {
    RemovedFromMembers(ById(oldClaims), ById(newClaims));
    ByIdIsDict(oldClaims);
    ByIdIsDict(newClaims);
  }

  /**
    Completeness of removal: the entry the older dict holds for an id that the
    newer list lacks is removed when no entry of the newer dict has its coordinates.
   */
  lemma RemovedIsComplete(oldClaims: seq<Claim>, newClaims: seq<Claim>, c: Claim)
    requires c in oldClaims && c == oldClaims[LastIndexOf(oldClaims, c.id)]
    requires c.id !in IdSet(newClaims)
    requires forall n :: n in ById(newClaims) ==> !SameCoordinates(c, n)
    ensures c in Removed(oldClaims, newClaims)
  {
    RemovedFromMembers(ById(oldClaims), ById(newClaims));
    ByIdIsDict(oldClaims);
    ByIdIsDict(newClaims);
    var newDict := ById(newClaims);
    assert forall k :: 0 <= k < |newDict| ==> newDict[k] in newDict;
  }

  /**
    The added claims are exactly the entries of the newer dict whose id the older
    list lacks, whatever their coordinates.
   */
  lemma AddedIsExact(oldClaims: seq<Claim>, newClaims: seq<Claim>, c: Claim)
    ensures c in Added(oldClaims, newClaims) <==> c in ById(newClaims) && c.id !in IdSet(oldClaims)
  {
    AddedFromMembers(ById(newClaims), IdSet(ById(oldClaims)));
    ByIdIsDict(oldClaims);
  }

  /** An entry of the older dict that is missing from the newer one, but whose polygon a newer entry has, is not removed. */
  lemma CoordinateMatchSuppressesRemoval(oldClaims: seq<Claim>, newClaims: seq<Claim>, c: Claim, n: Claim)
    requires n in ById(newClaims) && SameCoordinates(c, n)
    ensures c !in Removed(oldClaims, newClaims)
  {
    RemovedFromMembers(ById(oldClaims), ById(newClaims));
    var newDict := ById(newClaims);
    var k :| 0 <= k < |newDict| && newDict[k] == n;
  }

  /** Nothing vanishes when every id of the older dict is still present. */
  lemma {:induction false} NothingVanishes(oldDict: seq<Claim>, newDict: seq<Claim>)
    requires forall k :: 0 <= k < |oldDict| ==> oldDict[k].id in IdSet(newDict)
    ensures RemovedFrom(oldDict, newDict) == []
    decreases |oldDict|
  {
    if |oldDict| > 0 {
      NothingVanishes(oldDict[..|oldDict| - 1], newDict);
    }
  }

  /** Nothing is added when every id of the newer dict was already present. */
  lemma {:induction false} NothingAppears(newDict: seq<Claim>, oldIds: set<string>)
    requires forall k :: 0 <= k < |newDict| ==> newDict[k].id in oldIds
    ensures AddedFrom(newDict, oldIds) == []
    decreases |newDict|
  {
    if |newDict| > 0 {
      NothingAppears(newDict[..|newDict| - 1], oldIds);
    }
  }

  /** Reconciling a snapshot with itself reports nothing removed and nothing added. */
  lemma ReconcileSelfIsEmpty(s: seq<Claim>)
    ensures Removed(s, s) == []
    ensures Added(s, s) == []
  {
    var d := ById(s);
    assert forall k :: 0 <= k < |d| ==> d[k].id in IdSet(d) by {
      forall k | 0 <= k < |d| ensures d[k].id in IdSet(d) {
        assert d[k] in d;
      }
    }
    NothingVanishes(d, d);
    NothingAppears(d, IdSet(d));
  }

  /** `RemovedFrom` keeps a subset of the older dict's entries, in their order. */
  lemma {:induction false} RemovedFromEmbeds(oldDict: seq<Claim>, newDict: seq<Claim>) returns (idx: seq<nat>)
    ensures IsEmbedding(idx, RemovedFrom(oldDict, newDict), oldDict)
    decreases |oldDict|
  {
    if |oldDict| == 0 {
      idx := [];
    } else {
      var t := oldDict[..|oldDict| - 1];
      var c := oldDict[|oldDict| - 1];
      var rest := RemovedFromEmbeds(t, newDict);
      var r := RemovedFrom(t, newDict);
      assert forall i :: 0 <= i < |rest| ==> rest[i] < |t| && r[i] == oldDict[rest[i]];
      if Vanished(c, newDict) {
        idx := rest + [|t|];
        assert RemovedFrom(oldDict, newDict) == r + [c];
      } else {
        idx := rest;
        assert RemovedFrom(oldDict, newDict) == r;
      }
    }
  }

  /** `AddedFrom` keeps a subset of the newer dict's entries, in their order. */
  lemma {:induction false} AddedFromEmbeds(newDict: seq<Claim>, oldIds: set<string>) returns (idx: seq<nat>)
    ensures IsEmbedding(idx, AddedFrom(newDict, oldIds), newDict)
    decreases |newDict|
  {
    if |newDict| == 0 {
      idx := [];
    } else {
      var t := newDict[..|newDict| - 1];
      var c := newDict[|newDict| - 1];
      var rest := AddedFromEmbeds(t, oldIds);
      var r := AddedFrom(t, oldIds);
      assert forall i :: 0 <= i < |rest| ==> rest[i] < |t| && r[i] == newDict[rest[i]];
      if c.id !in oldIds {
        idx := rest + [|t|];
        assert AddedFrom(newDict, oldIds) == r + [c];
      } else {
        idx := rest;
        assert AddedFrom(newDict, oldIds) == r;
      }
    }
  }

  /** An embedding into `b` picks no more elements than `b` has. */
  lemma {:induction false} EmbeddingIsShorter(idx: seq<nat>, a: seq<Claim>, b: seq<Claim>)
    requires IsEmbedding(idx, a, b)
    ensures |a| <= |b|
    decreases |idx|
  {
    if |idx| > 0 {
      var n := |idx| - 1;
      forall i | 0 <= i < n ensures idx[i] < idx[n] {}
      assert idx[n] < |b|;
      var b' := b[..idx[n]];
      assert IsEmbedding(idx[..n], a[..n], b');
      EmbeddingIsShorter(idx[..n], a[..n], b');
    }
  }

  /**
    Both reported lists keep their dict's order: `removed` is a subsequence of the
    older dict and `added` of the newer one, so neither is longer than the number
    of distinct ids on its side.
   */
  lemma ReconcilePreservesOrder(oldClaims: seq<Claim>, newClaims: seq<Claim>)
    ensures IsSubsequence(Removed(oldClaims, newClaims), ById(oldClaims))
    ensures IsSubsequence(Added(oldClaims, newClaims), ById(newClaims))
    ensures |Removed(oldClaims, newClaims)| <= |IdSet(oldClaims)|
    ensures |Added(oldClaims, newClaims)| <= |IdSet(newClaims)|
  {
    var ri := RemovedFromEmbeds(ById(oldClaims), ById(newClaims));
    var ai := AddedFromEmbeds(ById(newClaims), IdSet(ById(oldClaims)));
    EmbeddingIsShorter(ri, Removed(oldClaims, newClaims), ById(oldClaims));
    EmbeddingIsShorter(ai, Added(oldClaims, newClaims), ById(newClaims));
    ByIdSize(oldClaims);
    ByIdSize(newClaims);
  }

  /** Every entry vanishes when no id and no polygon of the older dict is found in the newer one. */
  lemma {:induction false} AllVanish(oldDict: seq<Claim>, newDict: seq<Claim>)
    requires forall k :: 0 <= k < |oldDict| ==> Vanished(oldDict[k], newDict)
    ensures RemovedFrom(oldDict, newDict) == oldDict
    decreases |oldDict|
  {
    if |oldDict| > 0 {
      var t := oldDict[..|oldDict| - 1];
      AllVanish(t, newDict);
      assert oldDict == t + [oldDict[|oldDict| - 1]];
    }
  }

  /** Every entry is added when the older ids are disjoint from the newer dict's. */
  lemma {:induction false} AllAppear(newDict: seq<Claim>, oldIds: set<string>)
    requires forall k :: 0 <= k < |newDict| ==> newDict[k].id !in oldIds
    ensures AddedFrom(newDict, oldIds) == newDict
    decreases |newDict|
  {
    if |newDict| > 0 {
      var t := newDict[..|newDict| - 1];
      AllAppear(t, oldIds);
      assert newDict == t + [newDict[|newDict| - 1]];
    }
  }

  /**
    Snapshots that share no id and no polygon: every older entry is removed and
    every newer entry is added.
   */
  lemma DisjointSnapshots(oldClaims: seq<Claim>, newClaims: seq<Claim>)
    requires IdSet(oldClaims) !! IdSet(newClaims)
    requires forall o, n :: o in oldClaims && n in newClaims ==> !SameCoordinates(o, n)
    ensures Removed(oldClaims, newClaims) == ById(oldClaims)
    ensures Added(oldClaims, newClaims) == ById(newClaims)
  {
    var oldDict, newDict := ById(oldClaims), ById(newClaims);
    ByIdIsDict(oldClaims);
    ByIdIsDict(newClaims);
    forall k | 0 <= k < |oldDict| ensures Vanished(oldDict[k], newDict) {
      var o := oldDict[k];
      assert o in oldDict;
      assert o in oldClaims;
      forall m | 0 <= m < |newDict| ensures !SameCoordinates(o, newDict[m]) {
        assert newDict[m] in newDict;
        assert newDict[m] in newClaims;
      }
    }
    AllVanish(oldDict, newDict);
    forall k | 0 <= k < |newDict| ensures newDict[k].id !in IdSet(oldDict) {
      assert newDict[k] in newDict;
    }
    AllAppear(newDict, IdSet(oldDict));
  }

  /**
    A rename: the older snapshot holds `a`, the newer holds `b` with another id and the
    same polygon. Nothing is removed, and `b` is still reported as added.
   */
  lemma RenamedClaimIsOnlyAdded(a: Claim, b: Claim)
    requires a.id != b.id && SameCoordinates(a, b)
    ensures Removed([a], [b]) == []
    ensures Added([a], [b]) == [b]
  {
    assert ById([a]) == [a];
    assert ById([b]) == [b];
    assert [a][..0] == [] && [b][..0] == [];
    assert IdSet([a]) == {a.id};
    assert !Vanished(a, [b]);
    assert RemovedFrom([], [b]) == [];
    assert RemovedFrom([a], [b]) == [];
    assert AddedFrom([], {a.id}) == [];
    assert AddedFrom([b], {a.id}) == [b];
  }

  /** A claim that is in the older snapshot and not in an empty newer one is removed; nothing is added. */
  lemma ClaimRemovedFromEmptySnapshot(c: Claim)
    ensures Removed([c], []) == [c]
    ensures Added([c], []) == []
  {
    assert ById([c]) == [c];
    assert [c][..0] == [];
    assert Vanished(c, []);
    assert RemovedFrom([], []) == [];
    assert RemovedFrom([c], []) == [c];
    assert ById([]) == [];
  }

  /**
    With repeated ids the newer dict keeps only the last claim for each id, and only
    that one is matched against: here `b1`, which has `a`'s polygon but is replaced by
    `b2` under the same id, does not keep `a` from being removed.
   */
  lemma ReplacedEntryIsNotMatched(a: Claim, b1: Claim, b2: Claim)
    requires b1.id == b2.id && a.id != b1.id
    requires SameCoordinates(a, b1) && !SameCoordinates(a, b2)
    ensures Removed([a], [b1, b2]) == [a]
    ensures Added([a], [b1, b2]) == [b2]
  {
    ByIdOfDistinct([a]);
    ByIdOfOverwrite(b1, b2);
    assert IdSet([b2]) == {b2.id};
    assert IdSet([a]) == {a.id};
    assert [a][..0] == [] && [b2][..0] == [];
    assert Vanished(a, [b2]);
    assert RemovedFrom([], [b2]) == [];
    assert RemovedFrom([a], [b2]) == [a];
    assert AddedFrom([], {a.id}) == [];
    assert AddedFrom([b2], {a.id}) == [b2];
  }

  /**
    With distinct ids on both sides the dicts are the lists themselves: a claim is
    removed exactly when its id and its polygon are both missing from the newer
    list, and added exactly when its id is missing from the older list.
   */
  lemma ReconcileDistinctIds(oldClaims: seq<Claim>, newClaims: seq<Claim>, c: Claim)
    requires DistinctIds(oldClaims) && DistinctIds(newClaims)
    ensures c in Removed(oldClaims, newClaims) <==>
              c in oldClaims && c.id !in IdSet(newClaims) && forall n :: n in newClaims ==> !SameCoordinates(c, n)
    ensures c in Added(oldClaims, newClaims) <==> c in newClaims && c.id !in IdSet(oldClaims)
  {
    ByIdOfDistinct(oldClaims);
    ByIdOfDistinct(newClaims);
    RemovedFromMembers(oldClaims, newClaims);
    AddedFromMembers(newClaims, IdSet(oldClaims));
    assert forall k :: 0 <= k < |newClaims| ==> newClaims[k] in newClaims;
  }
}
