/** A value that an HTML lookup may or may not have found. */
module Options {
  datatype Option<+T> = None | Some(value: T)
}

/**
  The claim record that the extractor builds, the snapshot files store and
  the reconciler compares (main.py, the dictionary built at lines 50-61).
 */
module ClaimModel {

  /**
    One land claim. `balance` and `chunks` are kept as the cleaned strings
    the extractor feeds to `float` and `int`; `xs` and `zs` are the two
    lists of the `coordinates` object.
   */
  datatype Claim = Claim(
    id: string,
    name: string,
    balance: string,
    chunks: string,
    players: string,
    xs: seq<int>,
    zs: seq<int>,
    url: string)

  /** Python `==` on two `coordinates` objects: both lists, element by element, in order. */
  predicate SameCoordinates(a: Claim, b: Claim) {
    a.xs == b.xs && a.zs == b.zs
  }

  /** The ids that occur in a list of claims (the keys of the dict built from it). */
  function IdSet(s: seq<Claim>): set<string> {
    set c | c in s :: c.id
  }

  /** No id occurs twice. */
  predicate DistinctIds(s: seq<Claim>) {
    forall i, j :: 0 <= i < j < |s| ==> s[i].id != s[j].id
  }

  /** `idx` picks, in strictly increasing positions of `b`, the elements of `a`. */
  predicate IsEmbedding(idx: seq<nat>, a: seq<Claim>, b: seq<Claim>) {
    && |idx| == |a|
    && (forall i :: 0 <= i < |idx| ==> idx[i] < |b| && a[i] == b[idx[i]])
    && (forall i, j :: 0 <= i < j < |idx| ==> idx[i] < idx[j])
  }

  /** `a` is obtained from `b` by deleting elements, keeping the order of the rest. */
  ghost predicate IsSubsequence(a: seq<Claim>, b: seq<Claim>) {
    exists idx: seq<nat> :: IsEmbedding(idx, a, b)
  }


  /** Appending a claim adds its id. */
  lemma IdSetOfAppend(t: seq<Claim>, c: Claim)
    ensures IdSet(t + [c]) == IdSet(t) + {c.id}
  {
    var s := t + [c];
    assert forall x :: x in s <==> x in t || x == c;
  }

  /** With distinct ids there are exactly as many ids as claims. */
  lemma {:induction false} DistinctIdsCount(s: seq<Claim>)
    requires DistinctIds(s)
    ensures |IdSet(s)| == |s|
  {
    if |s| > 0 {
      var t := s[..|s| - 1];
      var c := s[|s| - 1];
      assert s == t + [c];
      IdSetOfAppend(t, c);
      assert c.id !in IdSet(t) by {
        forall x | x in t ensures x.id != c.id {
          var k :| 0 <= k < |t| && t[k] == x;
          assert s[k] == x;
        }
      }
      assert DistinctIds(t);
      DistinctIdsCount(t);
    }
  }
}
