/**
  The dict comprehension `{claim['id']: claim for claim in claims}` of
  main.py:77-78. A Python dict iterates in insertion order; assigning to a key
  that is already present replaces its value but keeps its position. So the
  dict built from a list holds one entry per distinct id, in the order in
  which the ids first occur, and each entry is the LAST claim with that id.
  The dict is represented by its entries, in iteration order.
 */
module KeyedClaims {
  import opened ClaimModel

  /** Position of the first claim of `s` whose id is `id`, or `|s|` when there is none. */
  function PositionOf(s: seq<Claim>, id: string): (r: nat)
    ensures r <= |s|
    ensures r < |s| ==> s[r].id == id
    ensures forall k :: 0 <= k < r ==> s[k].id != id
    decreases |s|
  {
    if |s| == 0 then 0
    else if s[0].id == id then 0
    else 1 + PositionOf(s[1..], id)
  }

  /** Position of the last claim of `s` whose id is `id`. */
  function LastIndexOf(s: seq<Claim>, id: string): (r: nat)
    requires id in IdSet(s)
    ensures r < |s| && s[r].id == id
    ensures forall k :: r < k < |s| ==> s[k].id != id
    decreases |s|
  {
    if s[|s| - 1].id == id then |s| - 1
    else
      assert id in IdSet(s[..|s| - 1]) by {
        var c :| c in s && c.id == id;
        var k :| 0 <= k < |s| && s[k] == c;
        assert s[..|s| - 1][k] == c;
      }
      LastIndexOf(s[..|s| - 1], id)
  }

  /** `d[c['id']] = c` on a dict given by its entries. */
  function Put(d: seq<Claim>, c: Claim): seq<Claim> {
    var p := PositionOf(d, c.id);
    if p < |d| then d[p := c] else d + [c]
  }

  /** The entries, in iteration order, of `{claim['id']: claim for claim in s}`. */
  function ById(s: seq<Claim>): seq<Claim>
    decreases |s|
  {
    if |s| == 0 then [] else Put(ById(s[..|s| - 1]), s[|s| - 1])
  }

  /** Assigning a key keeps the keys distinct, adds the key, and replaces exactly the old entry for it. */
  lemma PutSpec(d: seq<Claim>, c: Claim)
    requires DistinctIds(d)
    ensures DistinctIds(Put(d, c))
    ensures IdSet(Put(d, c)) == IdSet(d) + {c.id}
    ensures forall x :: x in Put(d, c) <==> x == c || (x in d && x.id != c.id)
  {
    var p := PositionOf(d, c.id);
    if p < |d| {
      var r := d[p := c];
      assert r[p] == c;
      forall x ensures x in r <==> x == c || (x in d && x.id != c.id) {
        if x in r && x != c {
          var k :| 0 <= k < |r| && r[k] == x;
          assert k != p && d[k] == x;
        }
        if x in d && x.id != c.id {
          var k :| 0 <= k < |d| && d[k] == x;
          assert k != p && r[k] == x;
        }
      }
      assert IdSet(r) == IdSet(d) + {c.id} by {
        forall id | id in IdSet(d) ensures id in IdSet(r) {
          var x :| x in d && x.id == id;
          if x.id != c.id { assert x in r; } else { assert c in r; }
        }
        assert c in r;
      }
    } else {
      var r := d + [c];
      assert forall k :: 0 <= k < |r| ==> r[k] == if k < |d| then d[k] else c;
    }
  }

  /** Extending a list does not move the first occurrence of an id it already had. */
  lemma PositionOfExtend(t: seq<Claim>, c: Claim, id: string)
    requires id in IdSet(t)
    ensures PositionOf(t + [c], id) == PositionOf(t, id) < |t|
  {
    var s := t + [c];
    var x :| x in t && x.id == id;
    var k :| 0 <= k < |t| && t[k] == x;
    var p := PositionOf(t, id);
    assert p <= k;
    var q := PositionOf(s, id);
    assert s[p] == t[p];
    assert q <= p;
    assert s[q] == t[q];
  }

  /** An id that first appears with the appended claim first occurs at the end. */
  lemma PositionOfNew(t: seq<Claim>, c: Claim)
    requires c.id !in IdSet(t)
    ensures PositionOf(t + [c], c.id) == |t|
    ensures PositionOf(t, c.id) == |t|
  {
    var s := t + [c];
    forall k | 0 <= k < |t| ensures t[k].id != c.id && s[k] == t[k] {
      assert t[k] in t;
    }
    assert s[|t|] == c;
  }

  /**
    The dict built from `s` has distinct keys, exactly the ids of `s`, and
    each entry is the last claim of `s` that has its id.
   */
  lemma {:induction false} ByIdIsDict(s: seq<Claim>)
    ensures DistinctIds(ById(s))
    ensures IdSet(ById(s)) == IdSet(s)
    ensures forall x :: x in ById(s) <==> x.id in IdSet(s) && x == s[LastIndexOf(s, x.id)]
    decreases |s|
  {
    if |s| > 0 {
      var t := s[..|s| - 1];
      var c := s[|s| - 1];
      assert s == t + [c];
      var d := ById(t);
      ByIdIsDict(t);
      PutSpec(d, c);
      assert IdSet(s) == IdSet(t) + {c.id};
      forall x ensures x in ById(s) <==> x.id in IdSet(s) && x == s[LastIndexOf(s, x.id)] {
        if x.id == c.id {
          assert LastIndexOf(s, x.id) == |s| - 1;
        } else if x.id in IdSet(t) {
          assert LastIndexOf(s, x.id) == LastIndexOf(t, x.id);
        } else {
          assert x.id !in IdSet(d);
        }
      }
    }
  }

  /** The entries of `d` follow the order in which their ids first occur in `s`. */
  ghost predicate InFirstOccurrenceOrder(d: seq<Claim>, s: seq<Claim>) {
    forall i, j :: 0 <= i < j < |d| ==> PositionOf(s, d[i].id) < PositionOf(s, d[j].id)
  }

  /** Appending to `t` moves none of the first occurrences of the ids of `d`. */
  lemma ExtendKeepsPositions(d: seq<Claim>, t: seq<Claim>, c: Claim)
    requires IdSet(d) == IdSet(t)
    ensures forall i :: 0 <= i < |d| ==> PositionOf(t + [c], d[i].id) == PositionOf(t, d[i].id) < |t|
  {
    forall i | 0 <= i < |d| ensures PositionOf(t + [c], d[i].id) == PositionOf(t, d[i].id) < |t| {
      assert d[i] in d;
      PositionOfExtend(t, c, d[i].id);
    }
  }

  /** One more assignment keeps the dict's entries in first-occurrence order. */
  lemma PutKeepsOrder(d: seq<Claim>, t: seq<Claim>, c: Claim)
    requires DistinctIds(d) && IdSet(d) == IdSet(t)
    requires InFirstOccurrenceOrder(d, t)
    ensures InFirstOccurrenceOrder(Put(d, c), t + [c])
  {
    ExtendKeepsPositions(d, t, c);
    if PositionOf(d, c.id) < |d| {
      ReplaceKeepsOrder(d, t, c);
    } else {
      AppendKeepsOrder(d, t, c);
    }
  }

  /** Replacing the entry of a present id keeps every entry's key, and so the order. */
  lemma ReplaceKeepsOrder(d: seq<Claim>, t: seq<Claim>, c: Claim)
    requires PositionOf(d, c.id) < |d|
    requires InFirstOccurrenceOrder(d, t)
    requires forall i :: 0 <= i < |d| ==> PositionOf(t + [c], d[i].id) == PositionOf(t, d[i].id)
    ensures InFirstOccurrenceOrder(d[PositionOf(d, c.id) := c], t + [c])
  {
    var r := d[PositionOf(d, c.id) := c];
    forall i, j | 0 <= i < j < |r| ensures PositionOf(t + [c], r[i].id) < PositionOf(t + [c], r[j].id) {
      assert r[i].id == d[i].id && r[j].id == d[j].id;
    }
  }

  /** A new id goes last, after every id already present. */
  lemma AppendKeepsOrder(d: seq<Claim>, t: seq<Claim>, c: Claim)
    requires PositionOf(d, c.id) == |d| && IdSet(d) == IdSet(t)
    requires InFirstOccurrenceOrder(d, t)
    requires forall i :: 0 <= i < |d| ==> PositionOf(t + [c], d[i].id) == PositionOf(t, d[i].id) < |t|
    ensures InFirstOccurrenceOrder(d + [c], t + [c])
  {
    assert c.id !in IdSet(t) by {
      forall x | x in d ensures x.id != c.id {
        var k :| 0 <= k < |d| && d[k] == x;
      }
    }
    PositionOfNew(t, c);
    LastKeyGoesLast(d, t + [c], c, |t|);
  }

  /** Ordered entries followed by one whose key first occurs after all of theirs stay ordered. */
  lemma LastKeyGoesLast(d: seq<Claim>, s: seq<Claim>, c: Claim, n: nat)
    requires InFirstOccurrenceOrder(d, s)
    requires forall i :: 0 <= i < |d| ==> PositionOf(s, d[i].id) < n
    requires PositionOf(s, c.id) == n
    ensures InFirstOccurrenceOrder(d + [c], s)
  {
    var r := d + [c];
    forall i, j | 0 <= i < j < |r| ensures PositionOf(s, r[i].id) < PositionOf(s, r[j].id) {
      assert r[i] == d[i];
      if j < |d| {
        assert r[j] == d[j];
      }
    }
  }

  /** The dict's entries follow the order in which their ids first occur in `s`. */
  lemma {:induction false} ByIdOrder(s: seq<Claim>)
    ensures InFirstOccurrenceOrder(ById(s), s)
    decreases |s|
  {
    if |s| > 0 {
      var t := s[..|s| - 1];
      assert s == t + [s[|s| - 1]];
      ByIdOrder(t);
      ByIdIsDict(t);
      PutKeepsOrder(ById(t), t, s[|s| - 1]);
    }
  }

  /** When the ids are already distinct, the dict holds the list itself, in order. */
  lemma {:induction false} ByIdOfDistinct(s: seq<Claim>)
    requires DistinctIds(s)
    ensures ById(s) == s
    decreases |s|
  {
    if |s| > 0 {
      var t := s[..|s| - 1];
      var c := s[|s| - 1];
      assert s == t + [c];
      assert DistinctIds(t);
      ByIdOfDistinct(t);
      assert c.id !in IdSet(t) by {
        forall k | 0 <= k < |t| ensures t[k].id != c.id {
          assert s[k] == t[k];
        }
      }
      PositionOfNew(t, c);
    }
  }

  /** Two claims with one id make a dict holding the second only. */
  lemma ByIdOfOverwrite(b1: Claim, b2: Claim)
    requires b1.id == b2.id
    ensures ById([b1, b2]) == [b2]
  {
    assert [b1, b2][..1] == [b1] && [b1][..0] == [];
    assert ById([b1]) == [b1] by {
      assert PositionOf([], b1.id) == 0;
    }
    assert PositionOf([b1], b2.id) == 0;
  }

  /** The dict has as many entries as the list has distinct ids, and no more than the list has claims. */
  lemma ByIdSize(s: seq<Claim>)
    ensures |ById(s)| == |IdSet(s)| <= |s|
  {
    ByIdIsDict(s);
    DistinctIdsCount(ById(s));
    IdSetSize(s);
  }

  /** A list has no more distinct ids than claims. */
  lemma {:induction false} IdSetSize(s: seq<Claim>)
    ensures |IdSet(s)| <= |s|
    decreases |s|
  {
    if |s| > 0 {
      var t := s[..|s| - 1];
      assert s == t + [s[|s| - 1]];
      assert IdSet(s) == IdSet(t) + {s[|s| - 1].id};
      IdSetSize(t);
    }
  }
}
