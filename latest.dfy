/**
  `get_latest_log_files` (main.py:100-105): of the names in the log folder it
  keeps those ending in `.json`, sorts them in descending string order and
  returns the first two, or reports that there are fewer than two. The folder
  listing is a parameter here: `files` stands for `os.listdir(log_folder)`.
 */
module SnapshotSelection {

  /** `f.endswith('.json')`. */
  predicate EndsWithJson(f: string) {
    |f| >= 5 && f[|f| - 5..] == ".json"
  }

  /** `[f for f in files if f.endswith('.json')]`: every `.json` name, as often as it is listed, and nothing else. */
  function JsonNames(files: seq<string>): (r: seq<string>)
    ensures forall f :: multiset(r)[f] == if EndsWithJson(f) then multiset(files)[f] else 0
    decreases |files|
  {
    if files == [] then []
    else
      assert files == [files[0]] + files[1..];
      (if EndsWithJson(files[0]) then [files[0]] else []) + JsonNames(files[1..])
  }

  /** Python's `a <= b` on strings: code point by code point, a proper prefix coming first. */
  predicate LexLe(a: string, b: string)
    decreases |a|
  {
    |a| == 0 || (|b| > 0 && (a[0] < b[0] || (a[0] == b[0] && LexLe(a[1..], b[1..]))))
  }

  lemma {:induction false} LexLeReflexive(a: string)
    ensures LexLe(a, a)
    decreases |a|
  {
    if |a| > 0 {
      LexLeReflexive(a[1..]);
    }
  }

  lemma {:induction false} LexLeTotal(a: string, b: string)
    ensures LexLe(a, b) || LexLe(b, a)
    decreases |a|
  {
    if |a| > 0 && |b| > 0 && a[0] == b[0] {
      LexLeTotal(a[1..], b[1..]);
    }
  }

  lemma {:induction false} LexLeAntisymmetric(a: string, b: string)
    requires LexLe(a, b) && LexLe(b, a)
    ensures a == b
    decreases |a|
  {
    if |a| > 0 {
      LexLeAntisymmetric(a[1..], b[1..]);
      assert a == [a[0]] + a[1..] && b == [b[0]] + b[1..];
    }
  }

  lemma {:induction false} LexLeTransitive(a: string, b: string, c: string)
    requires LexLe(a, b) && LexLe(b, c)
    ensures LexLe(a, c)
    decreases |a|
  {
    if |a| > 0 && a[0] == b[0] && b[0] == c[0] {
      LexLeTransitive(a[1..], b[1..], c[1..]);
    }
  }

  /** The order that `sort(reverse=True)` produces. */
  predicate SortedDesc(s: seq<string>) {
    forall i, j :: 0 <= i < j < |s| ==> LexLe(s[j], s[i])
  }

  /** Inserts `x` in front of the first element it is not below. */
  function InsertDesc(x: string, s: seq<string>): (r: seq<string>)
    ensures multiset(r) == multiset(s) + multiset{x}
    decreases |s|
  {
    if s == [] || LexLe(s[0], x) then [x] + s
    else
      assert s == [s[0]] + s[1..];
      [s[0]] + InsertDesc(x, s[1..])
  }

  /** `sorted(names, reverse=True)`, as an insertion sort. */
  function SortDesc(s: seq<string>): (r: seq<string>)
    ensures multiset(r) == multiset(s)
    decreases |s|
  {
    if s == [] then []
    else
      assert s == [s[0]] + s[1..];
      InsertDesc(s[0], SortDesc(s[1..]))
  }

  lemma {:induction false} InsertDescSorted(x: string, s: seq<string>)
    requires SortedDesc(s)
    ensures SortedDesc(InsertDesc(x, s))
    decreases |s|
  {
    if s == [] {
    } else if LexLe(s[0], x) {
      forall k | 0 <= k < |s| ensures LexLe(s[k], x) {
        if k > 0 {
          LexLeTransitive(s[k], s[0], x);
        }
      }
      ConsSorted(x, s);
    } else {
      LexLeTotal(s[0], x);
      var t := s[1..];
      TailSorted(s);
      InsertDescSorted(x, t);
      var r' := InsertDesc(x, t);
      forall k | 0 <= k < |r'| ensures LexLe(r'[k], s[0]) {
        var y := r'[k];
        assert y in multiset(r');
        if y != x {
          assert y in multiset(t);
          var i :| 0 <= i < |t| && t[i] == y;
          assert s[i + 1] == y;
        }
      }
      ConsSorted(s[0], r');
    }
  }

  /** A name at least every element of a descending sequence can go in front of it. */
  lemma ConsSorted(y: string, s: seq<string>)
    requires SortedDesc(s)
    requires forall k :: 0 <= k < |s| ==> LexLe(s[k], y)
    ensures SortedDesc([y] + s)
  {
    var r := [y] + s;
    forall i, j | 0 <= i < j < |r| ensures LexLe(r[j], r[i]) {
      assert r[j] == s[j - 1];
      if i > 0 {
        assert r[i] == s[i - 1];
      }
    }
  }

  lemma {:induction false} SortDescSorted(s: seq<string>)
    ensures SortedDesc(SortDesc(s))
    decreases |s|
  {
    if s != [] {
      SortDescSorted(s[1..]);
      InsertDescSorted(s[0], SortDesc(s[1..]));
    }
  }

  /** The head of a descending sequence is its greatest element. */
  lemma HeadIsGreatest(a: seq<string>, x: string)
    requires SortedDesc(a) && x in a
    ensures LexLe(x, a[0])
  {
    var i :| 0 <= i < |a| && a[i] == x;
    if i == 0 {
      LexLeReflexive(x);
    }
  }

  /** Two descending sequences with the same elements are equal: the result of the sort does not depend on the input order. */
  lemma {:induction false} SortedDescUnique(a: seq<string>, b: seq<string>)
    requires SortedDesc(a) && SortedDesc(b) && multiset(a) == multiset(b)
    ensures a == b
    decreases |a|
  {
    assert |b| == |multiset(b)| == |multiset(a)| == |a|;
    if a != [] {
      assert a[0] == b[0] by {
        assert b[0] in multiset(a) && a[0] in multiset(b);
        HeadIsGreatest(a, b[0]);
        HeadIsGreatest(b, a[0]);
        LexLeAntisymmetric(a[0], b[0]);
      }
      TailMultiset(a);
      TailMultiset(b);
      TailSorted(a);
      TailSorted(b);
      SortedDescUnique(a[1..], b[1..]);
      assert a == [a[0]] + a[1..] && b == [b[0]] + b[1..];
    }
  }

  /** Dropping the head takes one copy of it out of the multiset. */
  lemma TailMultiset(a: seq<string>)
    requires a != []
    ensures multiset(a[1..]) == multiset(a) - multiset{a[0]}
  {
    assert a == [a[0]] + a[1..];
  }

  lemma TailSorted(a: seq<string>)
    requires SortedDesc(a) && a != []
    ensures SortedDesc(a[1..])
  {
    var t := a[1..];
    forall i, j | 0 <= i < j < |t| ensures LexLe(t[j], t[i]) {
      assert t[j] == a[j + 1] && t[i] == a[i + 1];
    }
  }

  /** What `get_latest_log_files` returns: `(None, None)`, or the newest and the previous name. */
  datatype LatestLogs = NotEnough | Latest(newest: string, previous: string)

  /** `get_latest_log_files` over the folder listing `files`. */
  function LatestTwo(files: seq<string>): LatestLogs {
    var logs := SortDesc(JsonNames(files));
    if |logs| < 2 then NotEnough else Latest(logs[0], logs[1])
  }

  /** There is no pair to compare exactly when fewer than two names end in `.json`. */
  lemma LatestTwoNotEnough(files: seq<string>)
    ensures LatestTwo(files).NotEnough? <==> |JsonNames(files)| < 2
  {
    var logs := SortDesc(JsonNames(files));
    assert |logs| == |multiset(logs)| == |multiset(JsonNames(files))| == |JsonNames(files)|;
  }

  /**
    Otherwise the two names are two of the listed `.json` names (two entries of the
    listing), the first is the greatest, and every other `.json` name is at most the
    second.
   */
  lemma LatestTwoPicksNewest(files: seq<string>)
    requires LatestTwo(files).Latest?
    ensures EndsWithJson(LatestTwo(files).newest) && EndsWithJson(LatestTwo(files).previous)
    ensures multiset{LatestTwo(files).newest, LatestTwo(files).previous} <= multiset(JsonNames(files))
    ensures LexLe(LatestTwo(files).previous, LatestTwo(files).newest)
    ensures forall f :: f in JsonNames(files) ==> LexLe(f, LatestTwo(files).newest)
    ensures forall f :: f in multiset(JsonNames(files)) - multiset{LatestTwo(files).newest, LatestTwo(files).previous} ==>
              LexLe(f, LatestTwo(files).previous)
  {
    var names := JsonNames(files);
    var logs := SortDesc(names);
    SortDescSorted(names);
    assert multiset(logs) == multiset(names);
    assert LatestTwo(files) == Latest(logs[0], logs[1]);
    FirstTwoAreGreatest(logs);
    assert EndsWithJson(logs[0]) && EndsWithJson(logs[1]) by {
      assert logs[0] in multiset(names) && logs[1] in multiset(names);
    }
    forall f | f in names ensures LexLe(f, logs[0]) {
      assert f in multiset(logs);
    }
  }

  /**
    In a descending sequence of two or more names the first is at least every
    name, and the second is at least every name but those two.
   */
  lemma FirstTwoAreGreatest(logs: seq<string>)
    requires SortedDesc(logs) && |logs| >= 2
    ensures multiset{logs[0], logs[1]} <= multiset(logs)
    ensures LexLe(logs[1], logs[0])
    ensures forall f :: f in logs ==> LexLe(f, logs[0])
    ensures forall f :: f in multiset(logs) - multiset{logs[0], logs[1]} ==> LexLe(f, logs[1])
  {
    var a, b, rest := logs[0], logs[1], logs[2..];
    assert logs == [a, b] + rest;
    assert multiset(logs) == multiset{a, b} + multiset(rest);
    LexLeReflexive(a);
    forall f | f in logs ensures LexLe(f, a) {
      HeadIsGreatest(logs, f);
    }
    forall f | f in multiset(logs) - multiset{a, b} ensures LexLe(f, b) {
      assert f in multiset(rest);
      var k :| 0 <= k < |rest| && rest[k] == f;
      assert logs[k + 2] == f;
    }
  }

  /** The answer depends only on which names are listed, not on the order `os.listdir` gives them in. */
  lemma LatestTwoIgnoresListingOrder(files1: seq<string>, files2: seq<string>)
    requires multiset(files1) == multiset(files2)
    ensures LatestTwo(files1) == LatestTwo(files2)
  {
    var n1, n2 := JsonNames(files1), JsonNames(files2);
    assert multiset(n1) == multiset(n2);
    SortDescSorted(n1);
    SortDescSorted(n2);
    SortedDescUnique(SortDesc(n1), SortDesc(n2));
  }
}
