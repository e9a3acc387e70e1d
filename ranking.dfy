/** The ordering both engines apply before returning:
    `sorted(matches.items(), key=lambda x: x[1], reverse=True)`.
    Python's sort is stable, also with `reverse=True`, so entries with equal
    scores keep the order in which they were inserted into `matches`. */
module Ranking {

  /** An `(id, score)` item of the `matches` dictionary. */
  type Entry = (string, real)

  predicate NonIncreasing(s: seq<Entry>) {
    forall i, j :: 0 <= i < j < |s| ==> s[i].1 >= s[j].1
  }

  /** No id occurs twice, as in the items of a dictionary. */
  predicate DistinctIds(s: seq<Entry>) {
    forall i, j :: 0 <= i < j < |s| ==> s[i].0 != s[j].0
  }

  /** The entries of `s` whose score is `v`, in their order in `s`. */
  function WithScore(s: seq<Entry>, v: real): seq<Entry>
  {
    if s == [] then []
    else (if s[0].1 == v then [s[0]] else []) + WithScore(s[1..], v)
  }

  /** Places `e` in front of the first entry whose score is not above its own. */
  function Insert(e: Entry, s: seq<Entry>): (r: seq<Entry>)
    ensures multiset(r) == multiset(s) + multiset{e}
  {
    if s == [] || e.1 >= s[0].1 then [e] + s
    else
      assert s == [s[0]] + s[1..];
      [s[0]] + Insert(e, s[1..])
  }

  /** The stable descending sort by score. */
  function SortByScore(s: seq<Entry>): (r: seq<Entry>)
    ensures multiset(r) == multiset(s)
    ensures NonIncreasing(r)
  {
    if s == [] then []
    else
      var t := SortByScore(s[1..]);
      InsertKeepsOrder(s[0], t);
      assert s == [s[0]] + s[1..];
      Insert(s[0], t)
  }

  lemma {:induction false} WithScoreMembers(s: seq<Entry>, v: real)
    ensures forall e :: e in WithScore(s, v) <==> e in s && e.1 == v
    decreases |s|
  {
    if s != [] {
      WithScoreMembers(s[1..], v);
      assert s == [s[0]] + s[1..];
    }
  }

  lemma HeadIsMaximal(s: seq<Entry>, x: Entry)
    requires NonIncreasing(s) && x in s
    ensures s[0].1 >= x.1
  {
    var k :| 0 <= k < |s| && s[k] == x;
    if k > 0 {
      assert s[0].1 >= s[k].1;
    }
  }

  lemma {:induction false} InsertKeepsOrder(e: Entry, s: seq<Entry>)
    requires NonIncreasing(s)
    ensures NonIncreasing(Insert(e, s))
    decreases |s|
  {
    if s != [] && e.1 < s[0].1 {
      var t := Insert(e, s[1..]);
      InsertKeepsOrder(e, s[1..]);
      forall j | 0 <= j < |t| ensures s[0].1 >= t[j].1 {
        assert t[j] in multiset(t);
        if t[j] != e {
          assert t[j] in multiset(s[1..]);
          HeadIsMaximal(s, t[j]);
        }
      }
      assert Insert(e, s) == [s[0]] + t;
    }
  }

  lemma SortKeepsMembers(s: seq<Entry>)
    ensures forall e :: e in SortByScore(s) <==> e in s
  {
    var r := SortByScore(s);
    forall e ensures e in r <==> e in s {
      assert e in r <==> e in multiset(r);
      assert e in s <==> e in multiset(s);
    }
  }

  lemma {:induction false} WithScoreConcat(a: seq<Entry>, b: seq<Entry>, v: real)
    ensures WithScore(a + b, v) == WithScore(a, v) + WithScore(b, v)
    decreases |a|
  {
    if a == [] {
      assert a + b == b;
    } else {
      var h := if a[0].1 == v then [a[0]] else [];
      assert (a + b)[0] == a[0];
      assert (a + b)[1..] == a[1..] + b;
      WithScoreConcat(a[1..], b, v);
      calc {
        WithScore(a + b, v);
        h + WithScore(a[1..] + b, v);
        h + (WithScore(a[1..], v) + WithScore(b, v));
        (h + WithScore(a[1..], v)) + WithScore(b, v);
      }
    }
  }

  /** Inserting `e` never moves it past an entry of the same score. */
  lemma {:induction false} InsertIsStable(e: Entry, s: seq<Entry>, v: real)
    ensures WithScore(Insert(e, s), v) == WithScore([e] + s, v)
    decreases |s|
  {
    if s != [] && e.1 < s[0].1 {
      var x, rest := s[0], s[1..];
      var ex := if e.1 == v then [e] else [];
      var xs := if x.1 == v then [x] else [];
      assert ex == [] || xs == [];
      calc {
        WithScore(Insert(e, s), v);
        { assert Insert(e, s) == [x] + Insert(e, rest); }
        WithScore([x] + Insert(e, rest), v);
        { WithScoreConcat([x], Insert(e, rest), v); }
        WithScore([x], v) + WithScore(Insert(e, rest), v);
        { InsertIsStable(e, rest, v); }
        xs + WithScore([e] + rest, v);
        { WithScoreConcat([e], rest, v); }
        xs + (ex + WithScore(rest, v));
        ex + (xs + WithScore(rest, v));
        { WithScoreConcat([x], rest, v); assert s == [x] + rest; }
        ex + WithScore(s, v);
        { WithScoreConcat([e], s, v); }
        WithScore([e] + s, v);
      }
    }
  }

  /** Stability: for every score, the entries with that score appear in the
      output in the same order as in the input. */
  lemma {:induction false} SortIsStable(s: seq<Entry>, v: real)
    ensures WithScore(SortByScore(s), v) == WithScore(s, v)
    decreases |s|
  {
    if s != [] {
      SortIsStable(s[1..], v);
      InsertIsStable(s[0], SortByScore(s[1..]), v);
      WithScoreConcat([s[0]], SortByScore(s[1..]), v);
      WithScoreConcat([s[0]], s[1..], v);
      assert s == [s[0]] + s[1..];
    }
  }

  /** Sorting preserves the dictionary property that ids are unique. */
  lemma {:induction false} SortKeepsIdsDistinct(s: seq<Entry>)
    requires DistinctIds(s)
    ensures DistinctIds(SortByScore(s))
    decreases |s|
  {
    if s != [] {
      SortKeepsIdsDistinct(s[1..]);
      SortKeepsMembers(s[1..]);
      forall e | e in SortByScore(s[1..]) ensures e.0 != s[0].0 {
        var k :| 0 <= k < |s[1..]| && s[1..][k] == e;
        assert s[k + 1] == e;
      }
      InsertKeepsIdsDistinct(s[0], SortByScore(s[1..]));
    }
  }

  lemma {:induction false} InsertKeepsIdsDistinct(e: Entry, s: seq<Entry>)
    requires DistinctIds(s)
    requires forall x :: x in s ==> x.0 != e.0
    ensures DistinctIds(Insert(e, s))
    decreases |s|
  {
    if s != [] && e.1 < s[0].1 {
      var t := Insert(e, s[1..]);
      InsertKeepsIdsDistinct(e, s[1..]);
      forall x | x in t ensures x.0 != s[0].0 {
        assert x in multiset(t);
        assert x == e || x in multiset(s[1..]);
      }
      assert Insert(e, s) == [s[0]] + t;
    }
  }

  /** Adding an item under a fresh id keeps ids unique. */
  lemma AppendKeepsIdsDistinct(s: seq<Entry>, e: Entry)
    requires DistinctIds(s)
    requires forall x :: x in s ==> x.0 != e.0
    ensures DistinctIds(s + [e])
  {
    var t := s + [e];
    forall i, j | 0 <= i < j < |t| ensures t[i].0 != t[j].0 {
      assert t[i] == s[i];
      if j < |s| {
        assert t[j] == s[j];
      } else {
        assert s[i] in s;
      }
    }
  }

  /** A non-increasing sequence is determined by the order of each score's
      entries: two of them that agree on `WithScore` for every score are equal.
      So any stable descending sort (Python's Timsort included) returns
      exactly `SortByScore`. */
  lemma {:induction false} SortedDeterminedByScoreClasses(a: seq<Entry>, b: seq<Entry>)
    requires NonIncreasing(a) && NonIncreasing(b)
    requires forall v :: WithScore(a, v) == WithScore(b, v)
    ensures a == b
    decreases |a|
  {
    if a == [] {
      NonEmptyHasScoreClass(b);
    } else {
      HeadsAgree(a, b);
      forall v ensures WithScore(a[1..], v) == WithScore(b[1..], v) {
        var h := if a[0].1 == v then [a[0]] else [];
        assert WithScore(a, v) == h + WithScore(a[1..], v);
        assert WithScore(b, v) == h + WithScore(b[1..], v);
        assert (h + WithScore(a[1..], v))[|h|..] == WithScore(a[1..], v);
        assert (h + WithScore(b[1..], v))[|h|..] == WithScore(b[1..], v);
      }
      assert NonIncreasing(a[1..]);
      assert NonIncreasing(b[1..]);
      SortedDeterminedByScoreClasses(a[1..], b[1..]);
    }
  }

  lemma NonEmptyHasScoreClass(s: seq<Entry>)
    ensures s != [] ==> WithScore(s, s[0].1) != []
  {
  }

  lemma HeadsAgree(a: seq<Entry>, b: seq<Entry>)
    requires NonIncreasing(a) && NonIncreasing(b) && a != []
    requires forall v :: WithScore(a, v) == WithScore(b, v)
    ensures b != [] && a[0] == b[0]
  {
    var m := a[0].1;
    assert WithScore(a, m) == [a[0]] + WithScore(a[1..], m);
    WithScoreMembers(a, m);
    WithScoreMembers(b, m);
    assert a[0] in b;
    var n := b[0].1;
    assert WithScore(b, n) == [b[0]] + WithScore(b[1..], n);
    WithScoreMembers(a, n);
    WithScoreMembers(b, n);
    assert b[0] in a;
    HeadIsMaximal(a, b[0]);
    HeadIsMaximal(b, a[0]);
    assert n == m;
    assert WithScore(b, m)[0] == b[0];
  }

  /** Any non-increasing, stable rearrangement of `s` is `SortByScore(s)`. */
  lemma SortByScoreIsTheStableSort(s: seq<Entry>, r: seq<Entry>)
    requires NonIncreasing(r)
    requires forall v :: WithScore(r, v) == WithScore(s, v)
    ensures r == SortByScore(s)
  {
    forall v ensures WithScore(r, v) == WithScore(SortByScore(s), v) {
      SortIsStable(s, v);
    }
    SortedDeterminedByScoreClasses(r, SortByScore(s));
  }
}
