/**
 * The pure tail of `get_course_codes`: `sorted(codes, key=total, reverse=True)`
 * followed by `filter(total > 0)`. Python's sort is stable also when reversed,
 * so codes with equal totals keep the order in which they were first met; the
 * model sorts by insertion, putting each code after every earlier code whose
 * total is at least its own.
 */
module Ranking {
  /** No code occurs twice. */
  predicate Distinct(s: seq<string>)
  {
    forall i, j :: 0 <= i < j < |s| ==> s[i] != s[j]
  }

  /** Every code has a total, and the totals never increase along `s`. */
  predicate NonIncreasing(s: seq<string>, totals: map<string, real>)
  {
    forall i, j :: 0 <= i < j < |s| ==> s[i] in totals && s[j] in totals && totals[s[i]] >= totals[s[j]]
  }

  /** Every code of `s` has a total. */
  predicate AllTotalled(s: seq<string>, totals: map<string, real>)
  {
    forall i :: 0 <= i < |s| ==> s[i] in totals
  }

  /** `c` placed after the leading codes of `sorted` whose totals are at least its own. */
  function Insert(c: string, sorted: seq<string>, totals: map<string, real>): (r: seq<string>)
    requires c in totals && AllTotalled(sorted, totals)
    ensures multiset(r) == multiset(sorted) + multiset{c}
    ensures forall x :: x in r <==> x == c || x in sorted
    ensures AllTotalled(r, totals)
  {
    if sorted == [] then
      [c]
    else if totals[sorted[0]] >= totals[c] then
      assert sorted == [sorted[0]] + sorted[1..];
      [sorted[0]] + Insert(c, sorted[1..], totals)
    else
      [c] + sorted
  }

  /** Every code of `s` has a total of at most `v`. */
  predicate AllAtMost(s: seq<string>, totals: map<string, real>, v: real)
  {
    forall i :: 0 <= i < |s| ==> s[i] in totals && totals[s[i]] <= v
  }

  /** A code in front of sorted codes whose totals are at most its own gives sorted codes. */
  lemma ConsSorted(x: string, t: seq<string>, totals: map<string, real>)
    requires x in totals && NonIncreasing(t, totals) && AllAtMost(t, totals, totals[x])
    ensures NonIncreasing([x] + t, totals)
  {
    var r := [x] + t;
    forall i, j | 0 <= i < j < |r|
      ensures r[i] in totals && r[j] in totals && totals[r[i]] >= totals[r[j]]
    {
      assert r[j] == t[j - 1];
      if i > 0 {
        assert r[i] == t[i - 1];
      }
    }
  }

  /** The front code of sorted codes bounds the rest, which are sorted too. */
  lemma UnconsSorted(s: seq<string>, totals: map<string, real>)
    requires s != [] && AllTotalled(s, totals) && NonIncreasing(s, totals)
    ensures s[0] in totals && NonIncreasing(s[1..], totals) && AllAtMost(s[1..], totals, totals[s[0]])
  {
    assert s[0] in totals;
    var t := s[1..];
    forall i | 0 <= i < |t|
      ensures t[i] in totals && totals[t[i]] <= totals[s[0]]
    {
      assert t[i] == s[i + 1];
    }
    forall i, j | 0 <= i < j < |t|
      ensures t[i] in totals && t[j] in totals && totals[t[i]] >= totals[t[j]]
    {
      assert t[i] == s[i + 1] && t[j] == s[j + 1];
    }
  }

  /** A bound on every code of `s` is a bound on every code of a sequence drawn from them. */
  lemma AtMostOfMembers(s: seq<string>, t: seq<string>, totals: map<string, real>, v: real)
    requires AllAtMost(s, totals, v)
    requires forall x :: x in t ==> x in s
    ensures AllAtMost(t, totals, v)
  {
    forall i | 0 <= i < |t|
      ensures t[i] in totals && totals[t[i]] <= v
    {
      assert t[i] in s;
    }
  }

  /** Inserting into a sorted sequence keeps it sorted. */
  lemma {:induction false} InsertSorted(c: string, sorted: seq<string>, totals: map<string, real>)
    requires c in totals && AllTotalled(sorted, totals)
    requires NonIncreasing(sorted, totals)
    ensures NonIncreasing(Insert(c, sorted, totals), totals)
  {
    if sorted == [] {
    } else if totals[sorted[0]] >= totals[c] {
      var rest := Insert(c, sorted[1..], totals);
      UnconsSorted(sorted, totals);
      InsertSorted(c, sorted[1..], totals);
      AtMostOfMembers(sorted[1..] + [c], rest, totals, totals[sorted[0]]);
      ConsSorted(sorted[0], rest, totals);
    } else {
      AtMostOfMembers(sorted, sorted, totals, totals[c]) by {
        UnconsSorted(sorted, totals);
        assert forall i :: 1 <= i < |sorted| ==> sorted[i] == sorted[1..][i - 1];
      }
      ConsSorted(c, sorted, totals);
    }
  }

  /** Inserting a new code into a sequence without repeats keeps it without repeats. */
  lemma {:induction false} InsertDistinct(c: string, sorted: seq<string>, totals: map<string, real>)
    requires c in totals && AllTotalled(sorted, totals)
    requires Distinct(sorted) && c !in sorted
    ensures Distinct(Insert(c, sorted, totals))
  {
    if sorted != [] && totals[sorted[0]] >= totals[c] {
      var rest := Insert(c, sorted[1..], totals);
      assert forall i :: 0 <= i < |sorted[1..]| ==> sorted[1..][i] == sorted[i + 1];
      InsertDistinct(c, sorted[1..], totals);
      assert sorted[0] !in sorted[1..];
      var r := [sorted[0]] + rest;
      forall i, j | 0 <= i < j < |r|
        ensures r[i] != r[j]
      {
        if i == 0 {
          assert r[j] == rest[j - 1] && r[j] in rest;
        } else {
          assert r[i] == rest[i - 1] && r[j] == rest[j - 1];
        }
      }
    }
  }

  /**
   * `sorted(order, key=totals, reverse=True)`: insertion sort over `order`
   * from its first code to its last.
   */
  function SortByTotal(order: seq<string>, totals: map<string, real>): (r: seq<string>)
    requires AllTotalled(order, totals)
    ensures multiset(r) == multiset(order)
    ensures forall x :: x in r <==> x in order
    ensures AllTotalled(r, totals)
  {
    if order == [] then
      []
    else
      var n := |order| - 1;
      assert order == order[..n] + [order[n]];
      Insert(order[n], SortByTotal(order[..n], totals), totals)
  }

  /** The sort orders by total and, given codes without repeats, repeats none. */
  lemma {:induction false} SortByTotalSpec(order: seq<string>, totals: map<string, real>)
    requires AllTotalled(order, totals)
    ensures NonIncreasing(SortByTotal(order, totals), totals)
    ensures Distinct(order) ==> Distinct(SortByTotal(order, totals))
  {
    if order != [] {
      var n := |order| - 1;
      var init := order[..n];
      SortByTotalSpec(init, totals);
      InsertSorted(order[n], SortByTotal(init, totals), totals);
      if Distinct(order) {
        assert order[n] !in init by {
          if i :| 0 <= i < n && init[i] == order[n] {
            assert order[i] == order[n];
          }
        }
        InsertDistinct(order[n], SortByTotal(init, totals), totals);
      }
    }
  }

  /** `filter(lambda code: codes[code] > 0, s)`: the codes with a positive total, in order. */
  function KeepPositive(s: seq<string>, totals: map<string, real>): (r: seq<string>)
    requires AllTotalled(s, totals)
    ensures forall x :: x in r <==> x in s && totals[x] > 0.0
    ensures AllTotalled(r, totals)
  {
    if s == [] then
      []
    else
      assert forall i :: 0 <= i < |s[1..]| ==> s[1..][i] == s[i + 1];
      assert s == [s[0]] + s[1..];
      (if totals[s[0]] > 0.0 then [s[0]] else []) + KeepPositive(s[1..], totals)
  }

  /** Filtering keeps the codes sorted. */
  lemma {:induction false} KeepPositiveSorted(s: seq<string>, totals: map<string, real>)
    requires AllTotalled(s, totals) && NonIncreasing(s, totals)
    ensures NonIncreasing(KeepPositive(s, totals), totals)
  {
    if s != [] {
      var tail := s[1..];
      UnconsSorted(s, totals);
      KeepPositiveSorted(tail, totals);
      var rest := KeepPositive(tail, totals);
      if totals[s[0]] > 0.0 {
        AtMostOfMembers(tail, rest, totals, totals[s[0]]);
        ConsSorted(s[0], rest, totals);
        assert KeepPositive(s, totals) == [s[0]] + rest;
      } else {
        assert KeepPositive(s, totals) == rest;
      }
    }
  }

  /** Filtering adds no repeats. */
  lemma {:induction false} KeepPositiveDistinct(s: seq<string>, totals: map<string, real>)
    requires AllTotalled(s, totals) && Distinct(s)
    ensures Distinct(KeepPositive(s, totals))
  {
    if s != [] {
      var tail := s[1..];
      assert forall i, j :: 0 <= i < j < |tail| ==> tail[i] == s[i + 1] && tail[j] == s[j + 1];
      KeepPositiveDistinct(tail, totals);
      var rest := KeepPositive(tail, totals);
      if totals[s[0]] > 0.0 {
        assert s[0] !in tail;
        ConsDistinct(s[0], rest);
        assert KeepPositive(s, totals) == [s[0]] + rest;
      } else {
        assert KeepPositive(s, totals) == rest;
      }
    }
  }

  /** A new code in front of codes without repeats repeats none. */
  lemma ConsDistinct(x: string, t: seq<string>)
    requires Distinct(t) && x !in t
    ensures Distinct([x] + t)
  {
    var r := [x] + t;
    forall i, j | 0 <= i < j < |r|
      ensures r[i] != r[j]
    {
      assert r[j] == t[j - 1];
      if i > 0 {
        assert r[i] == t[i - 1];
      }
    }
  }
}
