/** `sorted()` of a set of integers, specified by picking the least element repeatedly. */
module SortedSets {

  /** Strictly ascending, hence without repetitions. */
  predicate Ascending(ks: seq<int>) {
    forall i, j :: 0 <= i < j < |ks| ==> ks[i] < ks[j]
  }

  /** A set that is not empty has an element. */
  lemma HasElement(s: set<int>)
    requires s != {}
    ensures exists y :: y in s
  {
    if forall y :: y !in s {
      assert false;
    }
  }

  /** Every non-empty finite set of integers has a least element. */
  lemma {:induction false} MinExists(s: set<int>)
    requires s != {}
    ensures exists m :: m in s && forall x :: x in s ==> m <= x
    decreases |s|
  {
    HasElement(s);
    var y :| y in s;
    var t := s - {y};
    if t == {} {
      forall x | x in s ensures y <= x {
        assert x !in t;
      }
    } else {
      MinExists(t);
      var m :| m in t && forall x :: x in t ==> m <= x;
      var least := if y < m then y else m;
      forall x | x in s ensures least <= x {
        if x != y {
          assert x in t;
        }
      }
      assert least in s;
    }
  }

  /** The least element of a non-empty set. */
  ghost function Min(s: set<int>): (m: int)
    requires s != {}
    ensures m in s && forall x :: x in s ==> m <= x
  {
    MinExists(s);
    var m :| m in s && forall x :: x in s ==> m <= x;
    m
  }

  /** `sorted(s)`: the elements of `s`, each once, in ascending order. */
  ghost function SortedKeys(s: set<int>): seq<int>
    decreases |s|
  {
    if s == {} then []
    else
      var m := Min(s);
      [m] + SortedKeys(s - {m})
  }

  /** `sorted(s)` lists the elements of `s`, each once, in ascending order. */
  lemma {:induction false} SortedKeysSpec(s: set<int>)
    ensures Ascending(SortedKeys(s)) && |SortedKeys(s)| == |s|
    ensures forall k :: k in SortedKeys(s) <==> k in s
    decreases |s|
  {
    if s != {} {
      var m := Min(s);
      var rest := SortedKeys(s - {m});
      SortedKeysSpec(s - {m});
      assert SortedKeys(s) == [m] + rest;
      forall j | 0 <= j < |rest| ensures m < rest[j] {
        assert rest[j] in s - {m};
      }
      ConsAscending(m, rest);
    }
  }

  /** A key below every key of an ascending sequence can go in front of it. */
  lemma ConsAscending(m: int, rest: seq<int>)
    requires Ascending(rest) && forall j :: 0 <= j < |rest| ==> m < rest[j]
    ensures Ascending([m] + rest)
  {
    var ks := [m] + rest;
    forall i, j | 0 <= i < j < |ks| ensures ks[i] < ks[j] {
      assert ks[j] == rest[j - 1];
      if i > 0 {
        assert ks[i] == rest[i - 1];
      }
    }
  }

  /** Sorting starts with the least key; the rest is the sorting of the others. */
  lemma SortedKeysFirst(s: set<int>, m: int)
    requires m in s && forall x :: x in s ==> m <= x
    ensures SortedKeys(s) == [m] + SortedKeys(s - {m})
  {
    var n := Min(s);
    assert n <= m && m <= n;
  }

  /** Taking the least remaining element extends the sorted prefix by one. */
  lemma SortedStep(done: seq<int>, remaining: set<int>, m: int)
    requires m in remaining && forall x :: x in remaining ==> m <= x
    ensures (done + [m]) + SortedKeys(remaining - {m}) == done + SortedKeys(remaining)
  {
    SortedKeysFirst(remaining, m);
  }
}
