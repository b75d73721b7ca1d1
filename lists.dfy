/** The two list operations the page builds everything from: `Array.filter`
    (`Keep`) and the insertion-ordered distinct values of `[...new Set(xs)]` (`Dedup`). */
module Lists {

  /** `s.filter(p)`: the elements satisfying p, in their original order. */
  function Keep<T>(s: seq<T>, p: T -> bool): seq<T> {
    if s == [] then []
    else if p(s[0]) then [s[0]] + Keep(s[1..], p)
    else Keep(s[1..], p)
  }

  /** r can be obtained from s by deleting elements, keeping the order of the rest. */
  ghost predicate IsSublist<T>(r: seq<T>, s: seq<T>)
    decreases |s|
  {
    if r == [] then true
    else if s == [] then false
    else (r[0] == s[0] && IsSublist(r[1..], s[1..])) || IsSublist(r, s[1..])
  }

  /** Filtering keeps exactly the elements satisfying p. */
  lemma {:induction false} KeepMembership<T>(s: seq<T>, p: T -> bool)
    ensures forall x :: x in Keep(s, p) <==> x in s && p(x)
  {
    if s != [] {
      KeepMembership(s[1..], p);
      assert s == [s[0]] + s[1..];
    }
  }

  /** Filtering preserves order. */
  lemma {:induction false} KeepSublist<T>(s: seq<T>, p: T -> bool)
    ensures IsSublist(Keep(s, p), s)
  {
    if s != [] {
      KeepSublist(s[1..], p);
      if p(s[0]) {
        var k := [s[0]] + Keep(s[1..], p);
        assert k[1..] == Keep(s[1..], p);
      }
    }
  }

  /** Filtering keeps each element satisfying p as many times as it occurs. */
  lemma {:induction false} KeepCount<T>(s: seq<T>, p: T -> bool)
    ensures forall x :: multiset(Keep(s, p))[x] == if p(x) then multiset(s)[x] else 0
  {
    if s != [] {
      KeepCount(s[1..], p);
      assert s == [s[0]] + s[1..];
    }
  }

  /** Filtering preserves order, keeps exactly the elements satisfying p, and keeps
      each of them as many times as it occurs. */
  lemma KeepSpec<T>(s: seq<T>, p: T -> bool)
    ensures IsSublist(Keep(s, p), s)
    ensures forall x :: x in Keep(s, p) <==> x in s && p(x)
    ensures forall x :: multiset(Keep(s, p))[x] == if p(x) then multiset(s)[x] else 0
  {
    KeepSublist(s, p);
    KeepMembership(s, p);
    KeepCount(s, p);
  }

  /** Nothing is dropped when every element satisfies p. */
  lemma {:induction false} KeepAll<T>(s: seq<T>, p: T -> bool)
    requires forall i :: 0 <= i < |s| ==> p(s[i])
    ensures Keep(s, p) == s
  {
    if s != [] {
      KeepAll(s[1..], p);
      assert [s[0]] + s[1..] == s;
    }
  }

  /** Two predicates that agree on the elements of s filter it alike. */
  lemma {:induction false} KeepCongruent<T>(s: seq<T>, p: T -> bool, q: T -> bool)
    requires forall i :: 0 <= i < |s| ==> p(s[i]) == q(s[i])
    ensures Keep(s, p) == Keep(s, q)
  {
    if s != [] {
      KeepCongruent(s[1..], p, q);
    }
  }

  /** Filtering twice with the same predicate is filtering once. */
  lemma {:induction false} KeepIdempotent<T>(s: seq<T>, p: T -> bool)
    ensures Keep(Keep(s, p), p) == Keep(s, p)
  {
    if s != [] {
      KeepIdempotent(s[1..], p);
      if p(s[0]) {
        var k := [s[0]] + Keep(s[1..], p);
        assert k[1..] == Keep(s[1..], p);
      }
    }
  }

  /** Filtering distributes over concatenation. */
  lemma {:induction false} KeepAppend<T>(s: seq<T>, t: seq<T>, p: T -> bool)
    ensures Keep(s + t, p) == Keep(s, p) + Keep(t, p)
  {
    if s == [] {
      assert s + t == t;
    } else {
      assert (s + t)[1..] == s[1..] + t;
      KeepAppend(s[1..], t, p);
    }
  }

  /** The relation r holds between every element and each later one. */
  predicate Pairwise<T>(s: seq<T>, r: (T, T) -> bool) {
    forall i, j :: 0 <= i < j < |s| ==> r(s[i], s[j])
  }

  predicate NoDuplicates<T(==)>(s: seq<T>) {
    forall i, j :: 0 <= i < j < |s| ==> s[i] != s[j]
  }

  lemma KeepSubset<T>(s: seq<T>, p: T -> bool)
    ensures forall x :: x in Keep(s, p) ==> x in s
  {
    KeepMembership(s, p);
  }

  /** Whatever holds between every earlier and later element still holds after
      filtering, because filtering keeps the order. */
  lemma {:induction false} KeepPairwise<T>(s: seq<T>, p: T -> bool, r: (T, T) -> bool)
    requires Pairwise(s, r)
    ensures Pairwise(Keep(s, p), r)
  {
    if s != [] {
      var tail := s[1..];
      assert Pairwise(tail, r) by {
        forall i, j | 0 <= i < j < |tail| ensures r(tail[i], tail[j]) {
          assert tail[i] == s[i + 1] && tail[j] == s[j + 1];
        }
      }
      KeepPairwise(tail, p, r);
      if p(s[0]) {
        var t := Keep(tail, p);
        assert forall y :: y in tail ==> r(s[0], y) by {
          forall y | y in tail ensures r(s[0], y) {
            var k :| 0 <= k < |tail| && tail[k] == y;
            assert tail[k] == s[k + 1];
          }
        }
        KeepSubset(tail, p);
        var u := [s[0]] + t;
        forall i, j | 0 <= i < j < |u| ensures r(u[i], u[j]) {
          assert u[j] == t[j - 1];
          if i > 0 {
            assert u[i] == t[i - 1];
          } else {
            assert t[j - 1] in tail;
          }
        }
      }
    }
  }

  /** Filtering a list without repetitions gives a list without repetitions. */
  lemma KeepNoDuplicates<T>(s: seq<T>, p: T -> bool)
    requires NoDuplicates(s)
    ensures NoDuplicates(Keep(s, p))
  {
    KeepPairwise(s, p, (x: T, y: T) => x != y);
  }

  /** `[...new Set(s)]`: each distinct value once, in order of first occurrence. */
  function Dedup<T(==)>(s: seq<T>): seq<T> {
    if s == [] then []
    else
      var d := Dedup(s[..|s| - 1]);
      if s[|s| - 1] in d then d else d + [s[|s| - 1]]
  }

  /** The distinct values are those of s, each once, and the first of them is
      the first element of s. */
  lemma {:induction false} DedupSpec<T>(s: seq<T>)
    ensures forall x :: x in Dedup(s) <==> x in s
    ensures NoDuplicates(Dedup(s))
    ensures s != [] ==> |Dedup(s)| > 0 && Dedup(s)[0] == s[0]
  {
    if s != [] {
      var init := s[..|s| - 1];
      DedupSpec(init);
      assert s == init + [s[|s| - 1]];
      if init == [] {
        assert Dedup(init) == [];
      } else {
        assert init[0] == s[0];
      }
    }
  }

  /** The position of the first occurrence of x in s. */
  function FirstIndex<T(==)>(s: seq<T>, x: T): (r: nat)
    requires x in s
    ensures r < |s| && s[r] == x && forall k :: 0 <= k < r ==> s[k] != x
  {
    if s[0] == x then 0 else 1 + FirstIndex(s[1..], x)
  }

  /** A first occurrence in a prefix is the first occurrence in the whole list. */
  lemma FirstIndexPrefix<T>(s: seq<T>, n: nat, x: T)
    requires n <= |s| && x in s[..n]
    ensures FirstIndex(s, x) == FirstIndex(s[..n], x)
  {
    var r := FirstIndex(s[..n], x);
    assert s[r] == x;
    assert forall k :: 0 <= k < r ==> s[k] == s[..n][k];
  }

  /** The distinct values keep the order in which they first occur in s: one comes
      before another exactly when its first occurrence does. */
  lemma {:induction false} DedupOrder<T>(s: seq<T>)
    ensures forall i, j :: 0 <= i < |Dedup(s)| && 0 <= j < |Dedup(s)| ==>
      Dedup(s)[i] in s && Dedup(s)[j] in s &&
      (i < j <==> FirstIndex(s, Dedup(s)[i]) < FirstIndex(s, Dedup(s)[j]))
  {
    DedupSpec(s);
    var d := Dedup(s);
    if s != [] {
      var n := |s| - 1;
      var init := s[..n];
      var di := Dedup(init);
      DedupOrder(init);
      DedupSpec(init);
      assert s == init + [s[n]];
      forall x | x in di ensures FirstIndex(s, x) == FirstIndex(init, x) && FirstIndex(s, x) < n {
        FirstIndexPrefix(s, n, x);
      }
      if s[n] !in di {
        assert s[n] !in init;
        assert FirstIndex(s, s[n]) == n;
        assert d == di + [s[n]];
      }
      forall i, j | 0 <= i < |d| && 0 <= j < |d|
        ensures i < j <==> FirstIndex(s, d[i]) < FirstIndex(s, d[j])
      {
        if i < |di| && j < |di| {
          assert d[i] == di[i] && d[j] == di[j];
        }
      }
    }
  }
}
