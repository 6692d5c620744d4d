/** Facts about sequences, sets and maps that several parts of the pipeline use. */
module Sequences {

  /** No index of s repeats an element. */
  ghost predicate NoDuplicates<T>(s: seq<T>) {
    forall i, j | 0 <= i < j < |s| :: s[i] != s[j]
  }

  ghost function Elements<T>(s: seq<T>): set<T> {
    set x | x in s
  }

  lemma ElementsSnoc<T>(s: seq<T>, x: T)
    requires NoDuplicates(s)
    ensures Elements(s + [x]) == Elements(s) + {x}
    ensures x !in Elements(s) ==> NoDuplicates(s + [x])
  {
    assert (s + [x])[|s|] == x;
    assert forall i | 0 <= i < |s| :: (s + [x])[i] == s[i] && s[i] in Elements(s);
  }

  lemma {:induction false} DistinctElementsCount<T>(s: seq<T>)
    requires NoDuplicates(s)
    ensures |Elements(s)| == |s|
  {
    if s != [] {
      var front, last := s[..|s| - 1], s[|s| - 1];
      DistinctElementsCount(front);
      ElementsSnoc(front, last);
      assert s == front + [last];
      assert last !in Elements(front);
    }
  }

  /** A sequence has as many distinct elements as positions exactly when none repeats. */
  lemma {:induction false} ElementsCount<T>(s: seq<T>)
    ensures |Elements(s)| <= |s|
    ensures |Elements(s)| == |s| <==> NoDuplicates(s)
  {
    if s != [] {
      var front, last := s[..|s| - 1], s[|s| - 1];
      ElementsCount(front);
      assert s == front + [last];
      assert Elements(s) == Elements(front) + {last};
      if last in front {
        assert Elements(s) == Elements(front);
        assert s[|s| - 1] in s[..|s| - 1];
      } else {
        assert last !in Elements(front);
      }
    }
  }

  lemma {:induction false} NoDuplicatesMultiplicity<T>(s: seq<T>)
    ensures NoDuplicates(s) <==> forall x :: multiset(s)[x] <= 1
  {
    if s != [] {
      var front, last := s[..|s| - 1], s[|s| - 1];
      assert s == front + [last];
      NoDuplicatesMultiplicity(front);
      assert multiset(s) == multiset(front) + multiset{last};
      if NoDuplicates(s) {
        assert last !in front;
      } else if NoDuplicates(front) {
        assert last in front;
        assert multiset(s)[last] >= 2;
      } else {
        var x :| multiset(front)[x] > 1;
        assert multiset(s)[x] > 1;
      }
    }
  }

  lemma PermutationKeepsNoDuplicates<T>(s: seq<T>, t: seq<T>)
    requires multiset(s) == multiset(t) && NoDuplicates(s)
    ensures NoDuplicates(t)
  {
    NoDuplicatesMultiplicity(s);
    NoDuplicatesMultiplicity(t);
  }

  /** A permutation of s has the last element of s somewhere, and without it is a permutation of the rest. */
  lemma RemoveLast<T>(s: seq<T>, t: seq<T>) returns (before: seq<T>, after: seq<T>)
    requires multiset(s) == multiset(t) && s != []
    ensures t == before + [s[|s| - 1]] + after
    ensures multiset(s[..|s| - 1]) == multiset(before + after)
  {
    var x := s[|s| - 1];
    assert s == s[..|s| - 1] + [x];
    assert x in multiset(t);
    var i :| 0 <= i < |t| && t[i] == x;
    before, after := t[..i], t[i + 1..];
    assert t == before + [x] + after;
    assert multiset(s) == multiset(s[..|s| - 1]) + multiset{x};
    assert multiset(t) == multiset(before + after) + multiset{x};
    assert multiset(s[..|s| - 1]) == multiset(s) - multiset{x};
  }

  lemma PermutationHasSameElements<T>(s: seq<T>, t: seq<T>)
    requires multiset(s) == multiset(t)
    ensures |s| == |t|
    ensures forall x :: x in s <==> x in t
  {
    assert |s| == |multiset(s)| && |t| == |multiset(t)|;
    forall x
      ensures x in s <==> x in t
    {
      assert x in s <==> x in multiset(s);
      assert x in t <==> x in multiset(t);
    }
  }

  /** A set can be listed without repetition. */
  lemma {:induction false} Enumerate<T>(s: set<T>) returns (list: seq<T>)
    ensures NoDuplicates(list) && Elements(list) == s
  {
    if s == {} {
      list := [];
    } else {
      var x :| x in s;
      var rest := Enumerate(s - {x});
      ElementsSnoc(rest, x);
      list := rest + [x];
    }
  }

  /** Gives the verifier a member of a set of numbers, which it does not find by itself. */
  lemma SomeElement<T>(s: set<T>) returns (x: T)
    requires s != {}
    ensures x in s
  {
    x :| x in s;
  }

  lemma {:induction false} SubsetsAreSmaller<T>(a: set<T>, b: set<T>)
    requires a <= b
    ensures |a| <= |b|
  {
    assert b == a + (b - a);
    assert a !! b - a;
  }

  lemma OneMore<T>(s: seq<T>, i: nat)
    requires i < |s|
    ensures s[..i + 1] == s[..i] + [s[i]]
  {}

  lemma SameEntries<K, V>(m: map<K, V>, n: map<K, V>)
    requires forall k | k in m :: k in n && m[k] == n[k]
    requires forall k | k in n :: k in m
    ensures m == n
  {}

  // ---------------------------------------------------------------- counting

  ghost function CountIf<T>(s: seq<T>, p: T -> bool): nat {
    if s == [] then 0
    else CountIf(s[..|s| - 1], p) + (if p(s[|s| - 1]) then 1 else 0)
  }

  lemma {:induction false} CountIfUpdate<T>(s: seq<T>, p: T -> bool, i: nat, x: T)
    requires i < |s|
    ensures CountIf(s[i := x], p) == CountIf(s, p) + (if p(x) then 1 else 0) - (if p(s[i]) then 1 else 0)
  {
    var n := |s| - 1;
    if i < n {
      CountIfUpdate(s[..n], p, i, x);
      assert s[i := x][..n] == s[..n][i := x];
    } else {
      assert s[i := x][..n] == s[..n];
    }
  }

  lemma CountIfSnoc<T>(s: seq<T>, p: T -> bool, x: T)
    ensures CountIf(s + [x], p) == CountIf(s, p) + (if p(x) then 1 else 0)
  {
    assert (s + [x])[..|s|] == s;
  }

  lemma {:induction false} CountIfBounds<T>(s: seq<T>, p: T -> bool)
    ensures CountIf(s, p) <= |s|
    ensures CountIf(s, p) == |s| <==> forall i | 0 <= i < |s| :: p(s[i])
    ensures CountIf(s, p) == 0 <==> forall i | 0 <= i < |s| :: !p(s[i])
  {
    if s != [] {
      var n := |s| - 1;
      CountIfBounds(s[..n], p);
      assert forall i | 0 <= i < n :: s[..n][i] == s[i];
    }
  }

  ghost function SumBy<T>(s: seq<T>, f: T -> nat): nat {
    if s == [] then 0 else SumBy(s[..|s| - 1], f) + f(s[|s| - 1])
  }

  lemma {:induction false} SumByUpdate<T>(s: seq<T>, f: T -> nat, i: nat, x: T)
    requires i < |s|
    ensures SumBy(s[i := x], f) == SumBy(s, f) + f(x) - f(s[i])
  {
    var n := |s| - 1;
    if i < n {
      SumByUpdate(s[..n], f, i, x);
      assert s[i := x][..n] == s[..n][i := x];
    } else {
      assert s[i := x][..n] == s[..n];
    }
  }

  lemma {:induction false} SumByIsBounded<T>(s: seq<T>, f: T -> nat, bound: nat)
    requires forall x | x in s :: f(x) <= bound
    ensures SumBy(s, f) <= bound * |s|
  {
    if s != [] {
      SumByIsBounded(s[..|s| - 1], f, bound);
    }
  }

  // ---------------------------------------------------------------- unions

  ghost function UnionOf<T>(own: set<T>, sets: seq<set<T>>): set<T> {
    if sets == [] then own else UnionOf(own, sets[..|sets| - 1]) + sets[|sets| - 1]
  }

  ghost predicate Apart<T>(own: set<T>, sets: seq<set<T>>) {
    && (forall i, j | 0 <= i < j < |sets| :: sets[i] !! sets[j])
    && (forall i | 0 <= i < |sets| :: own !! sets[i])
  }

  lemma {:induction false} InUnion<T>(own: set<T>, sets: seq<set<T>>, x: T)
    ensures x in UnionOf(own, sets) <==> x in own || exists i :: 0 <= i < |sets| && x in sets[i]
  {
    if sets != [] {
      InUnion(own, sets[..|sets| - 1], x);
    }
  }

  lemma UnionCount<T>(a: set<T>, b: set<T>)
    ensures |a + b| <= |a| + |b| && (|a + b| == |a| + |b| <==> a !! b)
  {
    assert |a + b| + |a * b| == |a| + |b|;
    if |a * b| == 0 {
      assert forall x | x in a && x in b :: x in a * b;
    }
    assert a !! b ==> a * b == {};
  }

  lemma ApartOneMore<T>(own: set<T>, sets: seq<set<T>>)
    requires sets != []
    ensures var front, last := sets[..|sets| - 1], sets[|sets| - 1];
            Apart(own, sets) <==> Apart(own, front) && UnionOf(own, front) !! last
  {
    var front, last := sets[..|sets| - 1], sets[|sets| - 1];
    forall x {
      InUnion(own, front, x);
    }
    assert forall i | 0 <= i < |front| :: front[i] == sets[i];
  }

  /** A union has as many elements as its sets together exactly if no two of them share one. */
  lemma {:induction false} UnionCounts<T>(own: set<T>, sets: seq<set<T>>)
    ensures |UnionOf(own, sets)| <= |own| + SumBy(sets, (s: set<T>) => |s|)
    ensures |UnionOf(own, sets)| == |own| + SumBy(sets, (s: set<T>) => |s|) <==> Apart(own, sets)
  {
    if sets != [] {
      var front, last := sets[..|sets| - 1], sets[|sets| - 1];
      UnionCounts(own, front);
      UnionCount(UnionOf(own, front), last);
      ApartOneMore(own, sets);
    }
  }

  lemma SingletonsCount<T>(sets: seq<set<T>>, xs: seq<T>)
    requires |sets| == |xs| && NoDuplicates(xs) && forall i | 0 <= i < |xs| :: sets[i] == {xs[i]}
    ensures |UnionOf({}, sets)| == |xs|
  {
    forall x {
      InUnion({}, sets, x);
    }
    assert UnionOf({}, sets) == Elements(xs);
    DistinctElementsCount(xs);
  }

  // ---------------------------------------------------------------- separators in strings

  ghost predicate Free(c: char, s: string) {
    c !in s
  }

  /** Two texts without c that are each followed by c and then anything are the same text. */
  lemma SplitAtFirst(a: string, b: string, restA: string, restB: string, c: char)
    requires Free(c, a) && Free(c, b)
    requires a + [c] + restA == b + [c] + restB
    ensures a == b && restA == restB
  {
    var whole := a + [c] + restA;
    assert whole == b + [c] + restB;
    assert whole[|a|] == c && whole[|b|] == c;
    assert forall i | 0 <= i < |a| :: whole[i] == a[i] && a[i] != c;
    assert forall i | 0 <= i < |b| :: whole[i] == b[i] && b[i] != c;
    assert a == whole[..|a|] && b == whole[..|b|];
    assert restA == whole[|a| + 1..] && restB == whole[|b| + 1..];
  }

  /** Two texts without c that are each preceded by c and anything before it are the same text. */
  lemma SplitAtLast(beforeA: string, beforeB: string, a: string, b: string, c: char)
    requires Free(c, a) && Free(c, b)
    requires beforeA + [c] + a == beforeB + [c] + b
    ensures a == b && beforeA == beforeB
  {
    var whole := beforeA + [c] + a;
    assert whole == beforeB + [c] + b;
    assert whole[|beforeA|] == c && whole[|beforeB|] == c;
    assert forall i | |beforeA| < i < |whole| :: whole[i] == a[i - |beforeA| - 1] && a[i - |beforeA| - 1] != c;
    assert forall i | |beforeB| < i < |whole| :: whole[i] == b[i - |beforeB| - 1] && b[i - |beforeB| - 1] != c;
    assert beforeA == whole[..|beforeA|] && beforeB == whole[..|beforeB|];
    assert a == whole[|beforeA| + 1..] && b == whole[|beforeB| + 1..];
  }
}
