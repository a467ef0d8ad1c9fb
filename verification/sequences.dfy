/** Small facts about sequences used by several modules. */
module Sequences {

  function Map<A, B>(f: A -> B, s: seq<A>): (r: seq<B>)
    ensures |r| == |s|
    ensures forall i | 0 <= i < |s| :: r[i] == f(s[i])
  {
    if s == [] then [] else Map(f, s[..|s| - 1]) + [f(s[|s| - 1])]
  }

  ghost predicate NoDuplicates<T>(s: seq<T>) {
    forall i, j :: 0 <= i < j < |s| ==> s[i] != s[j]
  }

  lemma {:induction false} NoDuplicatesSnoc<T>(front: seq<T>, last: T)
    ensures NoDuplicates(front + [last]) <==> NoDuplicates(front) && last !in front
  {
    var s := front + [last];
    assert forall i | 0 <= i < |front| :: s[i] == front[i];
    if last in front {
      var i :| 0 <= i < |front| && front[i] == last;
      assert s[i] == s[|front|];
    }
  }

  lemma {:induction false} NoDuplicatesCounts<T>(s: seq<T>)
    ensures NoDuplicates(s) <==> forall x :: x in multiset(s) ==> multiset(s)[x] == 1
  {
    if s != [] {
      var front, last := s[..|s| - 1], s[|s| - 1];
      assert s == front + [last];
      NoDuplicatesCounts(front);
      NoDuplicatesSnoc(front, last);
      assert multiset(s) == multiset(front) + multiset{last};
      if last !in front && NoDuplicates(front) {
        assert multiset(front)[last] == 0;
      } else if last in front {
        assert multiset(s)[last] >= 2;
      } else {
        var x :| x in multiset(front) && multiset(front)[x] != 1;
        assert multiset(s)[x] >= multiset(front)[x] >= 2;
      }
    }
  }

  /** The head of one list, taken out of the other. */
  lemma {:induction false} MatchHead<T>(a: seq<T>, b: seq<T>) returns (l: seq<T>, r: seq<T>)
    requires a != [] && multiset(a) == multiset(b)
    ensures b == l + [a[0]] + r && multiset(a[1..]) == multiset(l + r)
  {
    HeadMultiset(a);
    assert a[0] in multiset(b);
    var j :| 0 <= j < |b| && b[j] == a[0];
    l, r := b[..j], b[j + 1..];
    assert b == l + [a[0]] + r;
    MultisetSplit(l, a[0], r);
    RemoveSame(multiset(a[1..]), multiset(l + r), a[0]);
  }

  lemma {:induction false} MapConcat<A, B>(f: A -> B, a: seq<A>, b: seq<A>)
    ensures Map(f, a + b) == Map(f, a) + Map(f, b)
  {
    var l, r := Map(f, a + b), Map(f, a) + Map(f, b);
    forall i | 0 <= i < |a + b| ensures l[i] == r[i] {
      assert (a + b)[i] == if i < |a| then a[i] else b[i - |a|];
    }
  }

  lemma {:induction false} MultisetSplit<T>(l: seq<T>, x: T, r: seq<T>)
    ensures multiset(l + [x] + r) == multiset{x} + multiset(l + r)
  {
  }

  lemma {:induction false} MapSplit<A, B>(f: A -> B, l: seq<A>, x: A, r: seq<A>)
    ensures multiset(Map(f, l + [x] + r)) == multiset{f(x)} + multiset(Map(f, l + r))
  {
    MapConcat(f, l + [x], r);
    MapConcat(f, l, [x]);
    MapConcat(f, l, r);
    assert Map(f, [x]) == [f(x)];
    MultisetSplit(Map(f, l), f(x), Map(f, r));
  }

  /** Mapping a permutation gives a permutation. */
  lemma {:induction false} MapPermuted<A, B>(f: A -> B, a: seq<A>, b: seq<A>)
    requires multiset(a) == multiset(b)
    ensures multiset(Map(f, a)) == multiset(Map(f, b))
  {
    if a == [] {
      assert |multiset(b)| == |b| == 0;
    } else {
      var x, rest := a[0], a[1..];
      assert a == [x] + rest;
      var l, r := MatchHead(a, b);
      MapPermuted(f, rest, l + r);
      MapPutBack(f, x, rest, l, r);
    }
  }

  lemma {:induction false} MapPutBack<A, B>(f: A -> B, x: A, rest: seq<A>, l: seq<A>, r: seq<A>)
    requires multiset(Map(f, rest)) == multiset(Map(f, l + r))
    ensures multiset(Map(f, [x] + rest)) == multiset(Map(f, l + [x] + r))
  {
    MapConcat(f, [x], rest);
    assert Map(f, [x]) == [f(x)];
    MapSplit(f, l, x, r);
  }

  /** The first of the values a list is mapped to, taken out of the list. */
  lemma {:induction false} TakeMapped<A, B>(f: A -> B, wanted: seq<B>, s: seq<A>)
    returns (left: seq<A>, x: A, right: seq<A>)
    requires wanted != [] && multiset(Map(f, s)) == multiset(wanted)
    ensures s == left + [x] + right && f(x) == wanted[0]
    ensures multiset(Map(f, left + right)) == multiset(wanted[1..])
  {
    var w := wanted[0];
    HeadMultiset(wanted);
    assert w in multiset(Map(f, s));
    var j :| 0 <= j < |s| && Map(f, s)[j] == w;
    left, x, right := s[..j], s[j], s[j + 1..];
    assert s == left + [x] + right;
    MapSplit(f, left, x, right);
    RemoveSame(multiset(Map(f, left + right)), multiset(wanted[1..]), w);
  }

  lemma {:induction false} HeadMultiset<T>(s: seq<T>)
    requires s != []
    ensures multiset(s) == multiset{s[0]} + multiset(s[1..])
  {
    assert s == [s[0]] + s[1..];
  }

  lemma {:induction false} RemoveSame<T>(a: multiset<T>, b: multiset<T>, x: T)
    requires multiset{x} + a == multiset{x} + b
    ensures a == b
  {
    assert (multiset{x} + a) - multiset{x} == a && (multiset{x} + b) - multiset{x} == b;
  }

  /** A list that is mapped to some values in another order can be put in that order. */
  lemma {:induction false} PermuteTo<A, B>(f: A -> B, wanted: seq<B>, s: seq<A>) returns (r: seq<A>)
    requires multiset(Map(f, s)) == multiset(wanted)
    ensures |r| == |wanted| && multiset(r) == multiset(s)
    ensures forall i | 0 <= i < |r| :: f(r[i]) == wanted[i]
    decreases wanted
  {
    if wanted == [] {
      assert |Map(f, s)| == |multiset(Map(f, s))| == 0;
      r := [];
    } else {
      var left, x, right := TakeMapped(f, wanted, s);
      var rest := PermuteTo(f, wanted[1..], left + right);
      r := [x] + rest;
      MultisetSplit(left, x, right);
    }
  }

  /** Working through `s` in place: `done` comes from the first i elements. */
  lemma {:induction false} DropNext<T>(done: seq<T>, s: seq<T>, i: nat)
    requires i < |s|
    ensures (done + s[i..])[..|done|] + (done + s[i..])[|done| + 1..] == done + s[i + 1..]
  {
  }

  lemma {:induction false} SetNext<T>(done: seq<T>, s: seq<T>, i: nat, x: T)
    requires i < |s|
    ensures (done + s[i..])[|done| := x] == done + [x] + s[i + 1..]
  {
  }

  /** The elements in order of their first occurrence. */
  function Distinct<T(==,!new)>(s: seq<T>): (r: seq<T>)
    ensures forall x :: x in r <==> x in s
  {
    if s == [] then []
    else
      var front, last := Distinct(s[..|s| - 1]), s[|s| - 1];
      assert s == s[..|s| - 1] + [last];
      if last in s[..|s| - 1] then front else front + [last]
  }

  lemma {:induction false} DistinctIs<T(!new)>(s: seq<T>)
    ensures NoDuplicates(Distinct(s))
    ensures NoDuplicates(s) ==> Distinct(s) == s
  {
    if s != [] {
      var front, last := s[..|s| - 1], s[|s| - 1];
      assert s == front + [last];
      DistinctIs(front);
      NoDuplicatesSnoc(front, last);
      NoDuplicatesSnoc(Distinct(front), last);
    }
  }
}
