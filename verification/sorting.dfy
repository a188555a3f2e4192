/** What a list sorted with the `part5` comparator looks like. The sort
    itself belongs to the Java collections library and is not modelled;
    only its postcondition, "sorted with respect to `compare`", is. */
module Sorting {
  import opened Students
  import opened Part5

  /** Every earlier student compares at most equal to every later one. */
  ghost predicate SortedBy<T>(order: Order, s: seq<Student<T>>) {
    forall i, j :: 0 <= i < j < |s| ==> Compare(order, s[i], s[j]) <= 0
  }

  ghost predicate NonDecreasing(g: seq<int>) {
    forall i, j :: 0 <= i < j < |g| ==> g[i] <= g[j]
  }

  /** The grades of a list of students, in list order. */
  function Grades<T>(s: seq<Student<T>>): (g: seq<int>)
    ensures |g| == |s|
    ensures forall i :: 0 <= i < |s| ==> g[i] == s[i].grade as int
  {
    seq(|s|, i requires 0 <= i < |s| => s[i].grade as int)
  }

  function Reverse<T>(s: seq<T>): (r: seq<T>)
    ensures |r| == |s|
    ensures forall i :: 0 <= i < |s| ==> r[i] == s[|s| - 1 - i]
  {
    if s == [] then [] else Reverse(s[1..]) + [s[0]]
  }

  /** Sorted by `ASC` means the grades never decrease. */
  lemma SortedAscIffGradesNonDecreasing<T>(s: seq<Student<T>>)
    ensures SortedBy(ASC, s) <==> NonDecreasing(Grades(s))
  {
  }

  /** A list is sorted by `DESC` exactly when its reverse is sorted by `ASC`. */
  lemma SortedDescIffReverseSortedAsc<T>(s: seq<Student<T>>)
    ensures SortedBy(DESC, s) <==> SortedBy(ASC, Reverse(s))
  {
    var r := Reverse(s);
    if SortedBy(DESC, s) {
      forall i, j | 0 <= i < j < |r|
        ensures Compare(ASC, r[i], r[j]) <= 0
      {
        var i', j' := |s| - 1 - j, |s| - 1 - i;
        assert Compare(DESC, s[i'], s[j']) <= 0;
        DescIsNegatedAsc(s[i'], s[j']);
      }
    }
    if SortedBy(ASC, r) {
      forall i, j | 0 <= i < j < |s|
        ensures Compare(DESC, s[i], s[j]) <= 0
      {
        var i', j' := |s| - 1 - j, |s| - 1 - i;
        assert r[i'] == s[j] && r[j'] == s[i];
        assert Compare(ASC, r[i'], r[j']) <= 0;
        DescIsNegatedAsc(s[i], s[j]);
      }
    }
  }

  /** Two non-decreasing sequences holding the same multiset of values are
      equal: whatever the sort does with ties, the grades come out the same. */
  lemma {:induction false} SortedGradesUnique(xs: seq<int>, ys: seq<int>)
    requires NonDecreasing(xs) && NonDecreasing(ys)
    requires multiset(xs) == multiset(ys)
    ensures xs == ys
  {
    assert |xs| == |multiset(xs)| == |multiset(ys)| == |ys|;
    if xs != [] {
      assert xs[0] in multiset(ys) && ys[0] in multiset(xs);
      HeadIsLeast(ys, xs[0]);
      HeadIsLeast(xs, ys[0]);
      DropHead(xs);
      DropHead(ys);
      SortedGradesUnique(xs[1..], ys[1..]);
      SameHeadSameTail(xs, ys);
    }
  }

  /** The first element of a non-decreasing sequence is its least. */
  lemma HeadIsLeast(g: seq<int>, v: int)
    requires NonDecreasing(g) && v in multiset(g)
    ensures g[0] <= v
  {
  }

  lemma SameHeadSameTail(xs: seq<int>, ys: seq<int>)
    requires xs != [] && ys != [] && xs[0] == ys[0] && xs[1..] == ys[1..]
    ensures xs == ys
  {
  }

  lemma DropHead(g: seq<int>)
    requires g != []
    ensures NonDecreasing(g) ==> NonDecreasing(g[1..])
    ensures multiset(g[1..]) == multiset(g) - multiset{g[0]}
  {
    assert g == [g[0]] + g[1..];
  }

  /** Whatever a sort does with ties, two lists sorted in the same direction
      that hold the same grades list those grades in the same order. */
  lemma SortedGradesDetermined<T>(order: Order, s: seq<Student<T>>, t: seq<Student<T>>)
    requires SortedBy(order, s) && SortedBy(order, t)
    requires multiset(Grades(s)) == multiset(Grades(t))
    ensures Grades(s) == Grades(t)
  {
    if order == ASC {
      SortedAscIffGradesNonDecreasing(s);
      SortedAscIffGradesNonDecreasing(t);
      SortedGradesUnique(Grades(s), Grades(t));
    } else {
      var rs, rt := Reverse(Grades(s)), Reverse(Grades(t));
      SortedDescIffReverseSortedAsc(s);
      SortedDescIffReverseSortedAsc(t);
      SortedAscIffGradesNonDecreasing(Reverse(s));
      SortedAscIffGradesNonDecreasing(Reverse(t));
      assert Grades(Reverse(s)) == rs;
      assert Grades(Reverse(t)) == rt;
      ReverseMultiset(Grades(s));
      ReverseMultiset(Grades(t));
      SortedGradesUnique(rs, rt);
      assert forall i :: 0 <= i < |s| ==> Grades(s)[i] == rs[|s| - 1 - i];
    }
  }

  /** Sorting students with grades 60, 95, 75 ascending gives 60, 75, 95. */
  lemma AscendingExample<T>(s: seq<Student<T>>)
    requires SortedBy(ASC, s)
    requires multiset(Grades(s)) == multiset([60, 95, 75])
    ensures Grades(s) == [60, 75, 95]
  {
  }

  /** and descending gives 95, 75, 60. */
  lemma DescendingExample<T>(s: seq<Student<T>>)
    requires SortedBy(DESC, s)
    requires multiset(Grades(s)) == multiset([60, 95, 75])
    ensures Grades(s) == [95, 75, 60]
  {
  }

  /** Reversing keeps every element, as many times as it occurs. */
  lemma {:induction false} ReverseMultiset<T>(s: seq<T>)
    ensures multiset(Reverse(s)) == multiset(s)
  {
    if s != [] {
      ReverseMultiset(s[1..]);
      assert s == [s[0]] + s[1..];
    }
  }
}
