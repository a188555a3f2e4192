/** The direction-configurable `StudentGradeComparator` of package `part5`. */
module Part5 {
  import opened Java32
  import opened Students

  /** The private `order` field. The constructor is private and is called
      only for `ASC` and `DESC`, so no other multiplier can exist. */
  type Order = o: Int32 | o == 1 || o == -1 witness 1

  const ASC: Order := 1
  const DESC: Order := -1

  /** `compare(a, b)`: `order * Integer.compare(...)` with Java's wrapping
      `int` multiplication. */
  function Compare<T>(order: Order, a: Student<T>, b: Student<T>): (r: Int32)
    ensures -1 <= r <= 1
    ensures r == 0 <==> a.grade == b.grade
    ensures r < 0 <==> (if order == ASC then a.grade < b.grade else a.grade > b.grade)
    ensures r > 0 <==> (if order == ASC then a.grade > b.grade else a.grade < b.grade)
  {
    Mul(order, Java32.Compare(a.grade, b.grade))
  }

  /** The multiplication never wraps: the result is the exact product. */
  lemma NoOverflow<T>(order: Order, a: Student<T>, b: Student<T>)
    ensures Compare(order, a, b) as int == order as int * Java32.Compare(a.grade, b.grade) as int
  {
  }

  /** `DESC` is exactly `ASC` reversed. */
  lemma DescIsNegatedAsc<T>(a: Student<T>, b: Student<T>)
    ensures Compare(DESC, a, b) as int == -(Compare(ASC, a, b) as int)
    ensures Compare(DESC, a, b) == Compare(ASC, b, a)
  {
  }

  lemma Reflexive<T>(order: Order, a: Student<T>)
    ensures Compare(order, a, a) == 0
  {
  }

  lemma Antisymmetric<T>(order: Order, a: Student<T>, b: Student<T>)
    ensures Compare(order, a, b) as int == -(Compare(order, b, a) as int)
  {
  }

  lemma Transitive<T>(order: Order, a: Student<T>, b: Student<T>, c: Student<T>)
    requires Compare(order, a, b) <= 0 && Compare(order, b, c) <= 0
    ensures Compare(order, a, c) <= 0
  {
  }

  lemma StrictlyTransitive<T>(order: Order, a: Student<T>, b: Student<T>, c: Student<T>)
    requires Compare(order, a, b) < 0 && Compare(order, b, c) < 0
    ensures Compare(order, a, c) < 0
  {
  }

  lemma Substitutable<T>(order: Order, a: Student<T>, b: Student<T>, c: Student<T>)
    requires Compare(order, a, b) == 0
    ensures Compare(order, a, c) == Compare(order, b, c)
    ensures Compare(order, c, a) == Compare(order, c, b)
  {
  }

  /** Whether the result is zero does not depend on the direction. */
  lemma ZeroIndependentOfOrder<T>(o1: Order, o2: Order, a: Student<T>, b: Student<T>)
    ensures Compare(o1, a, b) == 0 <==> Compare(o2, a, b) == 0
  {
  }

  lemma OnlyGradeMatters<T>(order: Order, a: Student<T>, a': Student<T>, b: Student<T>, b': Student<T>)
    requires a.grade == a'.grade && b.grade == b'.grade
    ensures Compare(order, a, b) == Compare(order, a', b')
  {
  }

  /** The two worked examples: 70 against 85, and 90 against 90. */
  lemma Examples<T>(x: T)
    ensures Compare(ASC, Student(70, x), Student(85, x)) < 0
    ensures Compare(DESC, Student(70, x), Student(85, x)) > 0
    ensures Compare(ASC, Student(90, x), Student(90, x)) == 0
    ensures Compare(DESC, Student(90, x), Student(90, x)) == 0
  {
  }
}
