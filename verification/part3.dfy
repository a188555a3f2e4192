/** The fixed ascending `StudentGradeComparator` of package `part3`. */
module Part3 {
  import opened Java32
  import opened Students

  /** `compare(a, b)`: `Integer.compare` of the two grades. */
  function Compare<T>(a: Student<T>, b: Student<T>): (r: Int32)
    ensures -1 <= r <= 1
    ensures r < 0 <==> a.grade < b.grade
    ensures r == 0 <==> a.grade == b.grade
    ensures r > 0 <==> a.grade > b.grade
  {
    Java32.Compare(a.grade, b.grade)
  }

  lemma Reflexive<T>(a: Student<T>)
    ensures Compare(a, a) == 0
  {
  }

  /** Swapping the arguments negates the result (not only its sign). */
  lemma Antisymmetric<T>(a: Student<T>, b: Student<T>)
    ensures Compare(a, b) as int == -(Compare(b, a) as int)
  {
  }

  lemma Transitive<T>(a: Student<T>, b: Student<T>, c: Student<T>)
    requires Compare(a, b) <= 0 && Compare(b, c) <= 0
    ensures Compare(a, c) <= 0
  {
  }

  lemma StrictlyTransitive<T>(a: Student<T>, b: Student<T>, c: Student<T>)
    requires Compare(a, b) < 0 && Compare(b, c) < 0
    ensures Compare(a, c) < 0
  {
  }

  /** Students that compare equal are interchangeable against any third. */
  lemma Substitutable<T>(a: Student<T>, b: Student<T>, c: Student<T>)
    requires Compare(a, b) == 0
    ensures Compare(a, c) == Compare(b, c)
    ensures Compare(c, a) == Compare(c, b)
  {
  }

  /** Fields other than the grade never influence the result. */
  lemma OnlyGradeMatters<T>(a: Student<T>, a': Student<T>, b: Student<T>, b': Student<T>)
    requires a.grade == a'.grade && b.grade == b'.grade
    ensures Compare(a, b) == Compare(a', b')
  {
  }
}
