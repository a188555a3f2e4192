/** How the two packages' comparators relate. */
module Variants {
  import opened Students
  import Part3
  import Part5

  /** The fixed ascending comparator is the `ASC` instance. */
  lemma Part3IsAsc<T>(a: Student<T>, b: Student<T>)
    ensures Part3.Compare(a, b) == Part5.Compare(Part5.ASC, a, b)
  {
  }

  /** and reversing its arguments gives the `DESC` instance. */
  lemma Part3SwappedIsDesc<T>(a: Student<T>, b: Student<T>)
    ensures Part3.Compare(b, a) == Part5.Compare(Part5.DESC, a, b)
  {
  }
}
