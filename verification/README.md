# Student grade comparators

A Dafny model of the two `StudentGradeComparator` classes of the Java Creed
"sorting objects using a comparator" examples. Each is a
`java.util.Comparator<Student>` that orders students by their integer grade.

- `part3` always sorts ascending. `compare(a, b)` returns
  `Integer.compare(a.getGrade(), b.getGrade())`.
- `part5` takes its direction from a private `order` multiplier that is set
  by a private constructor. The class exposes only two instances: `ASC`
  (`order = 1`) and `DESC` (`order = -1`). `compare(a, b)` returns
  `order * Integer.compare(a.getGrade(), b.getGrade())`.

Module layout:

- `Java32` (java32.dfy) models the platform pieces the comparators use:
  Java's 32-bit `int` (`Int32`), its wrapping `*` (`Mul`, built on `Wrap`),
  and `Integer.compare`, which returns -1, 0 or 1.
- `Students` (students.dfy) is the record. `grade` is the value `getGrade()`
  returns. `rest` stands for every other field, which the comparators never
  read.
- `Part3` (part3.dfy) is the ascending comparator and its
  `java.util.Comparator` laws.
- `Part5` (part5.dfy) is the directional comparator. `Order` is the subset
  `{1, -1}` of `Int32`, because the private constructor is only ever called
  for `ASC` and `DESC`. The module holds the same laws, the proof that
  `order * ...` never wraps, and the proof that `DESC` reverses `ASC`.
- `Variants` (variants.dfy) relates the two packages.
- `Sorting` (sorting.dfy) states what "sorted with respect to `compare`"
  means for a list. It proves, for both directions, that the grades of any list
  sorted this way are fixed by the multiset of grades. The sort itself is not modelled.

## Model

| member | source | states |
|---|---|---|
| `Java32.Compare` | src/main/java/com/javacreed/examples/comparator/part3/StudentGradeComparator.java:30 | `Integer.compare` yields a value in -1..1 that is negative, zero or positive exactly when the first grade is below, equal to or above the second |
| `Java32.Mul` | src/main/java/com/javacreed/examples/comparator/part5/StudentGradeComparator.java:40 | Java `int` multiplication equals the true product when that product fits in 32 bits, and is congruent to it modulo 2^32 in all cases |
| `Java32.NegatingMinValueWraps` | src/main/java/com/javacreed/examples/comparator/part5/StudentGradeComparator.java:40 | multiplying `Integer.MIN_VALUE` by -1 gives `Integer.MIN_VALUE` again, so the reversal by `order` relies on the comparison never returning that value |
| `Part3.Compare` | src/main/java/com/javacreed/examples/comparator/part3/StudentGradeComparator.java:29-31 | the ascending comparison lies in -1..1 and is negative, zero or positive exactly when `a.grade` is below, equal to or above `b.grade` |
| `Part3.Reflexive` | src/main/java/com/javacreed/examples/comparator/part3/StudentGradeComparator.java:30 | every student compares equal to itself |
| `Part3.Antisymmetric` | src/main/java/com/javacreed/examples/comparator/part3/StudentGradeComparator.java:30 | swapping the two students negates the result |
| `Part3.Transitive` | src/main/java/com/javacreed/examples/comparator/part3/StudentGradeComparator.java:30 | if `compare(a, b) <= 0` and `compare(b, c) <= 0` then `compare(a, c) <= 0` |
| `Part3.StrictlyTransitive` | src/main/java/com/javacreed/examples/comparator/part3/StudentGradeComparator.java:30 | if `compare(a, b) < 0` and `compare(b, c) < 0` then `compare(a, c) < 0` |
| `Part3.Substitutable` | src/main/java/com/javacreed/examples/comparator/part3/StudentGradeComparator.java:30 | students that compare equal give the same result against any third student, on either side |
| `Part3.OnlyGradeMatters` | src/main/java/com/javacreed/examples/comparator/part3/StudentGradeComparator.java:30 | fields other than the grade never change the result |
| `Part5.Compare` | src/main/java/com/javacreed/examples/comparator/part5/StudentGradeComparator.java:38-41 | the result lies in -1..1 and is zero exactly when the grades are equal. Under `ASC` it is negative exactly when `a.grade < b.grade`; under `DESC` exactly when `a.grade > b.grade`. Positive is the mirror case |
| `Part5.NoOverflow` | src/main/java/com/javacreed/examples/comparator/part5/StudentGradeComparator.java:28-41 | because `order` is only ever 1 or -1, the 32-bit product `order * Integer.compare(...)` equals the mathematical product and never wraps |
| `Part5.DescIsNegatedAsc` | src/main/java/com/javacreed/examples/comparator/part5/StudentGradeComparator.java:28-41 | for every pair, `DESC.compare(a, b)` is `-ASC.compare(a, b)`, which is also `ASC.compare(b, a)` |
| `Part5.Reflexive` | src/main/java/com/javacreed/examples/comparator/part5/StudentGradeComparator.java:40 | for either direction, every student compares equal to itself |
| `Part5.Antisymmetric` | src/main/java/com/javacreed/examples/comparator/part5/StudentGradeComparator.java:40 | for either direction, swapping the students negates the result |
| `Part5.Transitive` | src/main/java/com/javacreed/examples/comparator/part5/StudentGradeComparator.java:40 | for either direction, `<= 0` carries over from `(a, b)` and `(b, c)` to `(a, c)` |
| `Part5.StrictlyTransitive` | src/main/java/com/javacreed/examples/comparator/part5/StudentGradeComparator.java:40 | for either direction, `< 0` carries over from `(a, b)` and `(b, c)` to `(a, c)` |
| `Part5.Substitutable` | src/main/java/com/javacreed/examples/comparator/part5/StudentGradeComparator.java:40 | for either direction, students that compare equal are interchangeable against any third |
| `Part5.ZeroIndependentOfOrder` | src/main/java/com/javacreed/examples/comparator/part5/StudentGradeComparator.java:40 | whether two students compare equal is the same under `ASC` and `DESC` |
| `Part5.OnlyGradeMatters` | src/main/java/com/javacreed/examples/comparator/part5/StudentGradeComparator.java:40 | for either direction, fields other than the grade never change the result |
| `Part5.Examples` | src/main/java/com/javacreed/examples/comparator/part5/StudentGradeComparator.java:28-41 | grades 70 against 85 give a negative result under `ASC` and a positive one under `DESC`; 90 against 90 gives zero under both |
| `Variants.Part3IsAsc` | src/main/java/com/javacreed/examples/comparator/part3/StudentGradeComparator.java:30 | the `part3` comparator returns the same value as `part5`'s `ASC` on every pair |
| `Variants.Part3SwappedIsDesc` | src/main/java/com/javacreed/examples/comparator/part3/StudentGradeComparator.java:30 | the `part3` comparator with its arguments swapped returns the same value as `part5`'s `DESC` |
| `Sorting.SortedAscIffGradesNonDecreasing` | src/main/java/com/javacreed/examples/comparator/part5/StudentGradeComparator.java:28-41 | a list is sorted with respect to `ASC` exactly when its grades never decrease |
| `Sorting.SortedDescIffReverseSortedAsc` | src/main/java/com/javacreed/examples/comparator/part5/StudentGradeComparator.java:28-41 | a list is sorted with respect to `DESC` exactly when its reverse is sorted with respect to `ASC` |
| `Sorting.SortedGradesUnique` | src/main/java/com/javacreed/examples/comparator/part5/StudentGradeComparator.java:40 | two non-decreasing grade sequences with the same multiset of grades are equal |
| `Sorting.SortedGradesDetermined` | src/main/java/com/javacreed/examples/comparator/part5/StudentGradeComparator.java:28-41 | for either direction, two lists sorted with respect to `compare` that hold the same multiset of grades list the same grades in the same order, so a sort's grade order does not depend on how it breaks ties |
| `Sorting.AscendingExample` | src/main/java/com/javacreed/examples/comparator/part5/StudentGradeComparator.java:28-41 | any list of students with grades 60, 95 and 75 that is sorted with respect to `ASC` has grades 60, 75, 95 |
| `Sorting.DescendingExample` | src/main/java/com/javacreed/examples/comparator/part5/StudentGradeComparator.java:28-41 | any such list sorted with respect to `DESC` has grades 95, 75, 60 |

## Left out

- Null arguments are not modelled. Java throws a `NullPointerException` at `a.getGrade()` when a student is null. A `Student` value here always has a grade. There is no separate invalid-argument error in the code either: the only fault is that runtime exception.
- The `Student` class is not part of this model. It is reduced to a grade plus an uninterpreted `rest`, and `getGrade()` is taken to be a plain field read.
- The sort that consumes the comparator (`Collections.sort` / `List.sort`) is Java library code and is not modelled. Only its outcome, a list sorted with respect to `compare`, is stated as `Sorting.SortedBy`.
- The two packages each have their own `Student` class. Both are modelled by the one `Students.Student` datatype, since each comparator reads only the grade.
- The comparator objects' identity and their singleton fields are not modelled as objects. `ASC` and `DESC` are the two values of `Part5.Order`, and `Part5.Compare` takes the instance's `order` as its first argument.
