/** The record being ordered. Only `grade` (read through `getGrade()`) is
    seen by the comparators; `rest` stands for every other field. */
module Students {
  import opened Java32

  datatype Student<T> = Student(grade: Int32, rest: T)
}
