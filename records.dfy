/** The student record shared by the listing page, the record form and the chart. */
module Records {

  /** An optional value: the shape of a JavaScript value that may be absent. */
  datatype Option<T> = None | Some(value: T)

  /**
   * A student record as the list endpoint returns it and as the record form
   * submits it. The store-assigned identifier is only a rendering key and plays
   * no part in the modelled logic, so it is not a field here.
   */
  datatype Student = Student(name: string, email: string, subject: string, marks: int)
}
