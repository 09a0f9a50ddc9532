/** The entity the service stores (namespace StudentCrudApi.Models). */
module Models {

  /** A student record. `id` is assigned by the service on `Add`; a caller
      builds a record with only `name` and `school` filled in, which in C#
      leaves `Id` at its default of 0. */
  datatype Student = Student(id: int, name: string, school: string)
}
