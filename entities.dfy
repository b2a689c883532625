/**
  The two JPA entities as the filters see them. An employee's department is
  the associated Department row; every employee is taken to have one.
 */
module Entities {
  import opened Dates

  datatype Department = Department(id: int, code: string, name: string, phoneNumber: string)

  /** The Employee columns the filters and orderings reach (salary is a Double in the source). */
  datatype Employee = Employee(id: int, firstName: string, salary: real, hireDate: Date, department: Department)
}
