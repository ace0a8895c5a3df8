/** The values the employee registry stores and returns. */
module Model {

  /** An employee is identified only by its two names. The Java class `model.Employee`
      is modelled as a value: two employees are equal exactly when both names are equal
      (structural equality). The conditional removal in `EmployeeService.deleteEmployee`
      depends on this assumption. */
  datatype Employee = Employee(firstName: string, lastName: string)

  /** The three exceptions the registry throws, as error values.
      HTTP status codes attached to them are not modelled. */
  datatype EmployeeError =
    | StorageIsFull   // EmployeeStorageIsFullException
    | AlreadyAdded    // EmployeeAlreadyAddedException
    | NotFound        // EmployeeNotFoundException

  /** The outcome of an operation: the returned value, or the exception thrown instead. */
  datatype Result<T> = Ok(value: T) | Err(error: EmployeeError)
}
