/** Small value types shared by the store, the routes and the utilities. */
module Common {

  datatype Option<+T> = None | Some(value: T)

  /**
   * The failures the meal store can raise, by kind. The store rethrows each one as a plain `std::exception`
   * copy, so the text a client finally reads is not modelled, only which failure was raised.
   */
  datatype ErrorKind =
    | NotFound        // "Meal not found"
    | AlreadyExists   // "Meal already exists"
    | StoreFailure    // any other SQLite failure, e.g. the `meals` table does not exist
    | BadRequestBody  // the JSON body parsed but lacks a field or has a field of the wrong type

  datatype Result<+T> = Ok(value: T) | Err(kind: ErrorKind)

  /** The result of a store call that returns nothing on success. */
  datatype Outcome = Pass | Fail(kind: ErrorKind)

  function Last<T>(s: seq<T>): T
    requires |s| > 0
  {
    s[|s| - 1]
  }

  predicate NonDecreasing(s: seq<int>)
  {
    forall i, j :: 0 <= i <= j < |s| ==> s[i] <= s[j]
  }
}
