/**
 The uniform outcome type every service operation returns: either an accepted
 instance or the list of validation errors that rejected it. Java's `null` is
 modelled with `Option`.
 */
module Results {

  /** A value that may be absent; stands for a nullable Java reference. */
  datatype Option<+T> = None | Some(value: T)

  /** The four error kinds; the HTTP boundary maps them to 422, 409, 404 and 500. */
  datatype ErrorKind = Unprocessable | Conflict | NotFound | SystemError

  /** One validation error: a stable code, a human-readable message and its kind. */
  datatype Error = Error(code: string, message: string, kind: ErrorKind)

  /** Accepted with the instance, or rejected with every error found. */
  datatype Result<+T> = Accepted(instance: T) | Rejected(errors: seq<Error>) {

    /** A rejected result always carries at least one error. */
    predicate Valid() {
      Rejected? ==> |errors| > 0
    }

    /** True if this is a rejection with some error of kind `k`. */
    predicate HasKind(k: ErrorKind) {
      Rejected? && exists i :: 0 <= i < |errors| && errors[i].kind == k
    }
  }
}
