/** Datatypes every component of the model shares. */
module Common {
  /** A value the source may leave out: `None`, a missing dictionary key, a nil field. */
  datatype Option<+T> = None | Some(value: T)

  /** The outcome of an operation that the source may abort with an exception or an error value. */
  datatype Result<+T, +E> = Ok(value: T) | Err(error: E)

  /** A field of an unstructured Kubernetes object: not there, there, or there with the wrong type. */
  datatype Field<+T> = Absent | Present(value: T) | Malformed

  /** An environment variable of a Job: a plain value, or a key of a Secret. */
  datatype EnvVar = Plain(name: string, value: string) | FromSecret(name: string, secret: string, key: string)
}
