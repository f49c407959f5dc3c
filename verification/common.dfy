/** Values shared by the two pages: an optional value (the source's `null`),
    the toast notifications the pages raise, and navigation targets. */
module Common {

  /** A value that may be absent; `None` stands for JavaScript's `null`. */
  datatype Option<+T> = None | Some(value: T)

  /** A notification raised through `toast.success` or `toast.error`. */
  datatype Toast = SuccessToast(message: string) | ErrorToast(message: string)

  /** A route passed to `navigate`. */
  type Path = string

  const HomePath: Path := "/"
  const AuthPath: Path := "/auth"
}
