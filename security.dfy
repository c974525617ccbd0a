/** Password hashing as the application uses it: a hash function and a
    check of a plain password against a stored hash. The scheme itself is
    not modelled; it is a parameter of the handlers that need it. */
module Security {

  datatype PasswordScheme = PasswordScheme(
    hash: string -> string,
    verify: (string, string) -> bool)

  /** The one property the handlers rely on: a password checks out against
      its own hash. */
  ghost predicate Sound(s: PasswordScheme) {
    forall p :: s.verify(p, s.hash(p))
  }
}
