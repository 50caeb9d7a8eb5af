/** werkzeug's password hashing pair, `generate_password_hash` and
    `check_password_hash`, seen from outside. Their algorithm is not part of
    this model: a `Hasher` is any pair of functions, and the one property the
    store relies on is stated as the predicate `Sound`, which the lemmas that
    need it take as a hypothesis. The random salt werkzeug draws on every call
    is an explicit parameter of `generate`. */
module Hashing {

  type Salt = string

  datatype Hasher = Hasher(
    generate: (string, Salt) -> string,  // generate_password_hash(password), with its salt
    check: (string, string) -> bool      // check_password_hash(pwhash, password)
  )

  /** What werkzeug promises: a freshly generated hash is a non-empty string
      ("method$salt$digest") and it verifies against the password it was
      made from, whatever salt was drawn. */
  ghost predicate Sound(h: Hasher)
  {
    forall password, salt :: h.generate(password, salt) != [] && h.check(h.generate(password, salt), password)
  }

  /** A property of a good hash that the code does not rely on but that the
      "wrong password" case needs: a generated hash verifies against no
      other password. */
  ghost predicate Binding(h: Hasher)
  {
    forall password, salt, guess :: h.check(h.generate(password, salt), guess) ==> guess == password
  }
}
