/**
 * The cryptographic collaborators of the service, kept opaque: bcrypt's `hash`
 * and `compare`, and the JSON Web Token `sign`/`verify` pair under the
 * process-wide secret. Every transition that needs them receives them as a value
 * of `Primitives`; the properties that depend on how they behave name that
 * behaviour as a predicate below.
 */
module Crypto {
  import opened Wrappers

  datatype Primitives = Primitives(
    hash: string -> string,             // bcrypt.hash(password, 10)
    matches: (string, string) -> bool,  // bcrypt.compare(password, stored)
    sign: nat -> string,                // jwt.sign({ id }, secret, { expiresIn: "1d" })
    verify: string -> Option<nat>)      // jwt.verify(token, secret).id, or a thrown error

  /** A password matches the hash made from it. */
  ghost predicate HashSound(c: Primitives) {
    forall p :: c.matches(p, c.hash(p))
  }

  /** A freshly signed token is non-empty, has no space and verifies to the id it was signed for. */
  ghost predicate TokensSound(c: Primitives) {
    forall id: nat :: |c.sign(id)| > 0 && ' ' !in c.sign(id) && c.verify(c.sign(id)) == Some(id)
  }
}
