/** JSON Web Tokens (RFC 7519) as used by the login route and the auth guard, modelled
    symbolically: a token either was produced by `jwt.sign` with some subject and key, or
    is any other text. Signatures are assumed unforgeable, so a token verifies under a key
    exactly when it was signed with that key. */
module Jwt {
  import opened Common

  /** `Signed(u, k)` is the compact serialisation of `{ _id: u }` signed with key `k`;
      `Malformed(t)` is any other cookie text, including a tampered token. */
  datatype Token = Signed(subject: Id, key: string) | Malformed(text: string)

  /** `jwt.sign({ _id: subject }, key)`. No expiry claim is added. */
  function Sign(subject: Id, key: string): (t: Token)
    ensures t.Signed?
  {
    Signed(subject, key)
  }

  /** `jwt.verify(token, key)`: the decoded subject, or `None` where the library throws
      (bad signature, malformed token). */
  function Verify(t: Token, key: string): (r: Option<Id>)
    ensures r.Some? ==> t == Sign(r.value, key)
    ensures r.None? ==> forall u :: t != Sign(u, key)
  {
    match t
    case Signed(subject, k) => if k == key then Some(subject) else None
    case Malformed(_) => None
  }

  /** Round trip: a token signed for `u` verifies under the same key as `u`. */
  lemma VerifySign(u: Id, key: string)
    ensures Verify(Sign(u, key), key) == Some(u)
  {
  }

  /** A token signed under one key is refused under any other key. */
  lemma VerifyRejectsOtherKey(u: Id, key: string, other: string)
    requires key != other
    ensures Verify(Sign(u, key), other) == None
  {
  }
}
