/** The bcrypt primitive used by the user model, as a symbolic term algebra.

    A digest records the cost factor and the value it was computed from. bcrypt uses at
    most the first 72 bytes of the UTF-8 encoding of a password, so `Compare` looks only
    at that key. Salts and one-wayness are not represented. */
module Bcrypt {

  /** Bytes of a UTF-8 encoding. */
  type Byte = b: int | 0 <= b < 256

  /** The value held in a user's `password` field: clear text as submitted by a form,
      or a digest of some earlier value of the field (possibly itself a digest). */
  datatype Password = Plain(text: string) | Digest(rounds: nat, input: Password)

  /** Most key bytes bcrypt reads. */
  const MaxKeyBytes := 72

  /** The UTF-8 encoding of one character (one to four bytes). */
  function EncodeChar(c: char): (bs: seq<Byte>)
    ensures 1 <= |bs| <= 4
    ensures |bs| == 1 <==> c as int < 0x80
  {
    var n := c as int;
    if n < 0x80 then [n]
    else if n < 0x800 then [0xC0 + n / 0x40, 0x80 + n % 0x40]
    else if n < 0x1_0000 then [0xE0 + n / 0x1000, 0x80 + (n / 0x40) % 0x40, 0x80 + n % 0x40]
    else [0xF0 + n / 0x4_0000, 0x80 + (n / 0x1000) % 0x40, 0x80 + (n / 0x40) % 0x40, 0x80 + n % 0x40]
  }

  /** The UTF-8 encoding of a string. */
  function Utf8(s: string): (bytes: seq<Byte>)
    ensures |s| <= |bytes| <= 4 * |s|
  {
    if s == [] then [] else EncodeChar(s[0]) + Utf8(s[1..])
  }

  /** The key bcrypt derives from a password: at most the first 72 bytes of its UTF-8
      encoding. */
  function Key(s: string): (k: seq<Byte>)
    ensures |k| <= MaxKeyBytes && |k| <= |Utf8(s)|
    ensures k == Utf8(s)[..|k|]
    ensures |k| < MaxKeyBytes ==> k == Utf8(s)
  {
    var bytes := Utf8(s);
    if |bytes| <= MaxKeyBytes then bytes else bytes[..MaxKeyBytes]
  }

  /** `bcrypt.hash(value, rounds)`. */
  function Hash(p: Password, rounds: nat): (h: Password)
    ensures h.Digest? && h.rounds == rounds
  {
    Digest(rounds, p)
  }

  /** `bcrypt.compare(candidate, stored)`: true exactly when `stored` is a digest of some
      clear text with the same key as `candidate`, whatever cost factor it was made with. */
  predicate Compare(candidate: string, stored: Password)
    ensures Compare(candidate, stored) ==> stored.Digest?
    ensures stored.Digest? && stored.input == Plain(candidate) ==> Compare(candidate, stored)
  {
    stored.Digest? && stored.input.Plain? && Key(stored.input.text) == Key(candidate)
  }

  /** A password is accepted by its own digest, at any cost factor. */
  lemma CompareAcceptsOwnHash(p: string, rounds: nat)
    ensures Compare(p, Hash(Plain(p), rounds))
  {
  }

  /** A digest accepts exactly the clear texts that share its key. */
  lemma CompareAcceptsExactlySameKey(p: string, q: string, rounds: nat)
    ensures Compare(q, Hash(Plain(p), rounds)) <==> Key(q) == Key(p)
  {
  }

  /** Encoding distributes over concatenation. */
  lemma {:induction false} Utf8Append(a: string, b: string)
    ensures Utf8(a + b) == Utf8(a) + Utf8(b)
  {
    if a != [] {
      assert (a + b)[0] == a[0] && (a + b)[1..] == a[1..] + b;
      Utf8Append(a[1..], b);
    } else {
      assert a + b == b;
    }
  }

  /** Passwords that fit in 72 bytes are told apart by their encoding. */
  lemma ShortPasswordsCompareByEncoding(p: string, q: string, rounds: nat)
    requires |Utf8(p)| <= MaxKeyBytes && |Utf8(q)| <= MaxKeyBytes
    ensures Compare(q, Hash(Plain(p), rounds)) <==> Utf8(q) == Utf8(p)
  {
  }

  /** Once a prefix fills the first 72 bytes, whatever follows is ignored. */
  lemma TruncationIgnoresTail(a: string, x: string, y: string, rounds: nat)
    requires |Utf8(a)| >= MaxKeyBytes
    ensures Compare(a + y, Hash(Plain(a + x), rounds))
  {
    PrefixFixesKey(a, x);
    PrefixFixesKey(a, y);
  }

  /** The key of a text starting with a long prefix lies within the prefix. */
  lemma PrefixFixesKey(a: string, x: string)
    requires |Utf8(a)| >= MaxKeyBytes
    ensures Key(a + x) == Utf8(a)[..MaxKeyBytes]
  {
    Utf8Append(a, x);
  }

  /** An ASCII text encodes to one byte per character. */
  lemma {:induction false} AsciiLength(s: string)
    requires forall i :: 0 <= i < |s| ==> s[i] as int < 0x80
    ensures |Utf8(s)| == |s|
  {
    if s != [] {
      AsciiLength(s[1..]);
    }
  }

  /** `n` copies of one character. */
  function Repeat(c: char, n: nat): (s: string)
    ensures |s| == n && forall i :: 0 <= i < n ==> s[i] == c
  {
    if n == 0 then [] else [c] + Repeat(c, n - 1)
  }

  /** Two different 73-character passwords that agree on their first 72 characters both
      pass against the digest of either. */
  lemma LongPasswordsCollide(rounds: nat)
    ensures Repeat('a', 72) + "X" != Repeat('a', 72) + "Y"
    ensures Compare(Repeat('a', 72) + "Y", Hash(Plain(Repeat('a', 72) + "X"), rounds))
  {
    var a := Repeat('a', 72);
    AsciiLength(a);
    assert (a + "X")[72] != (a + "Y")[72];
    TruncationIgnoresTail(a, "X", "Y", rounds);
  }

  /** A field still holding clear text never matches: the stored value must be a digest. */
  lemma CompareRejectsClearText(p: string, q: string)
    ensures !Compare(q, Plain(p))
  {
  }

  /** Hashing an existing digest a second time makes the original password unusable. */
  lemma RehashBreaksCompare(p: string, r1: nat, r2: nat)
    ensures !Compare(p, Hash(Hash(Plain(p), r1), r2))
  {
  }
}
