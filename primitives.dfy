/**
 * The library calls the controller makes, as values it is given: bcrypt
 * hashing and comparison, SHA-256 with hex output, and JWT signing. Their
 * internals are not modelled. What is modelled is the hex encoding
 * `randomBytes(32).toString('hex')` applies to the raw reset token.
 */
module Primitives {

  /** The cryptographic collaborators, each an uninterpreted function.
      `jwtSign(userId, iat, exp)` signs `{ userId }` with the process secret,
      with issued-at and expiry in seconds. */
  datatype Crypto = Crypto(
    bcryptHash: (string, string) -> string,
    bcryptCompare: (string, string) -> bool,
    sha256Hex: string -> string,
    jwtSign: (nat, int, int) -> string)

  /** SHA-256 is collision free on the inputs that matter; only the lemma
      about re-requested reset tokens relies on it. */
  ghost predicate Sha256Injective(c: Crypto) {
    forall a: string, b: string :: c.sha256Hex(a) == c.sha256Hex(b) ==> a == b
  }

  type Byte = b: int | 0 <= b < 256

  /** A lower-case hexadecimal digit. */
  predicate IsHexDigit(ch: char) {
    '0' <= ch <= '9' || 'a' <= ch <= 'f'
  }

  function HexDigit(n: int): (ch: char)
    requires 0 <= n < 16
    ensures IsHexDigit(ch)
  {
    if n < 10 then ('0' as int + n) as char else ('a' as int + n - 10) as char
  }

  /** `Buffer.toString('hex')`: two lower-case hex digits per byte, high
      nibble first. */
  function Hex(bytes: seq<Byte>): (s: string)
    ensures |s| == 2 * |bytes|
  {
    if bytes == [] then []
    else [HexDigit(bytes[0] / 16), HexDigit(bytes[0] % 16)] + Hex(bytes[1..])
  }

  /** Every character of the encoding is a lower-case hex digit. */
  lemma {:induction false} LemmaHexDigits(bytes: seq<Byte>)
    ensures forall k :: 0 <= k < |Hex(bytes)| ==> IsHexDigit(Hex(bytes)[k])
  {
    if bytes != [] {
      LemmaHexDigits(bytes[1..]);
      var s := Hex(bytes);
      assert s == [HexDigit(bytes[0] / 16), HexDigit(bytes[0] % 16)] + Hex(bytes[1..]);
      assert forall k :: 2 <= k < |s| ==> s[k] == Hex(bytes[1..])[k - 2];
    }
  }

  /** The value of a hex digit (0 for other characters). */
  function HexValue(ch: char): (n: int)
    ensures 0 <= n < 16
  {
    if '0' <= ch <= '9' then ch as int - '0' as int
    else if 'a' <= ch <= 'f' then ch as int - 'a' as int + 10
    else 0
  }

  lemma LemmaHexValueDigit(n: int)
    requires 0 <= n < 16
    ensures HexValue(HexDigit(n)) == n
  {
  }

  /** Decodes pairs of hex digits back into bytes; the inverse of `Hex`. */
  function Unhex(s: string): seq<Byte>
    decreases |s|
  {
    if |s| < 2 then []
    else [HexValue(s[0]) * 16 + HexValue(s[1])] + Unhex(s[2..])
  }

  lemma {:induction false} LemmaHexRoundTrip(bytes: seq<Byte>)
    ensures Unhex(Hex(bytes)) == bytes
  {
    if bytes != [] {
      var b := bytes[0];
      var hi, lo := b / 16, b % 16;
      var d1, d2, rest := HexDigit(hi), HexDigit(lo), Hex(bytes[1..]);
      var s := Hex(bytes);
      assert s == [d1, d2] + rest;
      assert s[0] == d1 && s[1] == d2 && s[2..] == rest;
      LemmaHexValueDigit(hi);
      LemmaHexValueDigit(lo);
      LemmaHexRoundTrip(bytes[1..]);
      assert Unhex(s) == [HexValue(d1) * 16 + HexValue(d2)] + Unhex(rest);
      assert [b] + bytes[1..] == bytes;
    }
  }

  /** Distinct random bytes give distinct raw reset tokens. */
  lemma LemmaHexInjective(a: seq<Byte>, b: seq<Byte>)
    ensures Hex(a) == Hex(b) <==> a == b
  {
    LemmaHexRoundTrip(a);
    LemmaHexRoundTrip(b);
  }
}
