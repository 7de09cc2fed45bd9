/**
 * The `User` model's password and display-name logic. The password is
 * stored as the lower-cased hexadecimal SHA-256 digest of its UTF-8
 * encoding. SHA-256 itself is a parameter `sha256`, about which nothing
 * is assumed; the encoding, the hexadecimal rendering and the lower-casing
 * around it are modelled.
 */
module Users {
  import opened Types

  newtype byte = x: int | 0 <= x < 256

  /** Any function from bytes to digest bytes, standing for SHA-256. */
  type Sha256 = seq<byte> -> seq<byte>

  /** The UTF-8 encoding of one character, as `str.encode()` produces it. */
  function Utf8Char(c: char): (b: seq<byte>)
    ensures 1 <= |b| <= 4
  {
    var u := c as int;
    if u < 0x80 then [u as byte]
    else if u < 0x800 then [(0xC0 + u / 0x40) as byte, (0x80 + u % 0x40) as byte]
    else if u < 0x1_0000 then
      [(0xE0 + u / 0x1000) as byte, (0x80 + u / 0x40 % 0x40) as byte, (0x80 + u % 0x40) as byte]
    else
      [(0xF0 + u / 0x4_0000) as byte, (0x80 + u / 0x1000 % 0x40) as byte,
       (0x80 + u / 0x40 % 0x40) as byte, (0x80 + u % 0x40) as byte]
  }

  /** `s.encode()`: the UTF-8 encoding of a string. */
  function Utf8Encode(s: string): (b: seq<byte>)
    ensures |s| <= |b| <= 4 * |s|
  {
    if s == [] then [] else Utf8Char(s[0]) + Utf8Encode(s[1..])
  }

  function HexDigit(n: int): (c: char)
    requires 0 <= n < 16
    ensures IsLowerHex(c)
  {
    "0123456789abcdef"[n]
  }

  predicate IsLowerHex(c: char) {
    '0' <= c <= '9' || 'a' <= c <= 'f'
  }

  /** `.hexdigest()`: two lower-case hexadecimal digits per byte, high nibble first. */
  function HexDigest(d: seq<byte>): (h: string)
    ensures |h| == 2 * |d|
    ensures forall k :: 0 <= k < |h| ==> IsLowerHex(h[k])
  {
    if d == [] then ""
    else [HexDigit(d[0] as int / 16), HexDigit(d[0] as int % 16)] + HexDigest(d[1..])
  }

  /** `str.lower()` on ASCII letters; other characters are left as they are. */
  function Lower(s: string): (r: string)
    ensures |r| == |s|
    ensures forall k :: 0 <= k < |s| ==> r[k] == if 'A' <= s[k] <= 'Z' then (s[k] as int + 32) as char else s[k]
  {
    if s == [] then ""
    else [if 'A' <= s[0] <= 'Z' then (s[0] as int + 32) as char else s[0]] + Lower(s[1..])
  }

  /** What the setter stores for the string `pwd`: a lower-case hexadecimal digest. */
  function PasswordDigest(sha256: Sha256, pwd: string): (d: string)
    ensures |d| == 2 * |sha256(Utf8Encode(pwd))|
    ensures forall k :: 0 <= k < |d| ==> IsLowerHex(d[k])
  {
    LowerKeepsHexDigest(sha256(Utf8Encode(pwd)));
    Lower(HexDigest(sha256(Utf8Encode(pwd))))
  }

  /** Different digests render differently: the hexadecimal rendering is injective. */
  lemma {:induction false} HexDigestInjective(a: seq<byte>, b: seq<byte>)
    requires HexDigest(a) == HexDigest(b)
    ensures a == b
  {
    if a != [] {
      assert b != [];
      var ha, hb := HexDigest(a), HexDigest(b);
      assert ha[0] == hb[0] && ha[1] == hb[1];
      assert a[0] == b[0] by {
        HexDigitInjective(a[0] as int / 16, b[0] as int / 16);
        HexDigitInjective(a[0] as int % 16, b[0] as int % 16);
      }
      assert ha[2..] == HexDigest(a[1..]) && hb[2..] == HexDigest(b[1..]);
      HexDigestInjective(a[1..], b[1..]);
    }
  }

  lemma HexDigitInjective(m: int, n: int)
    requires 0 <= m < 16 && 0 <= n < 16 && HexDigit(m) == HexDigit(n)
    ensures m == n
  {
  }

  /** A hexadecimal digest is already lower-case, so `.lower()` leaves it unchanged. */
  lemma LowerKeepsHexDigest(d: seq<byte>)
    ensures Lower(HexDigest(d)) == HexDigest(d)
  {
  }

  class User {
    var email: Option<string>
    /** `_password`: the stored digest, or `None`. */
    var password: Option<string>
    var firstName: Option<string>
    var lastName: Option<string>

    /** `__init__`: the fields as given; `_password` is stored without hashing. */
    constructor (email: Option<string>, password: Option<string>,
                 firstName: Option<string>, lastName: Option<string>)
      ensures this.email == email && this.password == password
      ensures this.firstName == firstName && this.lastName == lastName
    {
      this.email := email;
      this.password := password;
      this.firstName := firstName;
      this.lastName := lastName;
    }

    /** The `password` setter: `None` for `None` or a non-string, else the digest. */
    method SetPassword(pwd: Arg, sha256: Sha256)
      modifies this`password
      ensures password == if pwd.Str? then Some(PasswordDigest(sha256, pwd.s)) else None
    {
      if pwd.NoneArg? || !pwd.Str? {
        password := None;
      } else {
        password := Some(Lower(HexDigest(sha256(Utf8Encode(pwd.s)))));
      }
    }

    /** `is_valid_password`: never for a non-string candidate or an unset password. */
    function IsValidPassword(pwd: Arg, sha256: Sha256): (ok: bool)
      reads this
      ensures ok <==> pwd.Str? && password.Some? && password.value == PasswordDigest(sha256, pwd.s)
    {
      if pwd.NoneArg? || !pwd.Str? then false
      else if password.None? then false
      else Lower(HexDigest(sha256(Utf8Encode(pwd.s)))) == password.value
    }

    /**
     * `display_name`: the names when any is set (both joined by one space),
     * else the email, else the empty string.
     */
    function DisplayName(): (name: string)
      reads this
      ensures email.None? && firstName.None? && lastName.None? ==> name == ""
      ensures email.Some? && firstName.None? && lastName.None? ==> name == email.value
      ensures firstName.Some? && lastName.None? ==> name == firstName.value
      ensures firstName.None? && lastName.Some? ==> name == lastName.value
      ensures firstName.Some? && lastName.Some? ==> name == firstName.value + " " + lastName.value
    {
      if email.None? && firstName.None? && lastName.None? then ""
      else if firstName.None? && lastName.None? then email.value
      else if lastName.None? then firstName.value
      else if firstName.None? then lastName.value
      else firstName.value + " " + lastName.value
    }
  }

  /** After `password = p`, `p` itself is accepted. */
  lemma SetThenValid(user: User, sha256: Sha256, p: string)
    requires user.password == Some(PasswordDigest(sha256, p))
    ensures user.IsValidPassword(Str(p), sha256)
  {
  }

  /**
   * After `password = p`, a candidate `q` is accepted exactly when SHA-256
   * gives the same digest for the encodings of `q` and `p`.
   */
  lemma ValidIffSameDigest(user: User, sha256: Sha256, p: string, q: string)
    requires user.password == Some(PasswordDigest(sha256, p))
    ensures user.IsValidPassword(Str(q), sha256) <==> sha256(Utf8Encode(q)) == sha256(Utf8Encode(p))
  {
    LowerKeepsHexDigest(sha256(Utf8Encode(p)));
    LowerKeepsHexDigest(sha256(Utf8Encode(q)));
    if user.IsValidPassword(Str(q), sha256) {
      HexDigestInjective(sha256(Utf8Encode(q)), sha256(Utf8Encode(p)));
    }
  }

  /** With no password stored, or a candidate that is not a string, nothing is accepted. */
  lemma NothingValidWithoutPassword(user: User, sha256: Sha256, pwd: Arg)
    requires user.password.None? || !pwd.Str?
    ensures !user.IsValidPassword(pwd, sha256)
  {
  }
}
