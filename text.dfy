/**
 * The two pieces of Python's string semantics the layers rely on:
 * `str.strip()` with no argument, and `int(s)` applied to a string.
 */
module Text {
  import opened Types

  /** The characters `str.isspace()` accepts, which `str.strip()` removes. */
  predicate IsSpace(c: char) {
    var u := c as int;
    || 0x09 <= u <= 0x0D || 0x1C <= u <= 0x20 || u == 0x85 || u == 0xA0
    || u == 0x1680 || 0x2000 <= u <= 0x200A || u == 0x2028 || u == 0x2029
    || u == 0x202F || u == 0x205F || u == 0x3000
  }

  /** All characters of `s` are whitespace. */
  predicate Blank(s: string) {
    forall k :: 0 <= k < |s| ==> IsSpace(s[k])
  }

  /** `s` with its leading whitespace removed. */
  function TrimStart(s: string): (r: string)
    ensures |r| <= |s| && r == s[|s| - |r|..]
    ensures r == [] || !IsSpace(r[0])
  {
    if s != [] && IsSpace(s[0]) then TrimStart(s[1..]) else s
  }

  /** `s` with its trailing whitespace removed. */
  function TrimEnd(s: string): (r: string)
    ensures |r| <= |s| && r == s[..|r|]
    ensures r == [] || !IsSpace(r[|r| - 1])
  {
    if s != [] && IsSpace(s[|s| - 1]) then TrimEnd(s[..|s| - 1]) else s
  }

  /** Python's `s.strip()`: both ends trimmed of whitespace. */
  function Strip(s: string): (r: string)
    ensures r == [] || (!IsSpace(r[0]) && !IsSpace(r[|r| - 1]))
  {
    TrimEnd(TrimStart(s))
  }

  /** What `TrimStart` removes is whitespace. */
  lemma {:induction false} TrimStartRemovesBlank(s: string)
    ensures Blank(s[..|s| - |TrimStart(s)|])
  {
    if s != [] && IsSpace(s[0]) {
      TrimStartRemovesBlank(s[1..]);
      var n := |s| - |TrimStart(s)|;
      forall k | 0 <= k < n ensures IsSpace(s[k]) {
        if k > 0 {
          assert s[k] == s[1..][..n - 1][k - 1];
        }
      }
    }
  }

  /** What `TrimEnd` removes is whitespace. */
  lemma {:induction false} TrimEndRemovesBlank(s: string)
    ensures Blank(s[|TrimEnd(s)|..])
  {
    if s != [] && IsSpace(s[|s| - 1]) {
      var t := s[..|s| - 1];
      TrimEndRemovesBlank(t);
      var n := |TrimEnd(s)|;
      forall k | n <= k < |s| ensures IsSpace(s[k]) {
        if k < |s| - 1 {
          assert s[k] == t[n..][k - n];
        }
      }
    }
  }

  /** A string is stripped to nothing exactly when it is all whitespace. */
  lemma StripEmptyIffBlank(s: string)
    ensures Strip(s) == [] <==> Blank(s)
  {
    var t := TrimStart(s);
    TrimStartRemovesBlank(s);
    TrimEndRemovesBlank(t);
    assert t == [] || t[0] == s[|s| - |t|];
    assert t[0..] == t;
    if Strip(s) == [] {
      forall k | 0 <= k < |s| ensures IsSpace(s[k]) {
        assert s[k] == s[..|s| - |t|][k];
      }
    }
  }

  predicate IsDigit(c: char) {
    '0' <= c <= '9'
  }

  /**
   * The digit part accepted by `int(s)` in base 10: ASCII digits, where a
   * single `_` may separate two digits.
   */
  predicate DigitGroups(s: string) {
    && |s| > 0
    && IsDigit(s[0])
    && forall k :: 0 <= k < |s| ==>
         IsDigit(s[k]) || (s[k] == '_' && k + 1 < |s| && IsDigit(s[k + 1]))
  }

  /** The number the digits of `s` spell, underscores skipped. */
  function DigitsValue(s: string): nat {
    if s == [] then 0
    else if IsDigit(s[|s| - 1]) then DigitsValue(s[..|s| - 1]) * 10 + (s[|s| - 1] as int - '0' as int)
    else DigitsValue(s[..|s| - 1])
  }

  /**
   * The whitespace `int(s)` skips around the number: every `str.isspace()`
   * character except the four ASCII information separators U+001C to
   * U+001F, which `int()` does not treat as whitespace.
   */
  predicate IsIntSpace(c: char) {
    IsSpace(c) && !(0x1C <= c as int <= 0x1F)
  }

  /** `s` with the whitespace `int()` skips removed from both ends. */
  function IntStrip(s: string): (r: string)
    ensures |r| <= |s|
    ensures r == [] || (!IsIntSpace(r[0]) && !IsIntSpace(r[|r| - 1]))
    ensures s != [] && !IsIntSpace(s[0]) ==> r != [] && r[0] == s[0]
  {
    if s != [] && IsIntSpace(s[0]) then IntStrip(s[1..])
    else if s != [] && IsIntSpace(s[|s| - 1]) then IntStrip(s[..|s| - 1])
    else s
  }

  /** All characters of `w` are whitespace that `int()` skips. */
  predicate IntBlank(w: string) {
    forall k :: 0 <= k < |w| ==> IsIntSpace(w[k])
  }

  /** Skipped whitespace in front of a slice of `s[1..]` stays skipped whitespace in `s`. */
  lemma PeelFront(s: string, j: nat, n: nat)
    requires s != [] && IsIntSpace(s[0]) && j + n <= |s| - 1
    requires IntBlank(s[1..][..j]) && IntBlank(s[1..][j + n..])
    ensures s[1..][j..j + n] == s[j + 1..j + 1 + n]
    ensures IntBlank(s[..j + 1]) && IntBlank(s[j + 1 + n..])
  {
    forall k | 0 < k < j + 1 ensures IsIntSpace(s[k]) {
      assert s[k] == s[1..][..j][k - 1];
    }
    assert s[j + 1 + n..] == s[1..][j + n..];
  }

  /** Skipped whitespace behind a slice of `s` without its last character stays so in `s`. */
  lemma PeelBack(s: string, i: nat, n: nat)
    requires s != [] && IsIntSpace(s[|s| - 1]) && i + n <= |s| - 1
    requires IntBlank(s[..|s| - 1][..i]) && IntBlank(s[..|s| - 1][i + n..])
    ensures s[..|s| - 1][i..i + n] == s[i..i + n]
    ensures IntBlank(s[..i]) && IntBlank(s[i + n..])
  {
    assert s[..i] == s[..|s| - 1][..i];
    forall k | i + n <= k < |s| - 1 ensures IsIntSpace(s[k]) {
      assert s[k] == s[..|s| - 1][i + n..][k - i - n];
    }
  }

  /**
   * `IntStrip` removes only skipped whitespace: its result is the slice of
   * `s` starting at the returned index, with skipped whitespace on both sides.
   */
  lemma {:induction false} IntStripRemovesOnlySpace(s: string) returns (i: nat)
    ensures i + |IntStrip(s)| <= |s|
    ensures IntStrip(s) == s[i..i + |IntStrip(s)|]
    ensures IntBlank(s[..i]) && IntBlank(s[i + |IntStrip(s)|..])
  {
    var r := IntStrip(s);
    if s != [] && IsIntSpace(s[0]) {
      var j := IntStripRemovesOnlySpace(s[1..]);
      PeelFront(s, j, |r|);
      i := j + 1;
    } else if s != [] && IsIntSpace(s[|s| - 1]) {
      i := IntStripRemovesOnlySpace(s[..|s| - 1]);
      PeelBack(s, i, |r|);
    } else {
      i := 0;
    }
  }

  /** Skipped whitespace around a core whose ends are not whitespace is removed exactly. */
  lemma {:induction false} IntStripPadded(w1: string, d: string, w2: string)
    requires IntBlank(w1) && IntBlank(w2)
    requires d != [] && !IsIntSpace(d[0]) && !IsIntSpace(d[|d| - 1])
    ensures IntStrip(w1 + d + w2) == d
  {
    var s := w1 + d + w2;
    if w1 != [] {
      assert s[0] == w1[0] && s[1..] == w1[1..] + d + w2;
      IntStripPadded(w1[1..], d, w2);
    } else if w2 != [] {
      assert s == d + w2;
      assert s[0] == d[0] && s[|s| - 1] == w2[|w2| - 1];
      assert s[..|s| - 1] == w1 + d + w2[..|w2| - 1];
      IntStripPadded(w1, d, w2[..|w2| - 1]);
    } else {
      assert s == d;
    }
  }

  /**
   * Python's `int(s)` for a string `s`: surrounding whitespace, then an
   * optional sign, then digit groups. `None` stands for the `ValueError`
   * raised on anything else.
   */
  function ParseInt(s: string): (r: Option<int>)
    ensures r.Some? ==> IntStrip(s) != []
    ensures r.Some? && r.value < 0 ==> IntStrip(s)[0] == '-'
  {
    ParseSigned(IntStrip(s))
  }

  /**
   * An information separator in front of the number is not skipped:
   * `int()` rejects the string.
   */
  lemma LeadingSeparatorRejected(c: char, rest: string)
    requires 0x1C <= c as int <= 0x1F
    ensures ParseInt([c] + rest) == None
  {
    assert ([c] + rest)[0] == c;
  }

  /** `int()` on an already stripped string. */
  function ParseSigned(t: string): (r: Option<int>)
    ensures r.Some? ==> t != []
    ensures r.Some? && r.value < 0 ==> t[0] == '-'
  {
    if |t| > 0 && (t[0] == '+' || t[0] == '-') then
      var v: int := DigitsValue(t[1..]);
      if DigitGroups(t[1..]) then Some(if t[0] == '-' then -v else v) else None
    else if DigitGroups(t) then Some(DigitsValue(t))
    else None
  }

  function DigitChar(d: nat): (c: char)
    requires d < 10
    ensures IsDigit(c) && c as int - '0' as int == d
  {
    ['0', '1', '2', '3', '4', '5', '6', '7', '8', '9'][d]
  }

  /** The decimal rendering of `n`, as `str(n)` gives it. */
  function Decimal(n: int): (r: string)
    ensures r != [] && !IsSpace(r[0]) && !IsSpace(r[|r| - 1])
  {
    if n < 0 then "-" + NatDecimal(-n) else NatDecimal(n)
  }

  function NatDecimal(n: nat): (r: string)
    ensures r != [] && forall k :: 0 <= k < |r| ==> IsDigit(r[k])
  {
    if n < 10 then [DigitChar(n)] else NatDecimal(n / 10) + [DigitChar(n % 10)]
  }

  lemma {:induction false} NatDecimalValue(n: nat)
    ensures DigitGroups(NatDecimal(n))
    ensures DigitsValue(NatDecimal(n)) == n
  {
    var r := NatDecimal(n);
    if n >= 10 {
      NatDecimalValue(n / 10);
      assert r[..|r| - 1] == NatDecimal(n / 10);
    }
  }

  /** Digits with or without a leading minus sign parse to their value. */
  lemma ParseSignedDigits(d: string)
    requires DigitGroups(d)
    ensures ParseSigned(d) == Some(DigitsValue(d))
    ensures ParseSigned("-" + d) == Some(-(DigitsValue(d) as int))
  {
    assert ("-" + d)[0] == '-' && ("-" + d)[1..] == d;
  }

  /** `int(str(n)) == n`: parsing inverts the decimal rendering. */
  lemma ParseIntOfDecimal(n: int)
    ensures ParseInt(Decimal(n)) == Some(n)
  {
    assert IntStrip(Decimal(n)) == Decimal(n);
    var m: nat := if n < 0 then -n else n;
    NatDecimalValue(m);
    ParseSignedDigits(NatDecimal(m));
  }

  /** `int()` reads a decimal number back through any whitespace it skips around it. */
  lemma ParseIntPadded(w1: string, n: int, w2: string)
    requires IntBlank(w1) && IntBlank(w2)
    ensures ParseInt(w1 + Decimal(n) + w2) == Some(n)
  {
    IntStripPadded(w1, Decimal(n), w2);
    IntStripPadded([], Decimal(n), []);
    assert [] + Decimal(n) + [] == Decimal(n);
    ParseIntOfDecimal(n);
  }
}
