/** Formatting a character's code point the way `get_charater_hex` does:
    Python's `hex(ord(c))` with the `0x` prefix replaced by `U+`. */
module CharHex {
  import opened Outcomes
  import opened Seqs

  /** The lowercase hexadecimal digit of value `d`. */
  function HexDigit(d: nat): char
    requires d < 16
  {
    "0123456789abcdef"[d]
  }

  predicate IsLowerHexDigit(ch: char) {
    '0' <= ch <= '9' || 'a' <= ch <= 'f'
  }

  /** The value of a lowercase hexadecimal digit. */
  function DigitValue(ch: char): (d: nat)
    requires IsLowerHexDigit(ch)
    ensures d < 16 && HexDigit(d) == ch
  {
    if '0' <= ch <= '9' then ch as int - '0' as int else ch as int - 'a' as int + 10
  }

  /** The digits Python's `hex` prints for a non-negative number: lowercase,
      most significant first, without leading zeros. */
  function LowerHex(n: nat): string
    decreases n
  {
    if n < 16 then [HexDigit(n)] else LowerHex(n / 16) + [HexDigit(n % 16)]
  }

  /** Python's `hex(n)` for `n >= 0`. */
  function PyHex(n: nat): string {
    "0x" + LowerHex(n)
  }

  /** `get_charater_hex(c)`: `U+` followed by the lowercase, unpadded
      hexadecimal digits of the code point. */
  function CharacterHex(c: char): (hex: string)
    ensures hex == "U+" + LowerHex(c as int)
  {
    PyHexReplaced(c as int);
    ReplaceAll(PyHex(c as int), "0x", "U+")
  }

  /** Reads a string of lowercase hexadecimal digits, most significant
      first; `None` when a character is not such a digit or the string is
      empty. */
  function ParseHex(s: string): (r: Option<nat>)
    ensures r.Some? ==> s != [] && forall i :: 0 <= i < |s| ==> IsLowerHexDigit(s[i])
    decreases |s|
  {
    if s == [] || !IsLowerHexDigit(s[|s| - 1]) then None
    else if |s| == 1 then Some(DigitValue(s[0]))
    else match ParseHex(s[..|s| - 1])
      case None => None
      case Some(high) => Some(high * 16 + DigitValue(s[|s| - 1]))
  }

  /** Reading a printed digit gives back its value. */
  lemma HexDigitValue(d: nat)
    requires d < 16
    ensures IsLowerHexDigit(HexDigit(d)) && DigitValue(HexDigit(d)) == d
  {
  }

  /** Every character of `LowerHex(n)` is a lowercase hex digit, and the
      first is `0` only for zero itself. */
  lemma {:induction false} LowerHexDigits(n: nat)
    ensures LowerHex(n) != []
    ensures forall i :: 0 <= i < |LowerHex(n)| ==> IsLowerHexDigit(LowerHex(n)[i])
    ensures LowerHex(n)[0] == '0' <==> n == 0
    decreases n
  {
    if n >= 16 {
      LowerHexDigits(n / 16);
      var s := LowerHex(n / 16) + [HexDigit(n % 16)];
      forall i | 0 <= i < |s| ensures IsLowerHexDigit(s[i]) {
        if i < |s| - 1 {
          assert s[i] == LowerHex(n / 16)[i];
        }
      }
    }
  }

  /** Reading back the printed digits gives the number. */
  lemma {:induction false} ParseLowerHex(n: nat)
    ensures ParseHex(LowerHex(n)) == Some(n)
    decreases n
  {
    if n >= 16 {
      var q, r := n / 16, n % 16;
      var h, d := LowerHex(q), HexDigit(r);
      ParseLowerHex(q);
      HexDigitValue(r);
      var s := h + [d];
      assert s == LowerHex(n);
      assert |h| != 0 && s[..|s| - 1] == h && s[|s| - 1] == d;
      assert ParseHex(s) == Some(q * 16 + r);
    } else {
      HexDigitValue(n);
    }
  }

  /** A string without `x` has no occurrence of `0x`, so `replace` leaves
      it alone. */
  lemma {:induction false} ReplaceNoMatch(s: string, replacement: string)
    requires 'x' !in s
    ensures ReplaceAll(s, "0x", replacement) == s
    decreases |s|
  {
    if |s| >= 2 {
      assert s[1] in s;
      assert s[..2] != "0x";
      assert forall ch :: ch in s[1..] ==> ch in s;
      ReplaceNoMatch(s[1..], replacement);
      assert [s[0]] + s[1..] == s;
    }
  }

  /** Only the leading `0x` of `hex(n)` is replaced, since the digits
      contain no `x`. */
  lemma PyHexReplaced(n: nat)
    ensures ReplaceAll(PyHex(n), "0x", "U+") == "U+" + LowerHex(n)
  {
    var d := LowerHex(n);
    LowerHexDigits(n);
    assert 'x' !in d by {
      forall i | 0 <= i < |d| ensures d[i] != 'x' {
        assert IsLowerHexDigit(d[i]);
      }
    }
    var s := "0x" + d;
    assert s[..2] == "0x";
    assert s[2..] == d;
    ReplaceNoMatch(d, "U+");
  }

  /** The code is made of hexadecimal digits after `U+`, with a leading
      zero only for the character 0. */
  lemma CharacterHexShape(c: char)
    ensures forall i :: 2 <= i < |CharacterHex(c)| ==> IsLowerHexDigit(CharacterHex(c)[i])
    ensures CharacterHex(c)[2] == '0' <==> c as int == 0
  {
    LowerHexDigits(c as int);
    assert CharacterHex(c)[2..] == LowerHex(c as int);
  }

  /** Parsing the part after `U+` gives back the code point, so distinct
      characters get distinct codes. */
  lemma CharacterHexRoundTrip(c: char)
    ensures |CharacterHex(c)| > 2 && CharacterHex(c)[..2] == "U+"
    ensures ParseHex(CharacterHex(c)[2..]) == Some(c as int)
  {
    CharacterHexShape(c);
    ParseLowerHex(c as int);
    assert CharacterHex(c)[2..] == LowerHex(c as int);
  }

  lemma CharacterHexInjective(a: char, b: char)
    requires CharacterHex(a) == CharacterHex(b)
    ensures a == b
  {
    CharacterHexRoundTrip(a);
    CharacterHexRoundTrip(b);
  }
}
