/**
 * Join codes: the first eight characters of a random UUID's string form (the layout of
 * section 3 of RFC 4122, as produced by `java.util.UUID.toString`), upper-cased.
 */
module QuizCodes {

  /** A UUID as its two 64-bit halves, read as unsigned numbers. */
  datatype Uuid = Uuid(mostSigBits: nat, leastSigBits: nat)

  const LowerHexDigits: string := "0123456789abcdef"
  const UpperHexDigits: string := "0123456789ABCDEF"

  function HexDigit(d: nat): (c: char)
    requires d < 16
    ensures c in LowerHexDigits
  {
    LowerHexDigits[d]
  }

  /** The low `n` hexadecimal digits of `v`, most significant first, zero-padded, lower case. */
  function Digits(v: nat, n: nat): (s: string)
    ensures |s| == n
    ensures forall c :: c in s ==> c in LowerHexDigits
  {
    if n == 0 then "" else Digits(v / 16, n - 1) + [HexDigit(v % 16)]
  }

  /** The 36-character form: 8-4-4-4-12 hexadecimal digits separated by hyphens. */
  function UuidString(u: Uuid): (s: string)
    ensures |s| == 36
    ensures s[..8] == Digits(u.mostSigBits / 0x1_0000_0000, 8)
  {
    var timeLow := Digits(u.mostSigBits / 0x1_0000_0000, 8);
    var rest := "-" + Digits(u.mostSigBits / 0x1_0000, 4)
      + "-" + Digits(u.mostSigBits, 4)
      + "-" + Digits(u.leastSigBits / 0x1_0000_0000_0000, 4)
      + "-" + Digits(u.leastSigBits, 12);
    assert (timeLow + rest)[..8] == timeLow;
    timeLow + rest
  }

  /** `Character.toUpperCase` on the ASCII letters; every other character is kept. */
  function UpperChar(c: char): char
  {
    if 'a' <= c <= 'z' then (c as int - 'a' as int + 'A' as int) as char else c
  }

  /** `String.toUpperCase` restricted to ASCII: letters are raised, all else is kept. */
  function ToUpperCase(s: string): (r: string)
    ensures |r| == |s|
    ensures forall c :: c in r ==> !('a' <= c <= 'z')
    ensures forall i :: 0 <= i < |s| && !('a' <= s[i] <= 'z') ==> r[i] == s[i]
    ensures forall i :: 0 <= i < |s| && 'a' <= s[i] <= 'z' ==> r[i] as int == s[i] as int - 32
  {
    seq(|s|, i requires 0 <= i < |s| => UpperChar(s[i]))
  }

  /**
   * The join code drawn from `u`: the eight hexadecimal digits of its high 32 bits,
   * upper-cased. `CodeIsUuidPrefix` shows these are the first eight characters of the
   * UUID's string form, upper-cased.
   */
  function CodeFromUuid(u: Uuid): (code: string)
    ensures |code| == 8
    ensures forall c :: c in code ==> c in UpperHexDigits
  {
    var timeLow := Digits(u.mostSigBits / 0x1_0000_0000, 8);
    UpperCaseOfHex(timeLow);
    ToUpperCase(timeLow)
  }

  /** The join code is the upper-cased first eight characters of the UUID's string form. */
  lemma CodeIsUuidPrefix(u: Uuid)
    ensures CodeFromUuid(u) == ToUpperCase(UuidString(u)[..8])
  {
  }

  /** Upper-casing a lower-case hexadecimal string gives an upper-case one. */
  lemma UpperCaseOfHex(s: string)
    requires forall c :: c in s ==> c in LowerHexDigits
    ensures forall c :: c in ToUpperCase(s) ==> c in UpperHexDigits
  {
    var r := ToUpperCase(s);
    forall i | 0 <= i < |r| ensures r[i] in UpperHexDigits {
      assert s[i] in LowerHexDigits;
      UpperCharOfHexDigit(s[i]);
    }
  }

  lemma UpperCharOfHexDigit(c: char)
    requires c in LowerHexDigits
    ensures UpperChar(c) in UpperHexDigits
  {
    var k :| 0 <= k < 16 && LowerHexDigits[k] == c;
    if k < 10 {
      assert UpperChar(c) == UpperHexDigits[k];
    } else {
      assert UpperChar(c) == UpperHexDigits[k];
    }
  }
}
