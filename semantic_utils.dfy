/** Helpers shared by the semantic checks (semantics/Utils.java): recording an error
    when a condition fails, and telling whether the text of an int literal fits in
    64 bits. */
module SemanticUtils {
  import opened Wrappers
  import opened Numerals
  import opened SemanticErrors

  const MinLong: int := -0x8000_0000_0000_0000
  const MaxLong: int := 0x7FFF_FFFF_FFFF_FFFF
  /** 2^64: one more than the largest value sixteen hex digits can write. */
  const TwoTo64: int := 0x1_0000_0000_0000_0000

  /** `check(condition, errorAccumulator, message, messageArgs)`: a failed condition
      appends one error carrying the message and its arguments; a holding one changes
      nothing. */
  method Check(condition: bool, acc: ErrorAccumulator, message: string, messageArgs: seq<string>)
    modifies acc
    ensures acc.errors == old(acc.errors) + (if condition then [] else [Formatted(message, messageArgs)])
    ensures |acc.errors| == |old(acc.errors)| + 1 <==> !condition
  {
    if !condition {
      acc.errors := acc.errors + [Formatted(message, messageArgs)];
    }
  }

  /** `Long.parseLong(s)`: an optional sign followed by at least one decimal digit,
      whose value lies in the signed 64-bit range; anything else is a
      NumberFormatException, here `None`. */
  function ParseLong(s: string): (r: Option<int>)
    ensures r.Some? ==> MinLong <= r.value <= MaxLong
  {
    if |s| == 0 then None
    else
      var digits := if s[0] == '-' || s[0] == '+' then s[1..] else s;
      if |digits| == 0 || !AllDigits(digits) then None
      else
        var v: int := if s[0] == '-' then -(DigitsValue(digits) as int) else DigitsValue(digits);
        if MinLong <= v <= MaxLong then Some(v) else None
  }

  /** `isDecimal`: the text parses as a signed 64-bit integer. */
  predicate IsDecimal(s: string) {
    ParseLong(s).Some?
  }

  predicate IsHexDigit(c: char) {
    '0' <= c <= '9' || 'A' <= c <= 'F' || 'a' <= c <= 'f'
  }

  predicate AllHexDigits(s: string) {
    forall i | 0 <= i < |s| :: IsHexDigit(s[i])
  }

  function HexDigitValue(c: char): (v: nat)
    requires IsHexDigit(c)
    ensures v < 16
  {
    if c <= '9' then c as int - '0' as int
    else if c <= 'F' then c as int - 'A' as int + 10
    else c as int - 'a' as int + 10
  }

  function Pow16(k: nat): (r: nat)
    ensures r > 0
  {
    if k == 0 then 1 else 16 * Pow16(k - 1)
  }

  /** The value of a string of hex digits, most significant digit first. */
  function HexValue(s: string): nat
    requires AllHexDigits(s)
  {
    if |s| == 0 then 0 else HexDigitValue(s[0]) * Pow16(|s| - 1) + HexValue(s[1..])
  }

  /** `isHex`: "0x" followed by one to sixteen hex digits (the regular expression
      `0x[0-9A-Fa-f]{1,16}` matched against the whole text). */
  predicate IsHex(s: string) {
    3 <= |s| <= 18 && s[0] == '0' && s[1] == 'x' && AllHexDigits(s[2..])
  }

  /** `isWithinBounds`: a 64-bit signed decimal or a hex literal of at most sixteen
      digits. */
  predicate IsWithinBounds(s: string) {
    IsDecimal(s) || IsHex(s)
  }

  /** Sixteen hex digits never exceed 64 bits: k digits stay below 16^k. */
  lemma {:induction false} HexValueBelow(s: string)
    requires AllHexDigits(s)
    ensures HexValue(s) < Pow16(|s|)
  {
    if |s| > 0 {
      HexValueBelow(s[1..]);
      var d, p, rest := HexDigitValue(s[0]), Pow16(|s| - 1), HexValue(s[1..]);
      assert rest < p;
      ScaleBelow(d, p);
      assert Pow16(|s|) == 16 * p;
      assert HexValue(s) == d * p + rest;
    }
  }

  lemma {:induction false} ScaleBelow(d: nat, p: nat)
    requires d < 16
    ensures d * p <= 15 * p
  {
    if p > 0 {
      ScaleBelow(d, p - 1);
      assert d * p == d * (p - 1) + d;
      assert 15 * p == 15 * (p - 1) + 15;
    }
  }

  lemma {:induction false} Pow16Grows(j: nat, k: nat)
    requires j <= k
    ensures Pow16(j) <= Pow16(k)
    decreases k
  {
    if j < k {
      Pow16Grows(j, k - 1);
    }
  }

  lemma Pow16Values()
    ensures Pow16(15) == 0x1000_0000_0000_0000 && Pow16(16) == TwoTo64
  {
    assert Pow16(4) == 0x1_0000;
    assert Pow16(8) == 0x1_0000_0000;
    assert Pow16(12) == 0x1_0000_0000_0000;
  }

  /** Every literal `isHex` accepts has a value below 2^64. */
  lemma HexLiteralFits(s: string)
    requires IsHex(s)
    ensures HexValue(s[2..]) < TwoTo64
  {
    HexValueBelow(s[2..]);
    Pow16Grows(|s| - 2, 16);
    Pow16Values();
  }

  /** `isWithinBounds` accepts the text of a natural number exactly when the number is
      at most 2^63 - 1: such text is never hex, so it must parse as a long. */
  lemma {:induction false} DecimalWithinBounds(n: nat)
    ensures IsWithinBounds(NatText(n)) <==> n <= MaxLong
  {
    var s := NatText(n);
    NatTextValue(n);
    assert ParseLong(s) == if n <= MaxLong then Some(n) else None;
    assert !IsHex(s) by {
      if |s| >= 2 {
        assert IsDigit(s[1]);
      }
    }
  }

  /** The text of every 64-bit integer reads back as that integer. */
  lemma {:induction false} ParseLongRoundTrip(n: int)
    requires MinLong <= n <= MaxLong
    ensures ParseLong(IntText(n)) == Some(n)
  {
    if n < 0 {
      NatTextValue(-n);
      assert IntText(n)[1..] == NatText(-n);
    } else {
      NatTextValue(n);
    }
  }

  /** A hex literal is in bounds exactly when it has at most sixteen digits, whatever
      their value: leading zeros count. */
  lemma HexWithinBounds(digits: string)
    requires |digits| > 0 && AllHexDigits(digits)
    ensures IsWithinBounds("0x" + digits) <==> |digits| <= 16
  {
    var s := "0x" + digits;
    assert s[2..] == digits;
    assert !IsDigit(s[1]);
    assert !AllDigits(s);
  }
}
