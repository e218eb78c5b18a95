/** The two JavaScript built-ins the clock formatter relies on, restricted to
    the way it uses them: `Number.prototype.toString()` on a non-negative
    integer (base 10) and `String.prototype.padStart(width, pad)` with a
    one-character pad string. `ParseDecimal` is the reading-back partner of
    `NatToString`. The recursive definitions carry no postconditions of
    their own; their properties are the lemmas below them. */
module NumberText {

  predicate IsDigit(c: char) {
    '0' <= c <= '9'
  }

  predicate AllDigits(s: string) {
    forall i :: 0 <= i < |s| ==> IsDigit(s[i])
  }

  /** The decimal digit character for 0..9. */
  function DigitChar(d: int): (c: char)
    requires 0 <= d < 10
    ensures IsDigit(c) && c as int == '0' as int + d
  {
    ('0' as int + d) as char
  }

  /** The value 0..9 of a decimal digit character. */
  function DigitValue(c: char): (d: int)
    requires IsDigit(c)
    ensures 0 <= d < 10
    ensures DigitChar(d) == c
  {
    c as int - '0' as int
  }

  /** `n.toString()` for a non-negative integer: its shortest decimal
      representation, most significant digit first. */
  function NatToString(n: nat): string
    decreases n
  {
    if n < 10 then [DigitChar(n)]
    else NatToString(n / 10) + [DigitChar(n % 10)]
  }

  /** `n.toString()` is a non-empty string of decimal digits, one digit
      long exactly below 10, with no leading zero unless `n` is 0. */
  lemma {:induction false} NatToStringDigits(n: nat)
    ensures var s := NatToString(n);
      |s| >= 1 && AllDigits(s) && (|s| == 1 <==> n < 10) && (s[0] == '0' ==> n == 0)
    decreases n
  {
    if n >= 10 {
      NatToStringDigits(n / 10);
      var s := NatToString(n);
      assert s[0] == NatToString(n / 10)[0];
    }
  }

  /** The value of a string of decimal digits (leading zeros allowed). */
  function ParseDecimal(s: string): nat
    requires AllDigits(s)
    decreases |s|
  {
    if s == [] then 0
    else 10 * ParseDecimal(s[..|s| - 1]) + DigitValue(s[|s| - 1])
  }

  /** Reading `n.toString()` back gives `n`. */
  lemma {:induction false} ParseNatToString(n: nat)
    ensures AllDigits(NatToString(n)) && ParseDecimal(NatToString(n)) == n
    decreases n
  {
    NatToStringDigits(n);
    var s := NatToString(n);
    if n >= 10 {
      ParseNatToString(n / 10);
      assert s[..|s| - 1] == NatToString(n / 10);
      assert DigitValue(s[|s| - 1]) == n % 10;
    } else {
      assert s[..0] == [];
    }
  }

  /** Distinct numbers have distinct decimal representations. */
  lemma NatToStringInjective(m: nat, n: nat)
    requires NatToString(m) == NatToString(n)
    ensures m == n
  {
    ParseNatToString(m);
    ParseNatToString(n);
  }

  /** `s.padStart(width, pad)` for a one-character pad string. */
  function PadStart(s: string, width: nat, pad: char): string
    decreases width - |s|
  {
    if |s| >= width then s
    else PadStart([pad] + s, width, pad)
  }

  /** `padStart` returns `s` itself when it is already `width` characters
      or longer (it never truncates), and otherwise `s` preceded by as many
      copies of `pad` as make it exactly `width` long. */
  lemma {:induction false} PadStartShape(s: string, width: nat, pad: char)
    ensures var r := PadStart(s, width, pad);
      |r| == (if |s| >= width then |s| else width) &&
      r[|r| - |s|..] == s &&
      forall i :: 0 <= i < |r| - |s| ==> r[i] == pad
    decreases width - |s|
  {
    if |s| < width {
      var r := PadStart(s, width, pad);
      PadStartShape([pad] + s, width, pad);
      assert r[|r| - |s| - 1..] == [pad] + s;
      assert r[|r| - |s|..] == ([pad] + s)[1..];
    }
  }

  /** `n.toString().padStart(2, "0")`. */
  function Pad2(n: nat): string
  {
    PadStart(NatToString(n), 2, '0')
  }

  /** The value of a two-character field of decimal digits. */
  function TwoDigitValue(f: string): (n: int)
    requires |f| == 2 && AllDigits(f)
    ensures 0 <= n < 100
  {
    10 * DigitValue(f[0]) + DigitValue(f[1])
  }

  /** A two-digit field is determined by its value. */
  lemma TwoDigitValueInjective(f: string, g: string)
    requires |f| == 2 && AllDigits(f) && |g| == 2 && AllDigits(g)
    requires TwoDigitValue(f) == TwoDigitValue(g)
    ensures f == g
  {
  }

  /** Below 100, padding to two characters gives exactly the tens digit
      followed by the units digit: one leading zero for 0..9, none for
      10..99. Read back, the field is `n`. */
  lemma Pad2Field(n: nat)
    requires n < 100
    ensures Pad2(n) == [DigitChar(n / 10), DigitChar(n % 10)]
    ensures AllDigits(Pad2(n)) && TwoDigitValue(Pad2(n)) == n
    ensures ParseDecimal(Pad2(n)) == n
  {
    var s := NatToString(n);
    if n < 10 {
      assert s == [DigitChar(n)];
      assert Pad2(n) == PadStart(['0'] + s, 2, '0');
    } else {
      assert NatToString(n / 10) == [DigitChar(n / 10)];
      assert s == [DigitChar(n / 10), DigitChar(n % 10)];
    }
    var r := Pad2(n);
    assert r[..1] == [r[0]] && r[..1][..0] == [];
    assert ParseDecimal(r[..1]) == DigitValue(r[0]);
    assert ParseDecimal(r) == 10 * ParseDecimal(r[..1]) + DigitValue(r[1]);
  }

  /** At 10 and above `padStart` adds nothing, so from 100 on `Pad2` is no
      longer a two-character field: it is `n.toString()`, of three or more
      digits. */
  lemma Pad2Wide(n: nat)
    requires n >= 10
    ensures Pad2(n) == NatToString(n)
    ensures n >= 100 ==> |Pad2(n)| > 2
  {
  }
}
