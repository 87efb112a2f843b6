/**
 * The countdown display `formatTime(secs)`: minutes `Math.floor(secs / 60)` and
 * seconds `secs % 60`, each turned into a decimal string and left-padded with
 * '0' to two characters, joined by ':'.
 *
 * JavaScript's `%` truncates toward zero and `String(n)` writes a leading '-'
 * for a negative number; both are written out so that the function is total.
 * The display is read back by `ParseTime`, an independent "MM:SS" reader, to
 * state the round trip.
 */
module TimeFormat {
  import opened Wrappers

  predicate IsDigit(c: char) {
    '0' <= c <= '9'
  }

  predicate AllDigits(s: string) {
    forall i :: 0 <= i < |s| ==> IsDigit(s[i])
  }

  function DigitChar(d: nat): (c: char)
    requires d < 10
    ensures IsDigit(c) && c as int - '0' as int == d
  {
    ('0' as int + d) as char
  }

  function DigitValue(c: char): nat
    requires IsDigit(c)
  {
    c as int - '0' as int
  }

  /** `String(n)` for a non-negative integer: its decimal digits, with no
      leading zero except for 0 itself. */
  function Decimal(n: nat): (r: string)
    ensures AllDigits(r)
    ensures (|r| == 1) == (n < 10)
    ensures 1 <= |r|
    ensures n >= 10 ==> r[0] != '0'
  {
    if n < 10 then [DigitChar(n)] else Decimal(n / 10) + [DigitChar(n % 10)]
  }

  /** The number a string of decimal digits denotes (leading zeros allowed). */
  function Value(s: string): nat
    requires AllDigits(s)
  {
    if s == [] then 0 else Value(s[..|s| - 1]) * 10 + DigitValue(s[|s| - 1])
  }

  /** `String(n)` for any integer. */
  function IntToString(n: int): string {
    if n < 0 then "-" + Decimal(-n) else Decimal(n)
  }

  function Repeat(c: char, k: nat): (r: string)
    ensures |r| == k
  {
    if k == 0 then [] else [c] + Repeat(c, k - 1)
  }

  /** `s.padStart(width, fill)` for a one-character fill. */
  function PadStart(s: string, width: nat, fill: char): (r: string)
    ensures |r| == if |s| < width then width else |s|
  {
    if |s| >= width then s else Repeat(fill, width - |s|) + s
  }

  /** JavaScript's `a % 60`: the remainder has the sign of the dividend. */
  function Rem60(a: int): (r: int)
    ensures -60 < r < 60
    ensures (a - r) % 60 == 0
    ensures a >= 0 ==> r >= 0
    ensures a < 0 ==> r <= 0
  {
    if a >= 0 then a % 60 else -((-a) % 60)
  }

  /** `formatTime(secs)`. `Math.floor(secs / 60)` is Dafny's `/`, which
      rounds down for a positive divisor. */
  function FormatTime(secs: int): (r: string)
    ensures |r| >= 5 && |Field(secs / 60)| < |r| && r[|Field(secs / 60)|] == ':'
  {
    Field(secs / 60) + ":" + Field(Rem60(secs))
  }

  /** One side of the display: `String(n).padStart(2, '0')`. */
  function Field(n: int): (r: string)
    ensures |r| >= 2
  {
    PadStart(IntToString(n), 2, '0')
  }

  /** Reads an "MM:SS" display: at least two minute digits, a colon, exactly
      two second digits denoting less than 60. */
  function ParseTime(t: string): Option<nat> {
    if |t| >= 5 && t[|t| - 3] == ':' then ParseFields(t[..|t| - 3], t[|t| - 2..]) else None
  }

  function ParseFields(m: string, s: string): Option<nat> {
    if |m| >= 2 && AllDigits(m) && |s| == 2 && AllDigits(s) && Value(s) < 60
    then Some(60 * Value(m) + Value(s))
    else None
  }

  lemma {:induction false} ValueOfDecimal(n: nat)
    ensures Value(Decimal(n)) == n
  {
    if n >= 10 {
      ValueOfDecimal(n / 10);
      var r := Decimal(n);
      assert r[..|r| - 1] == Decimal(n / 10);
    }
  }

  lemma {:induction false} LeadingZero(s: string)
    requires AllDigits(s)
    ensures AllDigits("0" + s) && Value("0" + s) == Value(s)
  {
    var t := "0" + s;
    assert AllDigits(t) by {
      forall i | 0 <= i < |t| ensures IsDigit(t[i]) {
        if i > 0 { assert t[i] == s[i - 1]; }
      }
    }
    if s != [] {
      assert t[..|t| - 1] == "0" + s[..|s| - 1];
      LeadingZero(s[..|s| - 1]);
    }
  }

  /** A padded field of `formatTime` is all digits, at least two of them,
      exactly two when the number is below 100, padded with a zero only up
      to two characters, and denotes the number. */
  lemma FieldDigits(n: nat)
    ensures var p := Field(n);
      AllDigits(p) && |p| >= 2 && (n < 100 ==> |p| == 2) && (|p| == 2 || p[0] != '0')
      && Value(p) == n
  {
    ValueOfDecimal(n);
    var d := Decimal(n);
    if n < 10 {
      assert PadStart(d, 2, '0') == "0" + d;
      LeadingZero(d);
    } else if n < 100 {
      assert Decimal(n / 10) == [DigitChar(n / 10)];
    }
  }

  /** For a non-negative count of seconds the display is `m + ":" + s` with
      `s` exactly two digits denoting `secs % 60` (so 00..59), and `m` at
      least two digits denoting the whole minutes. */
  lemma FormatTimeShape(secs: int)
    requires secs >= 0
    ensures var m, s := Field(secs / 60), Field(secs % 60);
      && FormatTime(secs) == m + ":" + s
      && AllDigits(m) && |m| >= 2 && (|m| == 2 || m[0] != '0') && Value(m) == secs / 60
      && AllDigits(s) && |s| == 2 && Value(s) == secs % 60 && secs % 60 < 60
  {
    assert Rem60(secs) == secs % 60;
    FieldDigits(secs / 60);
    FieldDigits(secs % 60);
  }

  /** Reading a well-formed display back. */
  lemma ParseDisplay(m: string, s: string)
    requires |s| == 2
    ensures ParseTime(m + ":" + s) == ParseFields(m, s)
  {
    var t := m + ":" + s;
    assert t[..|t| - 3] == m;
    assert t[|t| - 2..] == s;
  }

  /** Reading the display back gives the number of seconds it was made from. */
  lemma FormatTimeRoundTrip(secs: int)
    requires secs >= 0
    ensures ParseTime(FormatTime(secs)) == Some(secs)
  {
    var mins, rest := secs / 60, secs % 60;
    var m, s := Field(mins), Field(rest);
    FormatTimeShape(secs);
    ParseDisplay(m, s);
    calc {
      ParseTime(FormatTime(secs));
      ParseTime(m + ":" + s);
      ParseFields(m, s);
      Some(60 * Value(m) + Value(s));
      { assert 60 * mins + rest == secs; }
      Some(secs);
    }
  }

  /** Two different non-negative second counts never show the same display. */
  lemma FormatTimeInjective(a: int, b: int)
    requires a >= 0 && b >= 0 && FormatTime(a) == FormatTime(b)
    ensures a == b
  {
    FormatTimeRoundTrip(a);
    FormatTimeRoundTrip(b);
  }
}
