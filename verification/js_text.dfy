/**
 * The pieces of JavaScript string semantics the wafer-map codec and the
 * middleware lean on: `||` on a nullable string, template interpolation of
 * `null`, `parseInt`, `String(n)` for a non-negative integer, `split`/`join`
 * on one separator character, and `startsWith`.
 */
module JsText {
  import opened Common

  /** `v || d` for a string-or-null value: `null` and `""` are falsy and give `d`. */
  function OrElse(v: Option<string>, d: string): string
  {
    if v.Some? && v.value != "" then v.value else d
  }

  /** `${v}` in a template literal: a `null` value is written as the four letters "null". */
  function Text(v: Option<string>): string
  {
    if v.Some? then v.value else "null"
  }

  /** `s.startsWith(p)`. */
  predicate StartsWith(s: string, p: string)
  {
    |p| <= |s| && s[..|p|] == p
  }

  // ---------------------------------------------------------------------------
  // parseInt(s) with no radix argument

  /** The white-space and line-terminator characters `parseInt` skips before a number. */
  predicate IsJsSpace(c: char)
  {
    || c == ' ' || c == '\t' || c == '\n' || c == '\r' || c == '\U{B}' || c == '\U{C}'
    || c == '\U{A0}' || c == '\U{1680}' || ('\U{2000}' <= c <= '\U{200A}')
    || c == '\U{2028}' || c == '\U{2029}' || c == '\U{202F}' || c == '\U{205F}'
    || c == '\U{3000}' || c == '\U{FEFF}'
  }

  /** Drops the leading white space. */
  function TrimStart(s: string): (t: string)
    ensures |t| <= |s| && t == s[|s| - |t|..]
    ensures |t| > 0 ==> !IsJsSpace(t[0])
    decreases |s|
  {
    if |s| > 0 && IsJsSpace(s[0]) then TrimStart(s[1..]) else s
  }

  /** A digit of the given radix (10, or 16 after a `0x` prefix). */
  predicate IsDigitIn(c: char, radix: nat)
  {
    ('0' <= c <= '9') || (radix == 16 && (('a' <= c <= 'f') || ('A' <= c <= 'F')))
  }

  function DigitValue(c: char): nat
  {
    if '0' <= c <= '9' then c as int - '0' as int
    else if 'a' <= c <= 'f' then c as int - 'a' as int + 10
    else if 'A' <= c <= 'F' then c as int - 'A' as int + 10
    else 0
  }

  /** The length of the longest prefix of `s` made of digits of `radix`. */
  function DigitRun(s: string, radix: nat): (n: nat)
    ensures n <= |s|
    ensures forall i :: 0 <= i < n ==> IsDigitIn(s[i], radix)
    ensures n < |s| ==> !IsDigitIn(s[n], radix)
    decreases |s|
  {
    if |s| > 0 && IsDigitIn(s[0], radix) then 1 + DigitRun(s[1..], radix) else 0
  }

  /** The value of a digit string, most significant digit first. */
  function DigitsValue(s: string, radix: nat): nat
    decreases |s|
  {
    if |s| == 0 then 0 else DigitsValue(s[..|s| - 1], radix) * radix + DigitValue(s[|s| - 1])
  }

  /**
   * `parseInt(s)`: skip leading white space, read an optional sign, switch to
   * radix 16 after a `0x`/`0X` prefix, then read the longest run of digits.
   * No digit at all gives NaN, modelled as `None`.
   */
  function ParseInt(s: string): Option<int>
  {
    ParseSigned(TrimStart(s))
  }

  /** `parseInt` after the white space: an optional `-` or `+`, then the digits. */
  function ParseSigned(t: string): Option<int>
  {
    if |t| > 0 && t[0] == '-' then
      match ParseUnsigned(t[1..])
      case None => None
      case Some(m) => Some(-(m as int))
    else if |t| > 0 && t[0] == '+' then ParseUnsigned(t[1..])
    else ParseUnsigned(t)
  }

  /** `parseInt` after the sign: a `0x`/`0X` prefix selects radix 16, then the longest digit run. */
  function ParseUnsigned(u: string): Option<nat>
  {
    var hex := |u| >= 2 && u[0] == '0' && (u[1] == 'x' || u[1] == 'X');
    var radix := if hex then 16 else 10;
    var digits := if hex then u[2..] else u;
    var n := DigitRun(digits, radix);
    if n == 0 then None else Some(DigitsValue(digits[..n], radix))
  }

  /** The number of iterations of `for (i = 0; i < n; i++)` when `n` came from `parseInt`: none for NaN or n <= 0. */
  function LoopBound(n: Option<int>): (r: nat)
    ensures n.None? ==> r == 0
    ensures n.Some? ==> r == if n.value > 0 then n.value else 0
  {
    if n.Some? && n.value > 0 then n.value else 0
  }

  // ---------------------------------------------------------------------------
  // String(n) for a non-negative integer

  function DecimalDigit(d: nat): char
    requires d < 10
  {
    ('0' as int + d) as char
  }

  /** The decimal text of `n`: digits only, no leading zero except for zero itself. */
  function Decimal(n: nat): (s: string)
    ensures |s| >= 1
    ensures forall i :: 0 <= i < |s| ==> '0' <= s[i] <= '9'
    ensures s[0] == '0' ==> n == 0
    decreases n
  {
    if n < 10 then [DecimalDigit(n)] else Decimal(n / 10) + [DecimalDigit(n % 10)]
  }

  /** Reading the decimal text of `n` back gives `n`. */
  lemma {:induction false} DecimalValue(n: nat)
    ensures DigitsValue(Decimal(n), 10) == n
    decreases n
  {
    if n >= 10 {
      var p := Decimal(n / 10);
      var s := Decimal(n);
      assert s == p + [DecimalDigit(n % 10)];
      assert s[..|s| - 1] == p;
      DecimalValue(n / 10);
    }
  }

  /** May follow the decimal text of `n` without changing what `parseInt` reads: no digit, and no `x` that would turn "0" into a hex prefix. */
  predicate EndsNumber(n: nat, rest: string)
  {
    rest == [] || (!IsDigitIn(rest[0], 10) && (rest[0] == 'x' || rest[0] == 'X' ==> n != 0))
  }

  /** The decimal text of `n` followed by anything that ends a number reads as `n` once the sign is gone. */
  lemma ParseUnsignedDecimal(n: nat, rest: string)
    requires EndsNumber(n, rest)
    ensures ParseUnsigned(Decimal(n) + rest) == Some(n)
  {
    var d := Decimal(n);
    var s := d + rest;
    assert s[0] == d[0];
    if |s| >= 2 {
      if |d| >= 2 {
        assert s[1] == d[1];
      } else {
        assert s[1] == rest[0];
      }
    }
    assert DigitRun(s, 10) == |d| by {
      assert forall i :: 0 <= i < |d| ==> s[i] == d[i];
      assert |d| < |s| ==> s[|d|] == rest[0];
    }
    assert s[..|d|] == d;
    DecimalValue(n);
  }

  /** Text that starts with neither white space nor a sign goes straight to the digits. */
  lemma PlainStart(s: string)
    requires |s| > 0 && !IsJsSpace(s[0]) && s[0] != '-' && s[0] != '+'
    ensures ParseInt(s) == ParseUnsigned(s)
  {
    assert TrimStart(s) == s;
  }

  /** `parseInt(String(n)) == n`: a count written in decimal is read back unchanged. */
  lemma ParseIntDecimal(n: nat)
    ensures ParseInt(Decimal(n)) == Some(n)
  {
    var s := Decimal(n);
    assert '0' <= s[0] <= '9';
    PlainStart(s);
    ParseUnsignedDecimal(n, []);
    assert s + [] == s;
  }

  /** `parseInt` ignores leading white space. */
  lemma ParseIntSkipsSpace(c: char, s: string)
    requires IsJsSpace(c)
    ensures ParseInt([c] + s) == ParseInt(s)
  {
    assert ([c] + s)[1..] == s;
  }

  /** `parseInt` stops at the first character that is not a digit: "12px" and "12x" read as 12; only "0x" starts a hex number. */
  lemma ParseIntStopsAtNonDigit(n: nat, rest: string)
    requires |rest| > 0 && EndsNumber(n, rest)
    ensures ParseInt(Decimal(n) + rest) == Some(n)
  {
    var s := Decimal(n) + rest;
    assert s[0] == Decimal(n)[0];
    assert '0' <= s[0] <= '9';
    PlainStart(s);
    ParseUnsignedDecimal(n, rest);
  }

  function Pow16(n: nat): nat
  {
    if n == 0 then 1 else 16 * Pow16(n - 1)
  }

  /** The value of a hexadecimal digit string read from the front: each digit weighted by its power of 16. */
  function HexValue(s: string): nat
    decreases |s|
  {
    if |s| == 0 then 0 else DigitValue(s[0]) * Pow16(|s| - 1) + HexValue(s[1..])
  }

  /** Moving the leading digit's weight one place up is the same as shifting the whole value. */
  lemma ShiftPlace(a: int, p: int, h: int, d: int)
    ensures a * (16 * p) + (h * 16 + d) == (a * p + h) * 16 + d
  {
    assert a * (16 * p) == (a * p) * 16;
  }

  /** Appending a digit shifts the value read from the front by one place. */
  lemma {:induction false} HexValueAppend(s: string, c: char)
    ensures HexValue(s + [c]) == HexValue(s) * 16 + DigitValue(c)
    decreases |s|
  {
    var t := s + [c];
    if |s| > 0 {
      assert t[0] == s[0] && t[1..] == s[1..] + [c];
      HexValueAppend(s[1..], c);
      var a, p, h := DigitValue(s[0]), Pow16(|s| - 1), HexValue(s[1..]);
      assert Pow16(|t| - 1) == 16 * p;
      assert HexValue(t) == a * (16 * p) + (h * 16 + DigitValue(c));
      assert HexValue(s) == a * p + h;
      ShiftPlace(a, p, h, DigitValue(c));
    } else {
      assert t == [c];
    }
  }

  /** `parseInt`'s digit-by-digit accumulation in radix 16 agrees with the positional value. */
  lemma {:induction false} DigitsValueHex(s: string)
    ensures DigitsValue(s, 16) == HexValue(s)
    decreases |s|
  {
    if |s| > 0 {
      var init := s[..|s| - 1];
      DigitsValueHex(init);
      HexValueAppend(init, s[|s| - 1]);
      assert init + [s[|s| - 1]] == s;
    }
  }

  /** A run made only of digits is read to its end. */
  lemma DigitRunAll(s: string, radix: nat)
    requires forall i :: 0 <= i < |s| ==> IsDigitIn(s[i], radix)
    ensures DigitRun(s, radix) == |s|
  {
  }

  /** A `0x` prefix switches to hexadecimal: "0x" followed by hex digits reads as their positional value. */
  lemma ParseIntHex(s: string)
    requires |s| > 0 && forall i :: 0 <= i < |s| ==> IsDigitIn(s[i], 16)
    ensures ParseInt("0x" + s) == Some(HexValue(s))
  {
    var t := "0x" + s;
    assert t[0] == '0' && t[1] == 'x' && t[2..] == s;
    assert !IsJsSpace(t[0]);
    PlainStart(t);
    DigitRunAll(s, 16);
    assert s[..|s|] == s;
    DigitsValueHex(s);
  }

  /** A minus sign negates: "-7" reads as -7. */
  lemma ParseIntNegative(n: nat)
    ensures ParseInt("-" + Decimal(n)) == Some(-(n as int))
  {
    var d := Decimal(n);
    var s := "-" + d;
    assert TrimStart(s) == s;
    assert s[1..] == d + [];
    ParseUnsignedDecimal(n, []);
  }

  /** The text of a null value, "null", has no digits: parseInt gives NaN. */
  lemma ParseIntOfNull()
    ensures ParseInt(Text(None)) == None
  {
    var s := Text(None);
    assert s == "null" && s[0] == 'n';
    PlainStart(s);
    assert DigitRun(s, 10) == 0;
  }

  // ---------------------------------------------------------------------------
  // s.split(sep) and parts.join(sep) on a single separator character

  /** `s.split(sep)`: the text between consecutive separators; "" splits to [""]. */
  function Split(s: string, sep: char): (parts: seq<string>)
    ensures |parts| >= 1
    decreases |s|
  {
    if |s| == 0 then [""]
    else if s[0] == sep then [""] + Split(s[1..], sep)
    else
      var rest := Split(s[1..], sep);
      [[s[0]] + rest[0]] + rest[1..]
  }

  /** `parts.join(sep)`. */
  function Join(parts: seq<string>, sep: char): string
    decreases |parts|
  {
    if |parts| == 0 then ""
    else if |parts| == 1 then parts[0]
    else parts[0] + [sep] + Join(parts[1..], sep)
  }

  /** Joining the parts of a split gives the text back. */
  lemma {:induction false} JoinOfSplit(s: string, sep: char)
    ensures Join(Split(s, sep), sep) == s
    decreases |s|
  {
    if |s| > 0 {
      var rest := Split(s[1..], sep);
      JoinOfSplit(s[1..], sep);
      assert s == [s[0]] + s[1..];
      if s[0] == sep {
        assert Split(s, sep) == [""] + rest;
      } else if |rest| > 1 {
        var parts := Split(s, sep);
        assert rest == [rest[0]] + rest[1..];
        assert Join(rest, sep) == rest[0] + [sep] + Join(rest[1..], sep);
        assert parts[1..] == rest[1..];
      }
    }
  }

  /** No part of a split holds the separator. */
  lemma {:induction false} SplitPartsFree(s: string, sep: char)
    ensures forall i :: 0 <= i < |Split(s, sep)| ==> sep !in Split(s, sep)[i]
    decreases |s|
  {
    if |s| > 0 {
      var rest := Split(s[1..], sep);
      SplitPartsFree(s[1..], sep);
      var parts := Split(s, sep);
      forall i | 0 <= i < |parts|
        ensures sep !in parts[i]
      {
        if s[0] == sep {
          assert parts == [""] + rest;
          if i > 0 {
            assert parts[i] == rest[i - 1];
          }
        } else if i == 0 {
          assert sep !in rest[0];
        } else {
          assert parts[i] == rest[i];
        }
      }
    }
  }

  /** Splitting loses nothing: joining the parts again gives `s`, and no part contains the separator. */
  lemma SplitJoin(s: string, sep: char)
    ensures Join(Split(s, sep), sep) == s
    ensures forall i :: 0 <= i < |Split(s, sep)| ==> sep !in Split(s, sep)[i]
  {
    JoinOfSplit(s, sep);
    SplitPartsFree(s, sep);
  }

  /** A text free of the separator splits to itself alone. */
  lemma {:induction false} SplitWithoutSeparator(a: string, sep: char)
    requires sep !in a
    ensures Split(a, sep) == [a]
    decreases |a|
  {
    if |a| > 0 {
      assert sep !in a[1..] by {
        forall i | 0 <= i < |a[1..]| ensures a[1..][i] != sep { assert a[1..][i] == a[i + 1]; }
      }
      SplitWithoutSeparator(a[1..], sep);
      assert [a[0]] + a[1..] == a;
    }
  }

  /** The first separator ends the first part. */
  lemma {:induction false} SplitAtFirst(a: string, sep: char, b: string)
    requires sep !in a
    ensures Split(a + [sep] + b, sep) == [a] + Split(b, sep)
    decreases |a|
  {
    var s := a + [sep] + b;
    if |a| == 0 {
      assert s[0] == sep && s[1..] == b;
    } else {
      assert s[0] == a[0];
      assert s[1..] == a[1..] + [sep] + b;
      assert sep !in a[1..] by {
        forall i | 0 <= i < |a[1..]| ensures a[1..][i] != sep { assert a[1..][i] == a[i + 1]; }
      }
      SplitAtFirst(a[1..], sep, b);
      assert [a[0]] + a[1..] == a;
    }
  }
}
