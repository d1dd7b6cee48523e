/**
 * The string operations of the command bridge: `String.prototype.split`
 * with a one-character separator, `replace` with a string pattern (which
 * replaces the first occurrence only), and `Number()` on the decimal
 * notations a temperature reading arrives in.
 */
module JsString {
  import opened JsValue

  /** Position of the first `c` in `s`, if any (also `Array.prototype.find` by equality) */
  function IndexOf<T(==)>(s: seq<T>, c: T): (k: Option<nat>)
    ensures k.None? <==> c !in s
    ensures k.Some? ==> k.value < |s| && s[k.value] == c && c !in s[..k.value]
  {
    if s == [] then None
    else if s[0] == c then Some(0)
    else
      match IndexOf(s[1..], c)
      case None => None
      case Some(j) =>
        assert s[..j + 1] == [s[0]] + s[1..][..j];
        Some(j + 1)
  }

  /** Inverse of Split: the parts glued back with the separator between them */
  function Join(parts: seq<string>, sep: char): string
    requires |parts| > 0
  {
    if |parts| == 1 then parts[0] else parts[0] + [sep] + Join(parts[1..], sep)
  }

  /** `s.split(sep)`: the maximal separator-free pieces, in order; never empty */
  function Split(s: string, sep: char): (parts: seq<string>)
    ensures |parts| > 0
    ensures Join(parts, sep) == s
    ensures forall i :: 0 <= i < |parts| ==> sep !in parts[i]
    decreases |s|
  {
    if s == [] then [""]
    else
      var rest := Split(s[1..], sep);
      if s[0] == sep then
        assert ([""] + rest)[1..] == rest;
        [""] + rest
      else
        var parts := [[s[0]] + rest[0]] + rest[1..];
        assert parts[1..] == rest[1..];
        assert Join(parts, sep) == [s[0]] + Join(rest, sep);
        assert forall i :: 1 <= i < |parts| ==> parts[i] == rest[i];
        parts
  }

  /** `s.replace(from, to)` with a one-character string pattern: only the first occurrence changes */
  function ReplaceFirst(s: string, from: char, to: char): (r: string)
    ensures |r| == |s|
    ensures IndexOf(s, from).None? ==> r == s
    ensures IndexOf(s, from).Some? ==>
      var k := IndexOf(s, from).value; r == s[..k] + [to] + s[k + 1..]
  {
    if s == [] then []
    else if s[0] == from then
      assert s[..0] + [to] + s[1..] == [to] + s[1..];
      [to] + s[1..]
    else
      var rest := ReplaceFirst(s[1..], from, to);
      match IndexOf(s[1..], from)
      case None =>
        assert [s[0]] + s[1..] == s;
        [s[0]] + rest
      case Some(j) =>
        ReplaceAfterHead(s, from, to, j, rest);
        [s[0]] + rest
  }

  /** A head that is not the pattern is kept in front of the replaced tail */
  lemma ReplaceAfterHead(s: string, from: char, to: char, j: nat, rest: string)
    requires s != [] && s[0] != from
    requires IndexOf(s[1..], from) == Some(j)
    requires rest == s[1..][..j] + [to] + s[1..][j + 1..]
    ensures IndexOf(s, from) == Some(j + 1)
    ensures [s[0]] + rest == s[..j + 1] + [to] + s[j + 2..]
  {
    var before, after := s[1..][..j], s[1..][j + 1..];
    assert s[..j + 1] == [s[0]] + before;
    assert s[j + 2..] == after;
  }

  /** Splitting glued separator-free parts gives the parts back */
  lemma {:induction false} SplitJoin(parts: seq<string>, sep: char)
    requires |parts| > 0
    requires forall i :: 0 <= i < |parts| ==> sep !in parts[i]
    ensures Split(Join(parts, sep), sep) == parts
    decreases |parts|
  {
    if |parts| == 1 {
      SplitNoSeparator(parts[0], sep);
    } else {
      SplitJoin(parts[1..], sep);
      SplitAtFirst(parts[0], Join(parts[1..], sep), sep);
      assert parts == [parts[0]] + parts[1..];
    }
  }

  /** A separator-free string splits into itself */
  lemma {:induction false} SplitNoSeparator(s: string, sep: char)
    requires sep !in s
    ensures Split(s, sep) == [s]
    decreases |s|
  {
    if s != [] {
      SplitNoSeparator(s[1..], sep);
    }
  }

  /** Splitting at the first separator: the piece before it, then the split of the rest */
  lemma {:induction false} SplitAtFirst(a: string, b: string, sep: char)
    requires sep !in a
    ensures Split(a + [sep] + b, sep) == [a] + Split(b, sep)
    decreases |a|
  {
    if a == [] {
      assert (a + [sep] + b)[1..] == b;
    } else {
      var s := a + [sep] + b;
      assert s[0] == a[0] && s[1..] == a[1..] + [sep] + b;
      SplitAtFirst(a[1..], b, sep);
      var rest := Split(s[1..], sep);
      assert rest == [a[1..]] + Split(b, sep);
      assert [s[0]] + rest[0] == a;
      assert rest[1..] == Split(b, sep);
    }
  }

  /** The first piece of a split is the text before the first separator */
  lemma {:induction false} FirstPieceIsPrefix(s: string, sep: char)
    ensures IndexOf(s, sep).None? ==> Split(s, sep)[0] == s
    ensures IndexOf(s, sep).Some? ==> Split(s, sep)[0] == s[..IndexOf(s, sep).value]
  {
    match IndexOf(s, sep)
    case None =>
      SplitNoSeparator(s, sep);
    case Some(k) =>
      assert s == s[..k] + [sep] + s[k + 1..];
      SplitAtFirst(s[..k], s[k + 1..], sep);
  }

  // ---- Number() ----

  predicate IsDigit(c: char) {
    '0' <= c <= '9'
  }

  predicate AllDigits(s: string) {
    forall i :: 0 <= i < |s| ==> IsDigit(s[i])
  }

  /** Value of a string of decimal digits, most significant first */
  function DigitsValue(s: string): nat
    requires AllDigits(s)
  {
    if s == [] then 0 else DigitsValue(s[..|s| - 1]) * 10 + (s[|s| - 1] as int - '0' as int)
  }

  function Pow10(k: nat): (p: nat)
    ensures p > 0
  {
    if k == 0 then 1 else 10 * Pow10(k - 1)
  }

  /** Digits with at most one '.', and at least one digit: `22`, `22.5`, `.5`, `5.` */
  function UnsignedDecimal(s: string): Option<real> {
    match IndexOf(s, '.')
    case None =>
      if s != [] && AllDigits(s) then Some(DigitsValue(s) as real) else None
    case Some(k) =>
      var whole, frac := s[..k], s[k + 1..];
      if |whole| + |frac| > 0 && AllDigits(whole) && AllDigits(frac)
      then Some(DecimalValue(whole, frac))
      else None
  }

  /** The value of `<whole>.<frac>` */
  function DecimalValue(whole: string, frac: string): real
    requires AllDigits(whole) && AllDigits(frac)
  {
    DigitsValue(whole) as real + DigitsValue(frac) as real / Pow10(|frac|) as real
  }

  /**
   * `Number(s)` on decimal notation: the empty string is 0, an optional sign
   * may lead, anything else that is not a decimal numeral is NaN.
   */
  function ToNumber(s: string): (n: Num)
    ensures ',' in s ==> n == NaN
    ensures '%' in s ==> n == NaN
  {
    if s == [] then Val(0.0)
    else
      var body := if s[0] == '-' || s[0] == '+' then s[1..] else s;
      assert ',' in s && body != s ==> ',' in body;
      assert '%' in s && body != s ==> '%' in body;
      match UnsignedDecimal(body)
      case None => NaN
      case Some(v) => if s[0] == '-' then Val(-v) else Val(v)
  }

  /** The first `c` after a `c`-free prefix is the one right after it */
  lemma FirstAfterPrefix<T>(a: seq<T>, c: T, b: seq<T>)
    requires c !in a
    ensures IndexOf(a + [c] + b, c) == Some(|a|)
  {
    var s := a + [c] + b;
    var k := IndexOf(s, c);
    assert s[|a|] == c && s[..|a|] == a;
  }

  /** A leading '-' negates the number the rest of the text reads as, and a leading '+' changes nothing */
  lemma SignedNumber(s: string)
    requires s != [] && s[0] != '-' && s[0] != '+'
    ensures ToNumber("-" + s) == (if ToNumber(s).Val? then Val(-ToNumber(s).r) else NaN)
    ensures ToNumber("+" + s) == ToNumber(s)
  {
    assert ("-" + s)[1..] == s && ("+" + s)[1..] == s;
  }

  /** `<digits>.<digits>` starts with a digit or the point, never with a sign */
  lemma UnsignedHead(whole: string, frac: string)
    requires AllDigits(whole)
    ensures var s := whole + "." + frac; s[0] != '-' && s[0] != '+'
  {
    var s := whole + "." + frac;
    if whole == [] {
      assert s[0] == '.';
    } else {
      assert s[0] == whole[0] && IsDigit(whole[0]);
    }
  }

  /** `Number()` reads `<digits>.<digits>` as the whole part plus the fraction */
  lemma DecimalFraction(whole: string, frac: string)
    requires AllDigits(whole) && AllDigits(frac) && |whole| + |frac| > 0
    ensures ToNumber(whole + "." + frac) == Val(DecimalValue(whole, frac))
  {
    var s := whole + "." + frac;
    assert '.' !in whole by {
      forall i | 0 <= i < |whole| ensures whole[i] != '.' {
        assert IsDigit(whole[i]);
      }
    }
    FirstAfterPrefix(whole, '.', frac);
    assert s[..|whole|] == whole && s[|whole| + 1..] == frac;
    UnsignedHead(whole, frac);
  }

  /** `Number("22.5")` is 22.5 */
  lemma NumberOfTwentyTwoFive()
    ensures ToNumber("22.5") == Val(22.5)
  {
    DecimalFraction("22", "5");
    assert "22.5" == "22" + "." + "5";
    assert DecimalValue("22", "5") == 22.5 by {
      assert DigitsValue("22") == 22 by {
        assert "22"[..1] == "2" && DigitsValue("2") == 2;
      }
      assert DigitsValue("5") == 5 && Pow10(1) == 10;
    }
  }

  /** `Number("21.3")` is 21.3 */
  lemma NumberOfTwentyOneThree()
    ensures ToNumber("21.3") == Val(21.3)
  {
    DecimalFraction("21", "3");
    assert "21.3" == "21" + "." + "3";
    assert DecimalValue("21", "3") == 21.3 by {
      assert DigitsValue("21") == 21 by {
        assert "21"[..1] == "2";
      }
      assert DigitsValue("3") == 3 && Pow10(1) == 10;
    }
  }

  /** `Number("-2.5")` is -2.5 */
  lemma NumberOfMinusTwoFive()
    ensures ToNumber("-2.5") == Val(-2.5)
  {
    NumberOfTwoFive();
    assert "2.5"[0] == '2';
    SignedNumber("2.5");
    assert "-2.5" == "-" + "2.5";
  }

  /** `Number("2.5")` is 2.5 */
  lemma NumberOfTwoFive()
    ensures ToNumber("2.5") == Val(2.5)
  {
    DecimalFraction("2", "5");
    assert "2.5" == "2" + "." + "5";
    assert DigitsValue("2") == 2 by {
      assert "2"[..0] == [];
    }
    assert DigitsValue("5") == 5 by {
      assert "5"[..0] == [];
    }
    assert Pow10(|"5"|) == 10;
  }

  /** Decimal digits of a natural number, most significant first */
  function DecimalText(n: nat): (t: string)
    ensures |t| > 0 && AllDigits(t)
  {
    var d := [('0' as int + n % 10) as char];
    if n < 10 then d else DecimalText(n / 10) + d
  }

  /** `Number()` reads back every natural number written in decimal, with or without a sign */
  lemma NumberOfDecimalText(n: nat)
    ensures ToNumber(DecimalText(n)) == Val(n as real)
    ensures ToNumber("-" + DecimalText(n)) == Val(-(n as real))
  {
    DigitsOfDecimalText(n);
    var t := DecimalText(n);
    assert ("-" + t)[1..] == t;
    assert forall i :: 0 <= i < |t| ==> t[i] != '.';
  }

  lemma {:induction false} DigitsOfDecimalText(n: nat)
    ensures DigitsValue(DecimalText(n)) == n
  {
    if n >= 10 {
      DigitsOfDecimalText(n / 10);
      var t := DecimalText(n);
      assert t[..|t| - 1] == DecimalText(n / 10);
    }
  }
}
