/**
 * `parse_hex_16` (cargo-hf2/src/main.rs), the value parser of the `--vid` and
 * `--pid` options, together with the part of Rust's `u16::from_str_radix`
 * it relies on.
 */
module HexParse {
  import opened Wrappers
  import opened Ints

  /** The kinds of `ParseIntError` an unsigned `from_str_radix` reports. */
  datatype IntErrorKind = Empty | InvalidDigit | PosOverflow

  predicate IsRadix(radix: nat) {
    radix == 10 || radix == 16
  }

  /** `char::to_digit(radix)` for the two radixes in use. */
  function DigitValue(c: char, radix: nat): (r: Option<nat>)
    requires IsRadix(radix)
    ensures r.Some? ==> r.value < radix
    ensures r.Some? <==> ('0' <= c <= '9' || (radix == 16 && ('a' <= c <= 'f' || 'A' <= c <= 'F')))
  {
    if '0' <= c <= '9' then Some(c as int - '0' as int)
    else if radix == 16 && 'a' <= c <= 'f' then Some(c as int - 'a' as int + 10)
    else if radix == 16 && 'A' <= c <= 'F' then Some(c as int - 'A' as int + 10)
    else None
  }

  /** In base 16 an upper-case letter digit has the value of its lower-case form. */
  lemma UpperCaseDigitsAsLowerCase(c: char)
    requires 'A' <= c <= 'F'
    ensures DigitValue(c, 16).Some?
    ensures DigitValue(c, 16) == DigitValue((c as int + 32) as char, 16)
  {
  }

  /**
   * The digit loop of `from_str_radix`: digits are consumed left to right,
   * and at each digit an invalid character is reported before an overflow.
   * An empty digit string accumulates to 0 (the caller rejects it first).
   */
  function Accumulate(digits: string, radix: nat): (r: Result<nat, IntErrorKind>)
    requires IsRadix(radix)
    ensures r.Ok? ==> r.value <= U16_MAX
    ensures r.Err? ==> r.error != Empty
    decreases |digits|
  {
    if |digits| == 0 then Ok(0)
    else
      match Accumulate(digits[..|digits| - 1], radix)
      case Err(e) => Err(e)
      case Ok(acc) =>
        match DigitValue(digits[|digits| - 1], radix)
        case None => Err(InvalidDigit)
        case Some(d) =>
          if acc * radix + d > U16_MAX then Err(PosOverflow) else Ok(acc * radix + d)
  }

  /**
   * `u16::from_str_radix`: an empty string is `Empty`; a lone sign is
   * `InvalidDigit`; one leading `+` is skipped; a `-` is not a sign for an
   * unsigned type and so is an invalid digit.
   */
  function FromStrRadix(src: string, radix: nat): (r: Result<u16, IntErrorKind>)
    requires IsRadix(radix)
    ensures r == Err(Empty) <==> |src| == 0
  {
    if |src| == 0 then Err(Empty)
    else if (src[0] == '+' || src[0] == '-') && |src| == 1 then Err(InvalidDigit)
    else
      var digits := if src[0] == '+' then src[1..] else src;
      match Accumulate(digits, radix)
      case Err(e) => Err(e)
      case Ok(n) => Ok(n as u16)
  }

  /** `parse_hex_16`: base 16 after a lower-case `0x` prefix, base 10 otherwise. */
  function ParseHex16(input: string): (r: Result<u16, IntErrorKind>)
    ensures r == Err(Empty) <==> input == "" || input == "0x"
  {
    if |input| >= 2 && input[..2] == "0x" then FromStrRadix(input[2..], 16)
    else FromStrRadix(input, 10)
  }

  // ---------------------------------------------------------------------
  // Reference semantics: positional value of a digit string
  // ---------------------------------------------------------------------

  ghost predicate AllDigits(s: string, radix: nat)
    requires IsRadix(radix)
  {
    forall i :: 0 <= i < |s| ==> DigitValue(s[i], radix).Some?
  }

  /** The unbounded value of a string of valid digits, most significant first. */
  ghost function Value(s: string, radix: nat): nat
    requires IsRadix(radix) && AllDigits(s, radix)
    decreases |s|
  {
    if |s| == 0 then 0
    else Value(s[..|s| - 1], radix) * radix + DigitValue(s[|s| - 1], radix).value
  }

  /** What `from_str_radix` looks at once an optional leading `+` is dropped. */
  function Unsigned(src: string): string {
    if |src| > 0 && src[0] == '+' then src[1..] else src
  }

  /** `src` spells a number in range: optional `+`, at least one digit, no other character. */
  ghost predicate SpellsU16(src: string, radix: nat)
    requires IsRadix(radix)
  {
    var digits := Unsigned(src);
    |digits| > 0 && AllDigits(digits, radix) && Value(digits, radix) <= U16_MAX
  }

  /** The digit loop succeeds exactly on digit strings whose value fits, and yields that value. */
  lemma {:induction false} AccumulateIsValue(digits: string, radix: nat)
    requires IsRadix(radix)
    ensures Accumulate(digits, radix).Ok? <==> AllDigits(digits, radix) && Value(digits, radix) <= U16_MAX
    ensures Accumulate(digits, radix).Ok? ==> Accumulate(digits, radix).value == Value(digits, radix)
    decreases |digits|
  {
    if |digits| > 0 {
      var prefix := digits[..|digits| - 1];
      var last := digits[|digits| - 1];
      AccumulateIsValue(prefix, radix);
      assert AllDigits(digits, radix) ==> AllDigits(prefix, radix) by {
        forall i | 0 <= i < |prefix| ensures prefix[i] == digits[i] { }
      }
      assert AllDigits(prefix, radix) && DigitValue(last, radix).Some? ==> AllDigits(digits, radix) by {
        if AllDigits(prefix, radix) && DigitValue(last, radix).Some? {
          forall i | 0 <= i < |digits| ensures DigitValue(digits[i], radix).Some? {
            if i < |prefix| { assert digits[i] == prefix[i]; }
          }
        }
      }
      if AllDigits(digits, radix) {
        assert Value(digits, radix) >= Value(prefix, radix);
      }
    }
  }

  /** `from_str_radix` succeeds exactly when its input spells a number in range, and returns that number. */
  lemma FromStrRadixIsValue(src: string, radix: nat)
    requires IsRadix(radix)
    ensures FromStrRadix(src, radix).Ok? <==> SpellsU16(src, radix)
    ensures FromStrRadix(src, radix).Ok? ==> FromStrRadix(src, radix).value as int == Value(Unsigned(src), radix)
  {
    AccumulateIsValue(Unsigned(src), radix);
    if |src| == 1 && (src[0] == '+' || src[0] == '-') {
      assert !AllDigits(src, radix) by { assert DigitValue(src[0], radix).None?; }
    }
  }

  /**
   * What `parse_hex_16` accepts: after a lower-case `0x` prefix, a base-16
   * spelling of a `u16`; otherwise a base-10 spelling; the value is the
   * number spelled.
   */
  lemma ParseHex16IsValue(input: string)
    ensures var hex := |input| >= 2 && input[..2] == "0x";
      && (hex ==> (ParseHex16(input).Ok? <==> SpellsU16(input[2..], 16)))
      && (hex && ParseHex16(input).Ok? ==> ParseHex16(input).value as int == Value(Unsigned(input[2..]), 16))
      && (!hex ==> (ParseHex16(input).Ok? <==> SpellsU16(input, 10)))
      && (!hex && ParseHex16(input).Ok? ==> ParseHex16(input).value as int == Value(Unsigned(input), 10))
  {
    if |input| >= 2 && input[..2] == "0x" {
      FromStrRadixIsValue(input[2..], 16);
    } else {
      FromStrRadixIsValue(input, 10);
    }
  }

  // ---------------------------------------------------------------------
  // Formatting, the inverse of parsing
  // ---------------------------------------------------------------------

  /** The digit character for `d` (lower-case letters above 9). */
  function DigitChar(d: nat): (c: char)
    requires d < 16
    ensures DigitValue(c, 16) == Some(d)
    ensures d < 10 ==> DigitValue(c, 10) == Some(d)
  {
    if d < 10 then ('0' as int + d) as char else ('a' as int + d - 10) as char
  }

  /** `n` written in `radix` without leading zeros ("0" for zero). */
  function ToDigits(n: nat, radix: nat): (s: string)
    requires IsRadix(radix)
    ensures |s| > 0
    ensures forall i :: 0 <= i < |s| ==> DigitValue(s[i], radix).Some?
    decreases n
  {
    if n < radix then [DigitChar(n)] else ToDigits(n / radix, radix) + [DigitChar(n % radix)]
  }

  /** How the `0x` form of a vid or pid is written, e.g. "0x2e8a". */
  function FormatHex(n: u16): string {
    "0x" + ToDigits(n as nat, 16)
  }

  /** How the decimal form of a vid or pid is written, e.g. "11914". */
  function FormatDecimal(n: u16): string {
    ToDigits(n as nat, 10)
  }

  /** Division by the radix, with a literal divisor in each case so that the arithmetic stays linear. */
  lemma DivModRadix(n: nat, radix: nat)
    requires IsRadix(radix)
    ensures (n / radix) * radix + n % radix == n
    ensures n % radix < radix && n / radix <= n
    ensures n >= radix ==> n / radix < n
  {
    if radix == 10 {
      assert (n / 10) * 10 + n % 10 == n;
    } else {
      assert (n / 16) * 16 + n % 16 == n;
    }
  }

  lemma {:induction false} AccumulateToDigits(n: nat, radix: nat)
    requires IsRadix(radix) && n <= U16_MAX
    ensures Accumulate(ToDigits(n, radix), radix) == Ok(n)
    decreases n
  {
    if n >= radix {
      var high, low := n / radix, n % radix;
      DivModRadix(n, radix);
      AccumulateToDigits(high, radix);
      var c := DigitChar(low);
      AccumulateSnoc(ToDigits(high, radix), c, radix);
    }
  }

  /** One more digit multiplies what was read so far by the radix and adds the digit, while the result fits. */
  lemma AccumulateSnoc(prefix: string, c: char, radix: nat)
    requires IsRadix(radix)
    requires Accumulate(prefix, radix).Ok? && DigitValue(c, radix).Some?
    requires Accumulate(prefix, radix).value * radix + DigitValue(c, radix).value <= U16_MAX
    ensures Accumulate(prefix + [c], radix) == Ok(Accumulate(prefix, radix).value * radix + DigitValue(c, radix).value)
  {
    var s := prefix + [c];
    assert s[..|s| - 1] == prefix;
  }

  /** Parsing undoes formatting, in both notations, for every `u16`. */
  lemma ParseHex16RoundTrip(n: u16)
    ensures ParseHex16(FormatHex(n)) == Ok(n)
    ensures ParseHex16(FormatDecimal(n)) == Ok(n)
  {
    AccumulateToDigits(n as nat, 16);
    AccumulateToDigits(n as nat, 10);
    var hex := FormatHex(n);
    assert hex[..2] == "0x" && hex[2..] == ToDigits(n as nat, 16);
    var dec := FormatDecimal(n);
    assert DigitValue(dec[0], 10).Some?;
    if |dec| >= 2 {
      assert DigitValue(dec[1], 10).Some?;
      assert dec[..2] != "0x" by { assert dec[..2][1] == dec[1]; }
    }
  }

  /** Only a lower-case `0x` selects base 16: an upper-case `0X` is read as a decimal and rejected. */
  lemma UpperCasePrefixRejected(rest: string)
    ensures ParseHex16("0X" + rest) == Err(InvalidDigit)
  {
    var input := "0X" + rest;
    assert input[..2] != "0x" by { assert input[1] == 'X'; }
    AccumulateFailsAt(input, 1, 10);
  }

  /** The digit loop stops with `InvalidDigit` at a bad character after a run of valid ones that fits. */
  lemma {:induction false} AccumulateFailsAt(digits: string, k: nat, radix: nat)
    requires IsRadix(radix) && k < |digits|
    requires DigitValue(digits[k], radix).None?
    requires AllDigits(digits[..k], radix) && Value(digits[..k], radix) <= U16_MAX
    ensures Accumulate(digits, radix) == Err(InvalidDigit)
    decreases |digits|
  {
    var prefix := digits[..|digits| - 1];
    if k == |digits| - 1 {
      AccumulateIsValue(prefix, radix);
    } else {
      assert prefix[..k] == digits[..k];
      AccumulateFailsAt(prefix, k, radix);
    }
  }

  /** "0x2E8A" is the hex spelling of 11914 (upper-case digits are accepted). */
  lemma HexSpelling()
    ensures ParseHex16("0x2E8A") == Ok(11914)
  {
    AccumulateSnoc("", '2', 16);
    assert "" + ['2'] == "2";
    AccumulateSnoc("2", 'E', 16);
    assert "2" + ['E'] == "2E";
    AccumulateSnoc("2E", '8', 16);
    assert "2E" + ['8'] == "2E8";
    AccumulateSnoc("2E8", 'A', 16);
    assert "2E8" + ['A'] == "2E8A";
    var h := "0x2E8A";
    assert h[..2] == "0x" && h[2..] == "2E8A";
  }

  /** "11914" is the decimal spelling of the same id. */
  lemma DecimalSpelling()
    ensures ParseHex16("11914") == Ok(11914)
  {
    AccumulateSnoc("", '1', 10);
    assert "" + ['1'] == "1";
    AccumulateSnoc("1", '1', 10);
    assert "1" + ['1'] == "11";
    AccumulateSnoc("11", '9', 10);
    assert "11" + ['9'] == "119";
    AccumulateSnoc("119", '1', 10);
    assert "119" + ['1'] == "1191";
    AccumulateSnoc("1191", '4', 10);
    assert "1191" + ['4'] == "11914";
    var d := "11914";
    assert d[..2] != "0x" by { assert d[..2][1] == '1'; }
  }

  /** "0x1FFFF" is above 65535 and overflows. */
  lemma HexOverflow()
    ensures ParseHex16("0x1FFFF") == Err(PosOverflow)
  {
    AccumulateSnoc("", '1', 16);
    assert "" + ['1'] == "1";
    AccumulateSnoc("1", 'F', 16);
    assert "1" + ['F'] == "1F";
    AccumulateSnoc("1F", 'F', 16);
    assert "1F" + ['F'] == "1FF";
    AccumulateSnoc("1FF", 'F', 16);
    assert "1FF" + ['F'] == "1FFF";
    assert "1FFFF"[..4] == "1FFF";
    var o := "0x1FFFF";
    assert o[..2] == "0x" && o[2..] == "1FFFF";
  }

  /** "65536" is one above the largest `u16` and overflows. */
  lemma DecimalOverflow()
    ensures ParseHex16("65536") == Err(PosOverflow)
  {
    AccumulateSnoc("", '6', 10);
    assert "" + ['6'] == "6";
    AccumulateSnoc("6", '5', 10);
    assert "6" + ['5'] == "65";
    AccumulateSnoc("65", '5', 10);
    assert "65" + ['5'] == "655";
    AccumulateSnoc("655", '3', 10);
    assert "655" + ['3'] == "6553";
    assert "65536"[..4] == "6553";
    var big := "65536";
    assert big[..2] != "0x" by { assert big[..2][1] == '5'; }
  }

  /** A bare prefix and the empty string have no digits. */
  lemma NoDigitsRejected()
    ensures ParseHex16("0x") == Err(Empty)
    ensures ParseHex16("") == Err(Empty)
  {
    var e := "0x";
    assert e[..2] == "0x" && e[2..] == "";
  }
}
