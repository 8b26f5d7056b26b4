/** The number converter: repeated division by 2 or 16 with the digits prepended, and
    the classification of a data file's lines into numbers and invalid entries. */
module ConvertNumbers {
  import opened Wrappers
  import opened Text

  const HexChars := "0123456789ABCDEF"

  function Pow(base: nat, e: nat): (r: nat)
  {
    if e == 0 then 1 else base * Pow(base, e - 1)
  }

  /** The value of a digit character of `HexChars`. */
  function DigitValue(c: char): (r: nat)
  {
    if '0' <= c <= '9' then c as int - '0' as int
    else if 'A' <= c <= 'F' then c as int - 'A' as int + 10
    else 0
  }

  /** Every character of `s` is one of the first `base` digits. */
  predicate IsNumeral(s: string, base: nat)
    requires base <= 16
  {
    forall i :: 0 <= i < |s| ==> s[i] in HexChars[..base]
  }

  /** The value of `s` read as a positional numeral in `base`, first digit most
      significant. */
  function NumeralValue(s: string, base: nat): (r: nat)
  {
    if s == [] then 0 else DigitValue(s[0]) * Pow(base, |s| - 1) + NumeralValue(s[1..], base)
  }

  /** `HexChars[k]` is the digit for `k`. */
  lemma HexCharsDigits(k: nat)
    requires k < 16
    ensures DigitValue(HexChars[k]) == k
    ensures HexChars[k] in HexChars[..k + 1] && (k > 0 <==> HexChars[k] != '0')
  {
  }

  lemma DigitBelowBase(c: char, base: nat)
    requires 2 <= base <= 16 && c in HexChars[..base]
    ensures DigitValue(c) < base
  {
    var k :| 0 <= k < base && HexChars[..base][k] == c;
    HexCharsDigits(k);
  }

  lemma PrependNumeral(s: string, d: char, base: nat)
    requires base <= 16 && IsNumeral(s, base) && d in HexChars[..base]
    ensures IsNumeral([d] + s, base)
  {
    forall i | 0 <= i < |[d] + s| ensures ([d] + s)[i] in HexChars[..base] {
      if i > 0 {
        assert ([d] + s)[i] == s[i - 1];
      }
    }
  }

  /** A numeral of `L` digits is below `base^L`. */
  lemma {:induction false} NumeralBelowPow(s: string, base: nat)
    requires 2 <= base <= 16 && IsNumeral(s, base)
    ensures NumeralValue(s, base) < Pow(base, |s|)
  {
    if s != [] {
      var p := Pow(base, |s| - 1);
      assert IsNumeral(s[1..], base) by {
        forall i | 0 <= i < |s[1..]| ensures s[1..][i] in HexChars[..base] {
          assert s[1..][i] == s[i + 1];
        }
      }
      NumeralBelowPow(s[1..], base);
      DigitBelowBase(s[0], base);
      calc {
        NumeralValue(s, base);
        == DigitValue(s[0]) * p + NumeralValue(s[1..], base);
        < DigitValue(s[0]) * p + p;
        == (DigitValue(s[0]) + 1) * p;
        <= { MulMonotone(DigitValue(s[0]) + 1, base, p); } base * p;
      }
    }
  }

  /** A numeral whose first digit is not zero is at least `base^(L-1)`. */
  lemma LeadingDigitBound(s: string, base: nat)
    requires s != [] && DigitValue(s[0]) >= 1
    ensures NumeralValue(s, base) >= Pow(base, |s| - 1)
  {
    MulMonotone(1, DigitValue(s[0]), Pow(base, |s| - 1));
  }

  lemma MulMonotone(a: nat, b: nat, p: nat)
    requires a <= b
    ensures a * p <= b * p
  {
  }

  /** Prepending the digit of `n % base` to a numeral and dividing `n` by `base` keeps
      `n * base^|s| + value(s)` unchanged. */
  lemma PrependDigit(n: nat, base: nat, s: string, d: char)
    requires base > 0 && DigitValue(d) == n % base
    ensures (n / base) * Pow(base, |[d] + s|) + NumeralValue([d] + s, base)
            == n * Pow(base, |s|) + NumeralValue(s, base)
  {
    var p := Pow(base, |s|);
    assert ([d] + s)[1..] == s;
    assert Pow(base, |s| + 1) == base * p;
    calc {
      (n / base) * (base * p) + (n % base) * p;
      == (base * (n / base)) * p + (n % base) * p;
      == (base * (n / base) + n % base) * p;
      == n * p;
    }
  }

  /** Python's `decimal_to_binary`: "0" for zero, nothing for a negative number (the
      loop does not run), otherwise the base-2 numeral of `num` without leading zeros. */
  method DecimalToBinary(num: int) returns (binary: string)
    ensures num == 0 ==> binary == "0"
    ensures num < 0 ==> binary == ""
    ensures num > 0 ==> IsNumeral(binary, 2) && binary != [] && binary[0] == '1'
    ensures num > 0 ==> NumeralValue(binary, 2) == num
    ensures num > 0 ==> Pow(2, |binary| - 1) <= num < Pow(2, |binary|)
  {
    if num == 0 {
      return "0";
    }
    binary := "";
    var n := num;
    while n > 0
      invariant binary == "" ==> n == num
      invariant binary != "" ==> n >= 0 && (n > 0 || binary[0] == '1')
      invariant IsNumeral(binary, 2)
      invariant num > 0 ==> n >= 0 && num == n * Pow(2, |binary|) + NumeralValue(binary, 2)
      decreases n
    {
      var remainder := n % 2;
      var digit := if remainder == 0 then '0' else '1';
      PrependDigit(n, 2, binary, digit);
      assert HexChars[..2] == "01";
      PrependNumeral(binary, digit, 2);
      binary := [digit] + binary;
      n := n / 2;
    }
    if num > 0 {
      NumeralBelowPow(binary, 2);
      LeadingDigitBound(binary, 2);
    }
  }

  /** Python's `decimal_to_hexadecimal`: as `DecimalToBinary` in base 16 with the
      digits of `HexChars`; the first digit is never '0'. */
  method DecimalToHexadecimal(num: int) returns (hexadecimal: string)
    ensures num == 0 ==> hexadecimal == "0"
    ensures num < 0 ==> hexadecimal == ""
    ensures num > 0 ==> IsNumeral(hexadecimal, 16) && hexadecimal != [] && hexadecimal[0] != '0'
    ensures num > 0 ==> NumeralValue(hexadecimal, 16) == num
    ensures num > 0 ==> Pow(16, |hexadecimal| - 1) <= num < Pow(16, |hexadecimal|)
  {
    if num == 0 {
      return "0";
    }
    hexadecimal := "";
    var n := num;
    while n > 0
      invariant hexadecimal == "" ==> n == num
      invariant hexadecimal != "" ==> n >= 0 && (n > 0 || hexadecimal[0] != '0')
      invariant IsNumeral(hexadecimal, 16)
      invariant num > 0 ==> n >= 0 && num == n * Pow(16, |hexadecimal|) + NumeralValue(hexadecimal, 16)
      decreases n
    {
      var remainder := n % 16;
      HexCharsDigits(remainder);
      PrependDigit(n, 16, hexadecimal, HexChars[remainder]);
      PrependNumeral(hexadecimal, HexChars[remainder], 16);
      hexadecimal := [HexChars[remainder]] + hexadecimal;
      n := n / 16;
    }
    if num > 0 {
      NumeralBelowPow(hexadecimal, 16);
      LeadingDigitBound(hexadecimal, 16);
    }
  }

  // ---------------------------------------------------------------------------
  // Reading the data file
  // ---------------------------------------------------------------------------

  /** A stripped line that carries data: neither blank nor a `#` comment. */
  predicate IsDataLine(line: string) {
    line != [] && line[0] != '#'
  }

  /** The stripped data lines of a file, in order. */
  function DataLines(lines: seq<string>): (r: seq<string>)
  {
    if lines == [] then []
    else
      var rest := DataLines(lines[..|lines| - 1]);
      var line := Strip(lines[|lines| - 1]);
      if IsDataLine(line) then rest + [line] else rest
  }

  /** Blank and comment lines are dropped: every kept line is data, and there are no
      more of them than lines. */
  lemma {:induction false} DataLinesAreData(lines: seq<string>)
    ensures |DataLines(lines)| <= |lines|
    ensures forall i :: 0 <= i < |DataLines(lines)| ==> IsDataLine(DataLines(lines)[i])
  {
    if lines != [] {
      var init := lines[..|lines| - 1];
      DataLinesAreData(init);
      var rest := DataLines(init);
      var line := Strip(lines[|lines| - 1]);
      if IsDataLine(line) {
        forall i | 0 <= i < |rest + [line]| ensures IsDataLine((rest + [line])[i]) {
          if i < |rest| {
            assert (rest + [line])[i] == rest[i];
          }
        }
      }
    }
  }

  /** The data lines that parse to a non-negative integer, as numbers. */
  function Accepted(data: seq<string>, parseInt: string -> Option<int>): (r: seq<int>)
  {
    if data == [] then []
    else
      var rest := Accepted(data[..|data| - 1], parseInt);
      var parsed := parseInt(data[|data| - 1]);
      if parsed.Some? && parsed.value >= 0 then rest + [parsed.value] else rest
  }

  lemma {:induction false} AcceptedNonNegative(data: seq<string>, parseInt: string -> Option<int>)
    ensures |Accepted(data, parseInt)| <= |data|
    ensures forall i :: 0 <= i < |Accepted(data, parseInt)| ==> Accepted(data, parseInt)[i] >= 0
  {
    if data != [] {
      AcceptedNonNegative(data[..|data| - 1], parseInt);
    }
  }

  lemma DataLinesSnoc(lines: seq<string>, line: string)
    ensures DataLines(lines + [line])
            == DataLines(lines) + (if IsDataLine(Strip(line)) then [Strip(line)] else [])
  {
    assert (lines + [line])[..|lines|] == lines;
  }

  lemma AcceptedSnoc(data: seq<string>, line: string, parseInt: string -> Option<int>)
    ensures Accepted(data + [line], parseInt)
            == Accepted(data, parseInt)
               + (if parseInt(line).Some? && parseInt(line).value >= 0 then [parseInt(line).value] else [])
  {
    assert (data + [line])[..|data|] == data;
  }

  /** One line more: a data line adds its parse to the accepted numbers when it is a
      non-negative integer, and to the data lines in any case. */
  lemma ReadStep(lines: seq<string>, i: nat, parseInt: string -> Option<int>)
    requires i < |lines|
    ensures DataLines(lines[..i + 1])
            == DataLines(lines[..i]) + (if IsDataLine(Strip(lines[i])) then [Strip(lines[i])] else [])
    ensures Accepted(DataLines(lines[..i + 1]), parseInt)
            == Accepted(DataLines(lines[..i]), parseInt)
               + (if IsDataLine(Strip(lines[i])) && parseInt(Strip(lines[i])).Some?
                     && parseInt(Strip(lines[i])).value >= 0
                  then [parseInt(Strip(lines[i])).value] else [])
  {
    assert lines[..i + 1] == lines[..i] + [lines[i]];
    DataLinesSnoc(lines[..i], lines[i]);
    AcceptedSnoc(DataLines(lines[..i]), Strip(lines[i]), parseInt);
  }

  /** The loop of Python's `read_numbers_from_file` over the file's lines; `int()` is
      the parameter `parseInt`. Kept numbers are the accepted data lines in file order,
      and every other data line counts as invalid. */
  method ReadNumbers(lines: seq<string>, parseInt: string -> Option<int>)
    returns (numbers: seq<int>, invalidCount: nat)
    ensures numbers == Accepted(DataLines(lines), parseInt)
    ensures forall i :: 0 <= i < |numbers| ==> numbers[i] >= 0
    ensures |numbers| + invalidCount == |DataLines(lines)|
  {
    numbers := [];
    invalidCount := 0;
    for i := 0 to |lines|
      invariant numbers == Accepted(DataLines(lines[..i]), parseInt)
      invariant |numbers| + invalidCount == |DataLines(lines[..i])|
    {
      ReadStep(lines, i, parseInt);
      var line := Strip(lines[i]);
      if !IsDataLine(line) {
        continue;
      }
      match parseInt(line)
      case Some(n) =>
        if n < 0 {
          invalidCount := invalidCount + 1;
        } else {
          numbers := numbers + [n];
        }
      case None =>
        invalidCount := invalidCount + 1;
    }
    assert lines[..|lines|] == lines;
    AcceptedNonNegative(DataLines(lines), parseInt);
  }
}
