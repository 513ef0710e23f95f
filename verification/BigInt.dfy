/** The hexadecimal integers of Asn1IntegerRecord (Asn1Codec.h, class BigInt). */
module BigInt {
  import opened Wrappers
  import opened Positional

  function Digit(d: nat): char
    requires d < 16
  {
    "0123456789abcdef"[d]
  }

  predicate IsHexDigit(c: char) {
    '0' <= c <= '9' || 'a' <= c <= 'f' || 'A' <= c <= 'F'
  }

  function DigitValue(c: char): (d: nat)
    requires IsHexDigit(c)
    ensures d < 16
  {
    if '0' <= c <= '9' then c as int - '0' as int
    else if 'a' <= c <= 'f' then c as int - 'a' as int + 10
    else c as int - 'A' as int + 10
  }

  predicate IsHex(s: string) {
    s != "" && forall i :: 0 <= i < |s| ==> IsHexDigit(s[i])
  }

  /** Printing with std::hex: lower case, no leading zeros. */
  function InitFromInt(n: nat): string {
    if n < 16 then [Digit(n)] else InitFromInt(n / 16) + [Digit(n % 16)]
  }

  /** Reading with std::hex. */
  function Value(s: string): nat
    requires forall i :: 0 <= i < |s| ==> IsHexDigit(s[i])
  {
    if s == "" then 0 else Value(s[..|s| - 1]) * 16 + DigitValue(s[|s| - 1])
  }

  /** A string of m digits fits an integer type of `size` octets when (m + 1) / 2 octets do. */
  predicate CanFit(s: string, size: nat) {
    size >= (|s| + 1) / 2
  }

  datatype IntError = Overflow

  /** Throws unless it fits; the parsed 64-bit value is cast to the requested type. */
  function GetInt(s: string, size: nat): Result<nat, IntError>
    requires IsHex(s) && 0 < size <= 8
  {
    if !CanFit(s, size) then Err(Overflow) else Ok(Value(s) % Power(256, size))
  }

  lemma DigitRoundTrip(d: nat)
    requires d < 16
    ensures IsHexDigit(Digit(d)) && DigitValue(Digit(d)) == d
  {
  }

  lemma {:induction false} PrintedIsHex(n: nat)
    ensures IsHex(InitFromInt(n))
    ensures Value(InitFromInt(n)) == n
  {
    var s := InitFromInt(n);
    DigitRoundTrip(n % 16);
    if n < 16 {
      assert s[..0] == "";
      assert Value(s) == Value("") * 16 + DigitValue(s[0]);
    } else {
      PrintedIsHex(n / 16);
      assert s[..|s| - 1] == InitFromInt(n / 16);
      assert s[|s| - 1] == Digit(n % 16);
      assert Value(s) == Value(InitFromInt(n / 16)) * 16 + n % 16;
    }
  }

  /** The characters printed are the hexadecimal digits, 0 to 9 and a to f in ASCII, most significant first. */
  lemma {:induction false} PrintedDigits(n: nat, i: nat)
    requires i < |InitFromInt(n)|
    ensures var s := InitFromInt(n);
            var d := n / Power(16, |s| - 1 - i) % 16;
            s[i] as int == if d < 10 then 48 + d else 97 + (d - 10)
    decreases n
  {
    var s := InitFromInt(n);
    DigitChar(n % 16);
    if n >= 16 && i < |s| - 1 {
      var front := InitFromInt(n / 16);
      assert s[i] == front[i];
      HigherDigit(n, 16, |s| - 2 - i);
      PrintedDigits(n / 16, i);
    } else {
      assert s[i] == Digit(n % 16);
      OnesDigit(n, 16);
    }
  }

  lemma DigitChar(d: nat)
    requires d < 16
    ensures Digit(d) as int == if d < 10 then 48 + d else 97 + (d - 10)
  {
  }

  /** What is read has the digits that the characters stand for, upper or lower case, most significant first. */
  lemma {:induction false} ReadDigits(s: string, i: nat)
    requires i < |s| && forall j :: 0 <= j < |s| ==> IsHexDigit(s[j])
    ensures Value(s) / Power(16, |s| - 1 - i) % 16 ==
            s[i] as int - if s[i] as int <= 57 then 48 else if s[i] as int <= 70 then 65 - 10 else 97 - 10
    decreases |s|
  {
    var front, d := s[..|s| - 1], DigitValue(s[|s| - 1]);
    QuotientUnique(Value(s), Value(front), 16);
    var k := |s| - 1 - i;
    if k == 0 {
      OnesDigit(Value(s), 16);
    } else {
      HigherDigit(Value(s), 16, k - 1);
      ReadDigits(front, i);
    }
  }

  /** k digits hold exactly the numbers below 16^k. */
  lemma {:induction false} ValueBound(s: string)
    requires forall i :: 0 <= i < |s| ==> IsHexDigit(s[i])
    ensures Value(s) < Power(16, |s|)
  {
    if s != "" {
      ValueBound(s[..|s| - 1]);
    }
  }

  predicate NoLeadingZero(s: string) {
    IsHex(s) && (|s| > 1 ==> s[0] != '0')
  }

  lemma {:induction false} ValueAtLeast(s: string)
    requires IsHex(s) && s[0] != '0'
    ensures Value(s) >= Power(16, |s| - 1)
  {
    if |s| == 1 {
      assert Value(s[..0]) == 0;
    } else {
      ValueAtLeast(s[..|s| - 1]);
      assert Power(16, |s| - 1) == 16 * Power(16, |s| - 2);
    }
  }

  lemma {:induction false} PowerSquare(k: nat)
    ensures Power(256, k) == Power(16, 2 * k)
  {
    if k > 0 {
      PowerSquare(k - 1);
      assert Power(16, 2 * k) == 16 * Power(16, 2 * k - 1);
      assert Power(16, 2 * k - 1) == 16 * Power(16, 2 * k - 2);
    }
  }

  /** A leading zero adds nothing. */
  lemma {:induction false} LeadingZero(s: string)
    requires IsHex(s) && s[0] == '0'
    ensures Value(s) == Value(s[1..])
  {
    if |s| == 1 {
      assert s[..0] == "" && s[1..] == "";
      assert Value(s) == Value(s[..0]) * 16 + DigitValue('0');
    } else {
      LeadingZero(s[..|s| - 1]);
      assert s[..|s| - 1][1..] == s[1..][..|s| - 2];
    }
  }

  /** Some digit in front of the last k is not zero. */
  predicate NonzeroBefore(s: string, k: nat) {
    exists i :: 0 <= i < |s| - k && s[i] != '0'
  }

  /** The value takes more than k digits exactly when there is a digit other than zero in front of the last k. */
  lemma {:induction false} NeedsMoreDigits(s: string, k: nat)
    requires IsHex(s) && k > 0
    ensures Value(s) >= Power(16, k) <==> NonzeroBefore(s, k)
  {
    if |s| <= k {
      ValueBound(s);
      PowerMonotone(16, |s|, k);
    } else if s[0] != '0' {
      ValueAtLeast(s);
      PowerMonotone(16, k, |s| - 1);
    } else {
      LeadingZero(s);
      NeedsMoreDigits(s[1..], k);
      assert forall i :: 0 <= i < |s| - 1 ==> s[1..][i] == s[i + 1];
      if NonzeroBefore(s, k) {
        var i :| 0 <= i < |s| - k && s[i] != '0';
        assert s[1..][i - 1] != '0';
      }
    }
  }

  /**
    canFit is right about a hex string exactly when the string has no more digits than the type, or
    one of the surplus digits is not zero. Otherwise it refuses a value that fits.
   */
  lemma CanFitExactly(s: string, size: nat)
    requires IsHex(s) && size > 0
    ensures (CanFit(s, size) <==> Value(s) < Power(256, size)) <==>
              (|s| <= 2 * size || exists i :: 0 <= i < |s| - 2 * size && s[i] != '0')
    ensures CanFit(s, size) ==> Value(s) < Power(256, size)
  {
    PowerSquare(size);
    assert CanFit(s, size) <==> |s| <= 2 * size;
    NeedsMoreDigits(s, 2 * size);
  }

  /** In particular, it is right about every string without leading zeros. */
  lemma CanFitWithoutLeadingZeros(s: string, size: nat)
    requires NoLeadingZero(s) && size > 0
    ensures CanFit(s, size) <==> Value(s) < Power(256, size)
  {
    CanFitExactly(s, size);
  }

  lemma {:induction false} PrintedHasNoLeadingZero(n: nat)
    ensures NoLeadingZero(InitFromInt(n))
    ensures n > 0 ==> InitFromInt(n)[0] != '0'
  {
    PrintedIsHex(n);
    if n >= 16 {
      PrintedHasNoLeadingZero(n / 16);
    }
  }

  lemma ModSmall(v: nat, p: nat)
    requires v < p
    ensures v % p == v
  {
  }

  /** What is read is exact for every hex string that is accepted, leading zeros or not. */
  lemma {:induction false} ReadExactly(s: string, size: nat)
    requires IsHex(s) && 0 < size <= 8
    ensures GetInt(s, size) == if |s| <= 2 * size then Ok(Value(s)) else Err(Overflow)
  {
    assert CanFit(s, size) <==> |s| <= 2 * size;
    if |s| <= 2 * size {
      ValueBound(s);
      PowerSquare(size);
      PowerMonotone(16, |s|, 2 * size);
      ModSmall(Value(s), Power(256, size));
    }
  }

  /** Print, then read as a type of `size` octets: the number itself, or an error when it does not fit. */
  lemma RoundTrip(n: nat, size: nat)
    requires 0 < size <= 8
    ensures IsHex(InitFromInt(n))
    ensures GetInt(InitFromInt(n), size) == if n < Power(256, size) then Ok(n) else Err(Overflow)
  {
    var s := InitFromInt(n);
    PrintedIsHex(n);
    PrintedHasNoLeadingZero(n);
    CanFitWithoutLeadingZeros(s, size);
    ReadExactly(s, size);
    assert CanFit(s, size) <==> |s| <= 2 * size;
  }

  /** With leading zeros a value that fits can be refused: 001 as one octet. */
  lemma LeadingZerosRefused()
    ensures IsHex("001") && Value("001") == 1 && GetInt("001", 1) == Err(Overflow)
  {
    assert "001"[..2] == "00" && "00"[..1] == "0" && "0"[..0] == "";
    assert Value("0") == Value("") * 16 + DigitValue('0');
    assert Value("00") == Value("0") * 16 + DigitValue('0');
    assert Value("001") == Value("00") * 16 + DigitValue('1');
    ReadExactly("001", 1);
  }
}
