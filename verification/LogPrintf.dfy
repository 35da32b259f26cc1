/** Integer printing in the logging printf: digit counting, padding, and the digits from the top down. */
module LogPrintf {
  import opened Words

  /** The number bases of the formats. */
  type Base = b: int | b == 8 || b == 10 || b == 16 witness 10

  /** Division by a base, its remainder, and multiplication, spelled out base by base. */
  function Quot(n: nat, base: Base): (q: nat)
    ensures q <= n && (q == n <==> n == 0) && (q == 0 <==> n < base)
  {
    if base == 8 then n / 8 else if base == 10 then n / 10 else n / 16
  }

  function Rem(n: nat, base: Base): (r: nat)
    ensures r < base
  {
    if base == 8 then n % 8 else if base == 10 then n % 10 else n % 16
  }

  function Times(p: nat, base: Base): (r: nat)
    ensures p > 0 ==> r > p
  {
    if base == 8 then 8 * p else if base == 10 then 10 * p else 16 * p
  }

  lemma QuotRem(n: nat, base: Base)
    ensures Quot(n, base) == n / base && Rem(n, base) == n % base && Times(n, base) == n * base
    ensures n == Times(Quot(n, base), base) + Rem(n, base)
  {
  }

  lemma QuotRemUnique(q: nat, r: nat, base: Base)
    requires r < base
    ensures Quot(Times(q, base) + r, base) == q && Rem(Times(q, base) + r, base) == r
  {
  }

  // ------------------------------------------------------------------ numerals

  function DigitChar(d: nat, upper: bool): char
    requires d < 16
  {
    if d < 10 then ('0' as int + d) as char else ((if upper then 'A' else 'a') as int + d - 10) as char
  }

  function CharDigit(c: char): Option<nat>
  {
    if '0' <= c <= '9' then Some(c as int - '0' as int)
    else if 'a' <= c <= 'f' then Some(c as int - 'a' as int + 10)
    else if 'A' <= c <= 'F' then Some(c as int - 'A' as int + 10)
    else None
  }

  lemma DigitReadsBack(d: nat, upper: bool)
    requires d < 16
    ensures CharDigit(DigitChar(d, upper)) == Some(d)
  {
  }

  /** The canonical numeral. */
  function Numeral(n: nat, base: Base, upper: bool): (s: string)
    ensures s != []
  {
    if n < base then [DigitChar(n, upper)]
    else Numeral(Quot(n, base), base, upper) + [DigitChar(Rem(n, base), upper)]
  }

  /** The number a numeral denotes. */
  function Number(s: string, base: Base): Option<nat>
  {
    if s == [] then None
    else if |s| == 1 then Extended(Some(0), s[0], base)
    else Extended(Number(s[..|s| - 1], base), s[|s| - 1], base)
  }

  function Extended(rest: Option<nat>, c: char, base: Base): Option<nat>
  {
    var digit := CharDigit(c);
    if rest.None? || digit.None? || digit.value >= base then None else Some(Times(rest.value, base) + digit.value)
  }

  lemma {:induction false} NumeralDenotes(n: nat, base: Base, upper: bool)
    ensures Number(Numeral(n, base, upper), base) == Some(n)
  {
    if n < base {
      DigitReadsBack(n, upper);
    } else {
      DigitReadsBack(Rem(n, base), upper);
      NumeralDenotes(Quot(n, base), base, upper);
      QuotRem(n, base);
      var s := Numeral(n, base, upper);
      assert s[..|s| - 1] == Numeral(Quot(n, base), base, upper);
    }
  }

  /** No other numeral of the same number is shorter. */
  lemma {:induction false} NumeralIsShortest(s: string, base: Base, upper: bool, n: nat)
    requires Number(s, base) == Some(n)
    ensures |Numeral(n, base, upper)| <= |s|
  {
    if |s| == 1 {
    } else {
      var rest, last := Number(s[..|s| - 1], base).value, CharDigit(s[|s| - 1]).value;
      NumeralIsShortest(s[..|s| - 1], base, upper, rest);
      QuotRemUnique(rest, last, base);
    }
  }

  // ------------------------------------------------------------------ what is printed

  /** The value of a 32-bit argument. */
  function Value(v: UInt32, signed: bool): int
  {
    if signed && v >= 0x8000_0000 then v - TWO_32 else v
  }

  predicate Negative(v: UInt32, signed: bool) { signed && v >= 0x8000_0000 }

  /** Two's complement, as the code strips the sign: right for the least integer too. */
  function Magnitude(v: UInt32, signed: bool): UInt32
  {
    if Negative(v, signed) then (TWO_32 - 1 - v + 1) % TWO_32 else v
  }

  function Repeated(c: char, r: int): (s: string)
    ensures |s| == if r > 0 then r else 0
    ensures forall i :: 0 <= i < |s| ==> s[i] == c
    decreases if r > 0 then r else 0
  {
    if r <= 0 then [] else Repeated(c, r - 1) + [c]
  }

  /** The conversion's flags: 0 for zero padding, a width or -1, and capital letters for %X. */
  datatype Format = Format(signed: bool, base: Base, leadingZero: bool, width: int, upper: bool)

  function Printed(v: UInt32, f: Format): string
  {
    Text(Magnitude(v, f.signed), Negative(v, f.signed), f)
  }

  function Text(n: nat, negative: bool, f: Format): string
  {
    var digits := Numeral(n, f.base, f.upper);
    Lead(negative, f.leadingZero, f.width - |digits| - if negative then 1 else 0) + digits
  }

  /** The sign and the padding, zeros behind it or blanks before it. */
  function Lead(negative: bool, leadingZero: bool, pad: int): string
  {
    var sign := if negative then "-" else "";
    if leadingZero then sign + Repeated('0', pad) else Repeated(' ', pad) + sign
  }

  /** Reading a number: leading blanks, then a sign, then digits, leading zeros allowed. */
  function Read(s: string, base: Base): Option<int>
  {
    if s == [] then None
    else if s[0] == ' ' then Read(s[1..], base)
    else if s[0] == '-' then
      match Number(s[1..], base)
      case None => None
      case Some(n) => Some(0 - n as int)
    else
      match Number(s, base)
      case None => None
      case Some(n) => Some(n)
  }

  /** A numeral with one more digit. */
  lemma NumberOfOneMore(s: string, c: char, base: Base)
    requires s != []
    ensures Number(s + [c], base) == Extended(Number(s, base), c, base)
  {
    assert (s + [c])[..|s|] == s;
  }

  lemma {:induction false} ZerosDoNotCount(pad: int, digits: string, base: Base)
    requires digits != []
    ensures Number(Repeated('0', pad) + digits, base) == Number(digits, base)
    decreases |digits|
  {
    var n := |digits| - 1;
    if pad <= 0 {
      assert Repeated('0', pad) + digits == digits;
    } else if n == 0 {
      ZerosAreZero(pad, base);
      NumberOfOneMore(Repeated('0', pad), digits[0], base);
      assert digits == [digits[0]];
    } else {
      ZerosDoNotCount(pad, digits[..n], base);
      NumberOfOneMore(Repeated('0', pad) + digits[..n], digits[n], base);
      NumberOfOneMore(digits[..n], digits[n], base);
      assert digits == digits[..n] + [digits[n]];
      assert Repeated('0', pad) + digits == Repeated('0', pad) + digits[..n] + [digits[n]];
    }
  }

  lemma OneZero(base: Base)
    ensures Number(['0'], base) == Some(0)
  {
    assert CharDigit('0') == Some(0);
  }

  lemma {:induction false} ZerosAreZero(pad: int, base: Base)
    requires pad > 0
    ensures Number(Repeated('0', pad), base) == Some(0)
  {
    var fewer := Repeated('0', pad - 1);
    assert Repeated('0', pad) == fewer + ['0'];
    if pad == 1 {
      assert fewer + ['0'] == ['0'];
      OneZero(base);
    } else {
      ZerosAreZero(pad - 1, base);
      NumberOfOneMore(fewer, '0', base);
    }
  }

  lemma {:induction false} BlanksDoNotCount(pad: int, rest: string, base: Base)
    ensures Read(Repeated(' ', pad) + rest, base) == Read(rest, base)
    decreases if pad > 0 then pad else 0
  {
    var s := Repeated(' ', pad) + rest;
    if pad <= 0 {
      assert s == rest;
    } else {
      BlanksAgree(pad);
      assert s[1..] == Repeated(' ', pad - 1) + rest;
      BlanksDoNotCount(pad - 1, rest, base);
    }
  }

  lemma BlanksAgree(pad: int)
    requires pad > 0
    ensures Repeated(' ', pad)[1..] == Repeated(' ', pad - 1)
  {
  }

  lemma ZeroPaddedReads(sign: string, pad: int, digits: string, base: Base, n: nat)
    requires (sign == "" || sign == "-") && digits != [] && digits[0] != ' ' && digits[0] != '-'
    requires Number(digits, base) == Some(n)
    ensures Read(sign + Repeated('0', pad) + digits, base) == Some(if sign == "" then n as int else 0 - n as int)
  {
    var number := Repeated('0', pad) + digits;
    Reassociate(sign, Repeated('0', pad), digits);
    ZerosDoNotCount(pad, digits, base);
    assert number[0] != ' ' && number[0] != '-';
    SignReads(sign, number, base, n);
  }

  lemma BlankPaddedReads(sign: string, pad: int, digits: string, base: Base, n: nat)
    requires (sign == "" || sign == "-") && digits != [] && digits[0] != ' ' && digits[0] != '-'
    requires Number(digits, base) == Some(n)
    ensures Read(Repeated(' ', pad) + sign + digits, base) == Some(if sign == "" then n as int else 0 - n as int)
  {
    Reassociate(Repeated(' ', pad), sign, digits);
    BlanksDoNotCount(pad, sign + digits, base);
    SignReads(sign, digits, base, n);
  }

  lemma LeadReads(negative: bool, leadingZero: bool, pad: int, digits: string, base: Base, n: nat)
    requires digits != [] && digits[0] != ' ' && digits[0] != '-' && Number(digits, base) == Some(n)
    ensures Read(Lead(negative, leadingZero, pad) + digits, base) == Some(if negative then 0 - n as int else n as int)
  {
    var sign := if negative then "-" else "";
    if leadingZero {
      ZeroPaddedReads(sign, pad, digits, base, n);
    } else {
      BlankPaddedReads(sign, pad, digits, base, n);
    }
  }

  /** The sign and the magnitude make up the value, the least integer included. */
  lemma MagnitudeIsValue(v: UInt32, signed: bool)
    ensures Value(v, signed) == if Negative(v, signed) then 0 - Magnitude(v, signed) as int else Magnitude(v, signed) as int
  {
  }

  /** What is printed reads back as the argument, for every argument, base, width and padding. */
  lemma PrintedReadsBack(v: UInt32, f: Format)
    ensures Read(Printed(v, f), f.base) == Some(Value(v, f.signed))
  {
    MagnitudeIsValue(v, f.signed);
    TextReadsBack(Magnitude(v, f.signed), Negative(v, f.signed), f);
  }

  lemma TextReadsBack(n: nat, negative: bool, f: Format)
    ensures Read(Text(n, negative, f), f.base) == Some(if negative then 0 - n as int else n as int)
  {
    FirstIsDigit(n, f.base, f.upper);
    NumeralDenotes(n, f.base, f.upper);
    var digits := Numeral(n, f.base, f.upper);
    LeadReads(negative, f.leadingZero, f.width - |digits| - if negative then 1 else 0, digits, f.base, n);
  }

  lemma SignReads(sign: string, number: string, base: Base, n: nat)
    requires (sign == "" || sign == "-") && number != [] && number[0] != ' ' && number[0] != '-'
    requires Number(number, base) == Some(n)
    ensures Read(sign + number, base) == Some(if sign == "" then n as int else 0 - n as int)
  {
    if sign == "-" {
      assert (sign + number)[1..] == number;
    } else {
      assert sign + number == number;
    }
  }

  lemma {:induction false} FirstIsDigit(n: nat, base: Base, upper: bool)
    ensures CharDigit(Numeral(n, base, upper)[0]).Some?
    ensures n > 0 ==> Numeral(n, base, upper)[0] != '0'
  {
    if n < base {
      DigitReadsBack(n, upper);
    } else {
      FirstIsDigit(Quot(n, base), base, upper);
    }
  }

  /** The printed text is as wide as asked for, or as the number and its sign need. */
  lemma PrintedWidth(v: UInt32, f: Format)
    ensures var need := |Numeral(Magnitude(v, f.signed), f.base, f.upper)| + if Negative(v, f.signed) then 1 else 0;
            |Printed(v, f)| == if f.width > need then f.width else need
  {
  }

  /** A numeral is made of digits, those above 9 in the case asked for. */
  lemma {:induction false} DigitsOnly(n: nat, base: Base, upper: bool)
    ensures forall c :: c in Numeral(n, base, upper) ==> '0' <= c <= '9' || if upper then 'A' <= c <= 'F' else 'a' <= c <= 'f'
  {
    if n < base {
    } else {
      DigitsOnly(Quot(n, base), base, upper);
    }
  }

  /** Blanks before the number with its sign, as it would be without a width. */
  predicate BlankFilled(text: string, sign: string, digits: string)
  {
    var pad := |text| - |sign| - |digits|;
    pad >= 0 && text[pad..] == sign + digits && forall i :: 0 <= i < pad ==> text[i] == ' '
  }

  /** Zeros between the sign and the digits. */
  predicate ZeroFilled(text: string, sign: string, digits: string)
  {
    var pad := |text| - |sign| - |digits|;
    && pad >= 0 && text[..|sign|] == sign && text[|sign| + pad..] == digits
    && forall i :: |sign| <= i < |sign| + pad ==> text[i] == '0'
  }

  lemma LeadFills(sign: string, leadingZero: bool, pad: int, digits: string, text: string)
    requires text == (if leadingZero then sign + Repeated('0', pad) else Repeated(' ', pad) + sign) + digits
    ensures if leadingZero then ZeroFilled(text, sign, digits) else BlankFilled(text, sign, digits)
  {
    if leadingZero {
      Reassociate(sign, Repeated('0', pad), digits);
    } else {
      Reassociate(Repeated(' ', pad), sign, digits);
    }
  }

  /** What fills a width: zeros behind the sign if the format asks for them, and blanks before the sign otherwise. */
  lemma FilledAsAsked(v: UInt32, f: Format)
    ensures var digits := Numeral(Magnitude(v, f.signed), f.base, f.upper);
            var sign := if Value(v, f.signed) < 0 then "-" else "";
            if f.leadingZero then ZeroFilled(Printed(v, f), sign, digits) else BlankFilled(Printed(v, f), sign, digits)
  {
    TextFills(Magnitude(v, f.signed), Negative(v, f.signed), f, Printed(v, f));
  }

  lemma TextFills(n: nat, negative: bool, f: Format, text: string)
    requires text == Text(n, negative, f)
    ensures var sign, digits := if negative then "-" else "", Numeral(n, f.base, f.upper);
            if f.leadingZero then ZeroFilled(text, sign, digits) else BlankFilled(text, sign, digits)
  {
    var sign, digits := if negative then "-" else "", Numeral(n, f.base, f.upper);
    LeadFills(sign, f.leadingZero, f.width - |digits| - |sign|, digits, text);
  }

  // ------------------------------------------------------------------ counting and emitting digits

  function Power(base: Base, k: nat): (p: nat)
    ensures p > 0
  {
    if k == 0 then 1 else Times(Power(base, k - 1), base)
  }

  /** Exactly so many digits, the least significant ones of a number. */
  function Padded(n: nat, k: nat, base: Base, upper: bool): (s: string)
    ensures |s| == k
  {
    if k == 0 then [] else Padded(Quot(n, base), k - 1, base, upper) + [DigitChar(Rem(n, base), upper)]
  }

  lemma {:induction false} NumeralIsPadded(n: nat, base: Base, upper: bool)
    ensures Numeral(n, base, upper) == Padded(n, |Numeral(n, base, upper)|, base, upper)
    ensures n < Power(base, |Numeral(n, base, upper)|)
  {
    QuotRem(n, base);
    if n < base {
      assert Padded(n, 1, base, upper) == Padded(0, 0, base, upper) + [DigitChar(n, upper)];
      assert Power(base, 1) == Times(Power(base, 0), base);
    } else {
      NumeralIsPadded(Quot(n, base), base, upper);
    }
  }

  lemma {:induction false} MultipleOfTimes(digit: nat, place: nat, base: Base)
    ensures Multiple(digit, Times(place, base)) == Times(Multiple(digit, place), base)
  {
    if digit == 0 {
    } else {
      MultipleOfTimes(digit - 1, place, base);
    }
  }

  lemma PaddedLast(n: nat, k: nat, base: Base, upper: bool, q: nat, r: nat)
    requires k > 0 && r < base && n == Times(q, base) + r
    ensures Padded(n, k, base, upper) == Padded(q, k - 1, base, upper) + [DigitChar(r, upper)]
  {
    QuotRemUnique(q, r, base);
  }

  /** The top digit and the rest. */
  lemma {:induction false} PaddedFromTop(digit: nat, rest: nat, k: nat, base: Base, upper: bool)
    requires k > 0 && digit < base && rest < Power(base, k - 1)
    ensures Padded(Multiple(digit, Power(base, k - 1)) + rest, k, base, upper)
         == [DigitChar(digit, upper)] + Padded(rest, k - 1, base, upper)
  {
    if k == 1 {
      MultipleIsProduct(digit, 1);
      PaddedLast(digit, 1, base, upper, 0, digit);
    } else {
      var below, q, r := Power(base, k - 2), Quot(rest, base), Rem(rest, base);
      QuotRem(rest, base);
      MultipleOfTimes(digit, below, base);
      PaddedFromTop(digit, q, k - 1, base, upper);
      PaddedLast(Multiple(digit, Power(base, k - 1)) + rest, k, base, upper, Multiple(digit, below) + q, r);
      PaddedLast(rest, k - 1, base, upper, q, r);
    }
  }

  // ------------------------------------------------------------------ the code

  class Log {
    // The characters sent to the UART.
    var sent: string

    method TxChar(c: char)
      modifies this
      ensures sent == old(sent) + [c]
    {
      sent := sent + [c];
    }

    /** alt_log_repchar. */
    method RepChar(c: char, count: int)
      modifies this
      ensures sent == old(sent) + Repeated(c, count)
    {
      var r := count;
      while r > 0
        invariant sent + Repeated(c, r) == old(sent) + Repeated(c, count)
        decreases r
      {
        RepeatedFromFront(c, r);
        assert sent + Repeated(c, r) == sent + [c] + Repeated(c, r - 1);
        TxChar(c);
        r := r - 1;
      }
    }

    static lemma {:induction false} RepeatedFromFront(c: char, r: int)
      requires r > 0
      ensures Repeated(c, r) == [c] + Repeated(c, r - 1)
    {
      if r == 1 {
      } else {
        RepeatedFromFront(c, r - 1);
      }
    }

    /** Count the digits and find the largest place value, which stays within 32 bits. */
    method CountDigits(v: UInt32, base: Base, ghost upper: bool) returns (digitCount: nat, p: UInt32)
      ensures digitCount == |Numeral(v, base, upper)| && p == Power(base, digitCount - 1)
    {
      p, digitCount := 1, 1;
      ghost var shrunk: nat := v;
      var vShrink := Quot(v, base);
      MultipleIsProduct(v, 1);
      while vShrink > 0
        invariant vShrink == Quot(shrunk, base) && digitCount > 0 && p == Power(base, digitCount - 1)
        invariant Multiple(shrunk, p) <= v
        invariant |Numeral(v, base, upper)| == digitCount - 1 + |Numeral(shrunk, base, upper)|
        decreases vShrink
      {
        PlaceFits(v, shrunk, p, base);
        digitCount := digitCount + 1;
        p := Times(p, base) % TWO_32;
        shrunk := vShrink;
        vShrink := Quot(vShrink, base);
      }
    }

    /** One more digit fits: the next place value is at most the number. */
    static lemma PlaceFits(v: nat, shrunk: nat, p: nat, base: Base)
      requires Multiple(shrunk, p) <= v && Quot(shrunk, base) > 0
      ensures Multiple(Quot(shrunk, base), Times(p, base)) <= v && Times(p, base) <= v
    {
      var q := Quot(shrunk, base);
      QuotRem(shrunk, base);
      QuotRem(q, base);
      QuotRem(p, base);
      MultipleIsProduct(shrunk, p);
      MultipleIsProduct(q, Times(p, base));
      ProductBound(q, p, base, shrunk);
    }

    static lemma ProductBound(q: nat, p: nat, base: nat, shrunk: nat)
      requires 1 <= q && q * base <= shrunk
      ensures q * (p * base) <= shrunk * p && p * base <= shrunk * p
    {
      assert q * (p * base) == q * base * p;
      assert (shrunk - q * base) * p >= 0;
      assert (q - 1) * (p * base) >= 0;
    }

    /** The top digit and what is left, by division by the place value. */
    static method TopDigit(v: UInt32, place: UInt32, base: Base) returns (digit: nat, rest: UInt32)
      requires place > 0 && v < Times(place, base)
      ensures v == Multiple(digit, place) + rest && digit < base && rest < place
    {
      digit, rest := v / place, v % place;
      QuotRem(place, base);
      DigitIsSmall(v, place, base, digit, rest);
      MultipleIsProduct(digit, place);
    }

    static lemma DigitIsSmall(v: nat, place: nat, base: nat, digit: nat, rest: nat)
      requires place > 0 && v < place * base && digit == v / place && rest == v % place
      ensures v == digit * place + rest && digit < base
    {
      assert digit >= base ==> (digit - base) * place >= 0;
    }

    /** The digits from the top down: so many as the place value stands for. */
    method EmitDigits(number: UInt32, ghost digitCount: nat, place: UInt32, base: Base, upper: bool)
      requires digitCount > 0 && place == Power(base, digitCount - 1) && number < Power(base, digitCount)
      modifies this
      ensures sent == old(sent) + Padded(number, digitCount, base, upper)
    {
      var v: UInt32, p: UInt32 := number, place;
      ghost var k: nat := digitCount;
      while p > 0
        invariant if k == 0 then p == 0 else p == Power(base, k - 1) && v < Power(base, k)
        invariant sent + Padded(v, k, base, upper) == old(sent) + Padded(number, digitCount, base, upper)
        decreases k
      {
        ghost var before := sent;
        var d, rest := TopDigit(v, p, base);
        PaddedFromTop(d, rest, k, base, upper);
        TxChar(DigitChar(d, upper));
        assert before + Padded(v, k, base, upper) == sent + Padded(rest, k - 1, base, upper);
        NextPlace(k, base);
        v := rest;
        p := Quot(p, base);
        k := k - 1;
      }
    }

    static lemma NextPlace(k: nat, base: Base)
      requires k > 0
      ensures Quot(Power(base, k - 1), base) == if k == 1 then 0 else Power(base, k - 2)
    {
      if k > 1 {
        QuotRemUnique(Power(base, k - 2), 0, base);
      }
    }

    /** The integer conversions of alt_log_private_printf. */
    method PrintInteger(arg: UInt32, f: Format)
      modifies this
      ensures sent == old(sent) + Printed(arg, f)
    {
      var v, sign := StripSign(arg, f.signed);
      var digitCount, p := CountDigits(v, f.base, f.upper);
      NumeralIsPadded(v, f.base, f.upper);
      ghost var before := sent;
      PrintLead(sign, f.leadingZero, f.width - digitCount);
      EmitDigits(v, digitCount, p, f.base, f.upper);
      Reassociate(before, Lead(sign, f.leadingZero, f.width - digitCount - if sign then 1 else 0),
                  Numeral(v, f.base, f.upper));
    }

    /** The magnitude by two's complement, and the sign. */
    static method StripSign(arg: UInt32, signed: bool) returns (v: UInt32, sign: bool)
      ensures v == Magnitude(arg, signed) && sign == Negative(arg, signed)
    {
      v, sign := arg, false;
      if signed && v >= 0x8000_0000 {
        v := (TWO_32 - 1 - v + 1) % TWO_32;
        sign := true;
      }
    }

    /** The leading characters and the sign; room is what the width leaves beside the digits. */
    method PrintLead(sign: bool, leadingZero: bool, room: int)
      modifies this
      ensures sent == old(sent) + Lead(sign, leadingZero, room - if sign then 1 else 0)
    {
      var before := room;
      if leadingZero {
        if sign {
          TxChar('-');
          before := before - 1;
        }
        RepChar('0', before);
      } else {
        if sign {
          before := before - 1;
        }
        RepChar(' ', before);
        if sign {
          TxChar('-');
        }
      }
    }
  }
}
