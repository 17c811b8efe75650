/**
 * The JavaScript conversions the cache code leans on: `String(n)` and
 * `Number(s)` for integer keys, `ToInt32` behind `|` and `<<`, and the UTF-16
 * code units that `length` and `charCodeAt` see.
 */
module JsValues {
  import opened Wrappers

  /** A JavaScript number as the model needs it: an integer, or NaN. */
  datatype JsNumber = Num(value: int) | NaN

  /** A `string | number` parameter used as an id. */
  datatype Index = NumIndex(n: int) | StrIndex(s: string)

  const TWO_POW_31: int := 0x8000_0000
  const TWO_POW_32: int := 0x1_0000_0000

  function DigitChar(d: nat): char
    requires d < 10
  {
    ('0' as int + d) as char
  }

  predicate IsDigit(c: char) {
    '0' <= c <= '9'
  }

  predicate AllDigits(s: string) {
    forall i :: 0 <= i < |s| ==> IsDigit(s[i])
  }

  /** The decimal digits of `n`, most significant first, without leading zeros. */
  function NatString(n: nat): (s: string)
    ensures |s| > 0 && AllDigits(s)
  {
    if n < 10 then [DigitChar(n)] else NatString(n / 10) + [DigitChar(n % 10)]
  }

  /** `String(n)` for an integer `n`. */
  function DecimalString(n: int): (s: string)
    ensures |s| > 0
  {
    if n < 0 then "-" + NatString(-n) else NatString(n)
  }

  /** The number a string of decimal digits denotes. */
  function DigitsValue(s: string): nat
    requires AllDigits(s)
  {
    if s == [] then 0 else DigitsValue(s[..|s| - 1]) * 10 + (s[|s| - 1] as int - '0' as int)
  }

  /**
   * `Number(s)` on the strings this model meets: the empty string is 0, an
   * optional sign followed by decimal digits is that integer, anything else NaN.
   */
  function ParseNumber(s: string): (r: JsNumber)
    ensures AllDigits(s) ==> r == Num(DigitsValue(s))
    ensures |s| > 1 && s[0] == '-' && AllDigits(s[1..]) ==> r == Num(0 - DigitsValue(s[1..]))
    ensures |s| > 1 && s[0] == '+' && AllDigits(s[1..]) ==> r == Num(DigitsValue(s[1..]))
    ensures r.NaN? <==> !AllDigits(s) && !(|s| > 1 && (s[0] == '-' || s[0] == '+') && AllDigits(s[1..]))
  {
    if s == "" then Num(0)
    else if s[0] == '-' && |s| > 1 && AllDigits(s[1..]) then Num(0 - DigitsValue(s[1..]))
    else if s[0] == '+' && |s| > 1 && AllDigits(s[1..]) then Num(DigitsValue(s[1..]))
    else if AllDigits(s) then Num(DigitsValue(s))
    else NaN
  }

  lemma {:induction false} NatStringValue(n: nat)
    ensures DigitsValue(NatString(n)) == n
  {
    var s := NatString(n);
    if n >= 10 {
      NatStringValue(n / 10);
      assert s[..|s| - 1] == NatString(n / 10);
    }
  }

  /** `Number(String(n)) == n`: the decimal key of an integer id converts back to it. */
  lemma {:induction false} NumberOfDecimalString(n: int)
    ensures ParseNumber(DecimalString(n)) == Num(n)
  {
    if n < 0 {
      var s := DecimalString(n);
      assert s[1..] == NatString(-n);
      NatStringValue(-n);
    } else {
      NatStringValue(n);
    }
  }

  /** Every integer's decimal string converts back to it. */
  lemma NumbersOfDecimalStrings()
    ensures forall k: int :: ParseNumber(DecimalString(k)) == Num(k)
  {
    forall k: int {
      NumberOfDecimalString(k);
    }
  }

  /** Distinct integer ids have distinct decimal keys. */
  lemma DecimalStringInjective(a: int, b: int)
    requires DecimalString(a) == DecimalString(b)
    ensures a == b
  {
    NumberOfDecimalString(a);
    NumberOfDecimalString(b);
  }

  /** The map key of an id: `typeof id === 'number' ? String(id) : id`. */
  function Key(id: Index): string {
    match id
    case NumIndex(n) => DecimalString(n)
    case StrIndex(s) => s
  }

  /** Two numeric ids address the same map entry exactly when they are equal. */
  lemma KeysOfNumbers(a: int, b: int)
    ensures Key(NumIndex(a)) == Key(NumIndex(b)) <==> a == b
  {
    if Key(NumIndex(a)) == Key(NumIndex(b)) {
      DecimalStringInjective(a, b);
    }
  }

  /** ECMAScript ToInt32 on an integer: the 32-bit two's-complement wrap. */
  function ToInt32(x: int): (r: int)
    ensures -TWO_POW_31 <= r < TWO_POW_31
    ensures (r - x) % TWO_POW_32 == 0
  {
    var m := x % TWO_POW_32;
    if m < TWO_POW_31 then m else m - TWO_POW_32
  }

  /** `x << 5`: ToInt32 of the operand, shifted within 32 bits. */
  function ShiftLeft5(x: int): (r: int)
    ensures -TWO_POW_31 <= r < TWO_POW_31
  {
    ToInt32(ToInt32(x) * 32)
  }

  /** The UTF-16 code units of one character: one, or a surrogate pair. */
  function CodeUnits(c: char): (units: seq<int>)
    ensures 1 <= |units| <= 2
    ensures forall i :: 0 <= i < |units| ==> 0 <= units[i] < 0x1_0000
  {
    var v := c as int;
    if v < 0x1_0000 then [v] else [0xD800 + (v - 0x1_0000) / 0x400, 0xDC00 + (v - 0x1_0000) % 0x400]
  }

  /** The code units `s.length` counts and `s.charCodeAt(i)` returns. */
  function Utf16(s: string): (units: seq<int>)
    ensures |units| >= |s|
    ensures forall i :: 0 <= i < |units| ==> 0 <= units[i] < 0x1_0000
  {
    if s == [] then [] else Utf16(s[..|s| - 1]) + CodeUnits(s[|s| - 1])
  }
}
