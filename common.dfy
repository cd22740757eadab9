/** Small shared vocabulary: optional values, results that carry the Java
    exception a step would throw, and the integer and text conversions that
    Java performs implicitly. */
module Common {

  datatype Option<+T> = None | Some(value: T)

  datatype Result<+T, +E> = Ok(value: T) | Err(error: E)

  const TWO_32: int := 0x1_0000_0000
  const INT_MIN: int := -0x8000_0000
  const INT_MAX: int := 0x7fff_ffff

  /** Java's narrowing of a long (or wider) value to `int`: the low 32 bits,
      read as a two's-complement number. */
  function ToInt32(n: int): (r: int)
    ensures INT_MIN <= r <= INT_MAX
    ensures (r - n) % TWO_32 == 0
    ensures INT_MIN <= n <= INT_MAX ==> r == n
  {
    var low := n % TWO_32;
    if low <= INT_MAX then low else low - TWO_32
  }

  function DigitChar(d: int): (c: char)
    requires 0 <= d < 10
    ensures '0' <= c <= '9'
  {
    (('0' as int) + d) as char
  }

  /** The number a string of decimal digits denotes, most significant digit
      first. */
  function DecimalValue(s: string): nat
    requires forall k :: 0 <= k < |s| ==> '0' <= s[k] <= '9'
  {
    if s == [] then 0 else DecimalValue(s[..|s| - 1]) * 10 + (s[|s| - 1] as int - '0' as int)
  }

  /** Decimal text of a natural number: it denotes the number and has no
      leading zero. */
  function NatToDecimal(n: nat): (s: string)
    ensures |s| >= 1
    ensures forall k :: 0 <= k < |s| ==> '0' <= s[k] <= '9'
    ensures DecimalValue(s) == n
    ensures s[0] == '0' ==> s == "0"
    decreases n
  {
    if n < 10 then [DigitChar(n)]
    else
      var prefix := NatToDecimal(n / 10);
      assert (prefix + [DigitChar(n % 10)])[..|prefix|] == prefix;
      prefix + [DigitChar(n % 10)]
  }

  /** `String.valueOf(int)`: a minus sign exactly for negative numbers, then
      the decimal digits of the magnitude, without a leading zero. */
  function IntToDecimal(n: int): (s: string)
    ensures |s| >= 1
    ensures (s[0] == '-') <==> n < 0
    ensures var digits := if n < 0 then s[1..] else s;
      && |digits| >= 1
      && (forall k :: 0 <= k < |digits| ==> '0' <= digits[k] <= '9')
      && DecimalValue(digits) == (if n < 0 then -n else n)
      && (digits[0] == '0' ==> digits == "0")
  {
    if n < 0 then
      var digits := NatToDecimal(-n);
      assert ("-" + digits)[1..] == digits;
      "-" + digits
    else NatToDecimal(n)
  }

  predicate IsAsciiLower(c: char) { 'a' <= c <= 'z' }
  predicate IsAsciiUpper(c: char) { 'A' <= c <= 'Z' }
  predicate IsAsciiLetter(c: char) { IsAsciiLower(c) || IsAsciiUpper(c) }
  predicate IsAsciiDigit(c: char) { '0' <= c <= '9' }

  function UpperChar(c: char): (u: char)
    ensures IsAsciiLower(c) ==> IsAsciiUpper(u) && u as int == c as int - 32
    ensures !IsAsciiLower(c) ==> u == c
  {
    if IsAsciiLower(c) then (c as int - 32) as char else c
  }

  function LowerChar(c: char): (l: char)
    ensures IsAsciiUpper(c) ==> IsAsciiLower(l) && l as int == c as int + 32
    ensures !IsAsciiUpper(c) ==> l == c
  {
    if IsAsciiUpper(c) then (c as int + 32) as char else c
  }

  /** `String.toUpperCase()` restricted to ASCII letters. */
  function ToUpper(s: string): (u: string)
    ensures |u| == |s|
    ensures forall k :: 0 <= k < |s| ==> u[k] == UpperChar(s[k])
  {
    if s == [] then [] else [UpperChar(s[0])] + ToUpper(s[1..])
  }

  /** `String.toLowerCase()` restricted to ASCII letters. */
  function ToLower(s: string): (l: string)
    ensures |l| == |s|
    ensures forall k :: 0 <= k < |s| ==> l[k] == LowerChar(s[k])
  {
    if s == [] then [] else [LowerChar(s[0])] + ToLower(s[1..])
  }

  /** Upper-casing is idempotent, so matching an upper-cased name is
      insensitive to the case the caller used. */
  lemma ToUpperIdempotent(s: string)
    ensures ToUpper(ToUpper(s)) == ToUpper(s)
  {
    var u := ToUpper(s);
    forall k | 0 <= k < |u| ensures ToUpper(u)[k] == u[k] {
      assert u[k] == UpperChar(s[k]);
    }
  }

  /** Upper-casing the lower-cased form of an upper-case name gives the name back. */
  lemma UpperOfLower(s: string)
    requires forall k :: 0 <= k < |s| ==> !IsAsciiLower(s[k])
    ensures ToUpper(ToLower(s)) == s
  {
    var u := ToUpper(ToLower(s));
    assert |u| == |s|;
    forall k | 0 <= k < |s| ensures u[k] == s[k] {
      UpperLowerChar(s[k]);
    }
  }

  lemma UpperLowerChar(c: char)
    requires !IsAsciiLower(c)
    ensures UpperChar(LowerChar(c)) == c
  {
  }
}
