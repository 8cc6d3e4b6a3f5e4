/** The parts of the JavaScript language and runtime that the day counter and
    the form validators rely on: optional values, completions that may throw,
    truthiness, parseInt, Number-to-binary conversion and indexOf. */
module Js {

  /** An optional value: None stands for undefined or null (or NaN, where a
      number is expected). */
  datatype Option<+T> = None | Some(value: T)

  /** The outcome of an async call: it returns a value or an exception propagates. */
  datatype Completion<+T> = Return(value: T) | Throw

  /** ECMAScript ToBoolean on an optional string: undefined, null and "" are falsy. */
  predicate Truthy(o: Option<string>) {
    o.Some? && o.value != ""
  }

  /** A value as JSON.parse gives it. A number is given by the text that
      String() makes of it (0 and -0 are both "0"), and so is an array or an
      object ("a,b" for ["a","b"], "[object Object]" for an object). */
  datatype JsonValue =
    | JNull
    | JBool(b: bool)
    | JNum(text: string)
    | JStr(s: string)
    | JComposite(text: string)

  /** ECMAScript ToBoolean on a JSON value, with None for undefined. */
  predicate TruthyValue(v: Option<JsonValue>) {
    match v
    case None => false
    case Some(JNull) => false
    case Some(JBool(b)) => b
    case Some(JNum(t)) => t != "0"
    case Some(JStr(s)) => s != ""
    case Some(JComposite(_)) => true
  }

  /** String(v) of a JSON value, with None for undefined. */
  function ToJsString(v: Option<JsonValue>): string {
    match v
    case None => "undefined"
    case Some(JNull) => "null"
    case Some(JBool(b)) => if b then "true" else "false"
    case Some(JNum(t)) => t
    case Some(JStr(s)) => s
    case Some(JComposite(t)) => t
  }

  /** An optional string as the JSON value it is. */
  function AsJson(o: Option<string>): Option<JsonValue> {
    if o.Some? then Some(JStr(o.value)) else None
  }

  /** The falsy JSON values are exactly undefined, null, false, 0 and "";
      every array and object is truthy. */
  lemma FalsyValues(v: Option<JsonValue>)
    ensures !TruthyValue(v) <==> v in {None, Some(JNull), Some(JBool(false)), Some(JNum("0")), Some(JStr(""))}
  {
  }

  /** A string as a JSON value has the truthiness and the String() text of the string. */
  lemma AsJsonAgrees(o: Option<string>)
    ensures TruthyValue(AsJson(o)) == Truthy(o)
    ensures o.Some? ==> ToJsString(AsJson(o)) == o.value
  {
  }

  /** The WhiteSpace and LineTerminator code points that parseInt skips:
      TAB, LF, VT, FF, CR and SPACE, and from U+00A0 upwards the ones
      IsWideSpace lists. */
  predicate IsJsSpace(c: char) {
    var k := c as int;
    if k <= 0x20 then k == 0x20 || 0x09 <= k <= 0x0D
    else k >= 0xA0 && IsWideSpace(k)
  }

  predicate IsWideSpace(k: int) {
    || k == 0xA0 || k == 0x1680 || (0x2000 <= k <= 0x200A) || k == 0x2028
    || k == 0x2029 || k == 0x202F || k == 0x205F || k == 0x3000 || k == 0xFEFF
  }

  /** Digits and Latin letters are not white space. */
  lemma DigitIsNoSpace(c: char)
    requires DigitOf(c) < 36
    ensures !IsJsSpace(c)
  {
  }

  /** The value of c as a base-36 digit ('0'-'9', then 'a'-'z' in either case),
      or 36 when c is no digit at all. */
  function DigitOf(c: char): (v: nat)
    ensures v <= 36
    ensures v < 10 <==> '0' <= c <= '9'
  {
    if '0' <= c <= '9' then c as int - '0' as int
    else if 'a' <= c <= 'z' then c as int - 'a' as int + 10
    else if 'A' <= c <= 'Z' then c as int - 'A' as int + 10
    else 36
  }

  /** Every character of s is a digit of the given radix. */
  predicate AllDigits(s: string, radix: nat) {
    forall i :: 0 <= i < |s| ==> DigitOf(s[i]) < radix
  }

  /** The number that the digits of s denote in the given radix, most
      significant digit first. */
  function ValueOf(s: string, radix: nat): nat
    requires AllDigits(s, radix)
  {
    if s == [] then 0 else ValueOf(s[..|s| - 1], radix) * radix + DigitOf(s[|s| - 1])
  }

  /** The length of the longest prefix of s made of digits of the given radix. */
  function DigitRun(s: string, radix: nat): (n: nat)
    ensures n <= |s| && AllDigits(s[..n], radix)
    ensures n < |s| ==> DigitOf(s[n]) >= radix
  {
    if s == [] || DigitOf(s[0]) >= radix then 0
    else
      var k := DigitRun(s[1..], radix);
      assert s[..1 + k] == [s[0]] + s[1..][..k];
      1 + k
  }

  /** s without its leading white space. */
  function TrimStart(s: string): (t: string)
    ensures |t| <= |s|
    ensures t == [] || !IsJsSpace(t[0])
  {
    if s != [] && IsJsSpace(s[0]) then TrimStart(s[1..]) else s
  }

  /** parseInt(s, radix) (ECMAScript 2024, section 19.2.5) applied to the
      string form s of its argument; radix 0 stands for an omitted radix, and
      None for the NaN result. A radix outside 2..36 gives NaN; otherwise
      leading white space is skipped and the rest read as a signed number. */
  function ParseInt(s: string, radix: int): Option<int>
  {
    if radix != 0 && (radix < 2 || radix > 36) then None
    else ParseSigned(TrimStart(s), radix)
  }

  /** One leading sign, then the magnitude; a minus negates it. */
  function ParseSigned(t: string, radix: int): Option<int>
    requires radix == 0 || 2 <= radix <= 36
  {
    if |t| > 0 && t[0] == '-' then Negate(ParseMagnitude(t[1..], radix))
    else if |t| > 0 && t[0] == '+' then ParseMagnitude(t[1..], radix)
    else ParseMagnitude(t, radix)
  }

  function Negate(v: Option<int>): Option<int> {
    if v.Some? then Some(-v.value) else None
  }

  /** A "0x" or "0X" prefix. */
  predicate HasHexPrefix(u: string) {
    |u| >= 2 && u[0] == '0' && (u[1] == 'x' || u[1] == 'X')
  }

  /** The magnitude: a "0x" prefix switches an omitted radix or radix 16 to
      hexadecimal; an omitted radix otherwise means 10. */
  function ParseMagnitude(u: string, radix: int): Option<int>
    requires radix == 0 || 2 <= radix <= 36
  {
    if (radix == 0 || radix == 16) && HasHexPrefix(u) then ReadDigits(u[2..], 16)
    else ReadDigits(u, if radix == 0 then 10 else radix)
  }

  /** The longest run of digits at the start of w, read in radix r; NaN
      when there is none. The rest of w is ignored. */
  function ReadDigits(w: string, r: nat): Option<int> {
    var n := DigitRun(w, r);
    if n == 0 then None else Some(ValueOf(w[..n], r))
  }

  /** parseInt(s, 10), or parseInt(s) without a "0x" prefix, on a text that
      starts with a decimal digit reads its leading run of decimal digits. */
  lemma ParseDecimalPrefix(s: string, radix: int)
    requires radix == 0 || radix == 10
    requires |s| > 0 && '0' <= s[0] <= '9'
    requires radix == 0 && |s| >= 2 ==> !(s[0] == '0' && (s[1] == 'x' || s[1] == 'X'))
    ensures DigitRun(s, 10) >= 1
    ensures ParseInt(s, radix) == Some(ValueOf(s[..DigitRun(s, 10)], 10))
  {
    DigitIsNoSpace(s[0]);
    assert TrimStart(s) == s;
    assert ParseSigned(s, radix) == ParseMagnitude(s, radix);
    assert ParseMagnitude(s, radix) == ReadDigits(s, 10);
  }

  /** A text made only of digits is one run. */
  lemma {:induction false} DigitRunAll(s: string, radix: nat)
    requires AllDigits(s, radix)
    ensures DigitRun(s, radix) == |s|
    decreases |s|
  {
    if s != [] {
      assert AllDigits(s[1..], radix);
      DigitRunAll(s[1..], radix);
    }
  }

  /** A run of digits followed by a non-digit (or nothing) is read up to the
      non-digit. */
  lemma {:induction false} DigitRunConcat(a: string, b: string, radix: nat)
    requires AllDigits(a, radix) && (b == [] || DigitOf(b[0]) >= radix)
    ensures DigitRun(a + b, radix) == |a| && (a + b)[..|a|] == a
    decreases |a|
  {
    if a == [] {
      assert a + b == b;
    } else {
      assert (a + b)[1..] == a[1..] + b;
      assert AllDigits(a[1..], radix);
      DigitRunConcat(a[1..], b, radix);
    }
  }

  /** parseInt(a + b, 10) of a digit run a followed by a text b that starts
      with no digit reads a and ignores b. */
  lemma ParseLeadingDigits(a: string, b: string)
    requires |a| > 0 && AllDigits(a, 10) && (b == [] || DigitOf(b[0]) >= 10)
    ensures ParseInt(a + b, 10) == Some(ValueOf(a, 10))
  {
    DigitRunConcat(a, b, 10);
    assert (a + b)[0] == a[0];
    ParseDecimalPrefix(a + b, 10);
  }

  /** "12" is a run of two decimal digits worth 12. */
  lemma DigitsTwelve()
    ensures AllDigits("12", 10) && DigitRun("12", 10) == 2 && ValueOf("12", 10) == 12
  {
    assert AllDigits("12", 10);
    DigitRunAll("12", 10);
    ValueOfSnoc([], '1', 10);
    ValueOfSnoc("1", '2', 10);
    assert [] + ['1'] == "1" && "1" + ['2'] == "12";
  }

  /** Appending a digit multiplies by the radix and adds the digit. */
  lemma ValueOfSnoc(s: string, c: char, radix: nat)
    requires AllDigits(s, radix) && DigitOf(c) < radix
    ensures AllDigits(s + [c], radix)
    ensures ValueOf(s + [c], radix) == ValueOf(s, radix) * radix + DigitOf(c)
  {
    assert (s + [c])[..|s|] == s;
  }

  /** A non-zero multiple of b is at least b in magnitude. */
  lemma MultipleBounds(b: int, k: int)
    requires b > 0
    ensures k >= 1 ==> b * k >= b
    ensures k <= -1 ==> b * k <= -b
  {
    if k >= 1 {
      assert b * k == b + b * (k - 1);
    } else if k <= -1 {
      assert b * k == -b + b * (k + 1);
    }
  }

  /** Quotient and remainder are unique: a = b * q + r with 0 <= r < b
      makes r the remainder a % b. */
  lemma RemainderUnique(a: int, b: int, q: int, r: int)
    requires b > 0 && a == b * q + r && 0 <= r < b
    ensures a % b == r
  {
    var q0, r0 := a / b, a % b;
    assert b * (q - q0) == r0 - r;
    MultipleBounds(b, q - q0);
  }

  /** ECMAScript's % on integers: a - r is a multiple of b, r is smaller than
      b in magnitude, and r takes the sign of the dividend. */
  function JsRemainder(a: int, b: int): (r: int)
    requires b > 0
    ensures (a - r) % b == 0
    ensures -b < r < b
    ensures a > 0 ==> r >= 0
    ensures a < 0 ==> r <= 0
  {
    if a >= 0 then
      RemainderUnique(a - a % b, b, a / b, 0);
      a % b
    else
      RemainderUnique(a + (-a) % b, b, -((-a) / b), 0);
      -((-a) % b)
  }

  /** For a non-negative dividend ECMAScript's % is Dafny's Euclidean %. */
  lemma JsRemainderOfNatural(a: int, b: int)
    requires b > 0 && a >= 0
    ensures JsRemainder(a, b) == a % b
  {
    var r := JsRemainder(a, b);
    RemainderUnique(a - r, b, (a - r) / b, 0);
    RemainderUnique(a, b, (a - r) / b, r);
  }

  /** Negating the dividend negates the remainder: the quotient is truncated
      towards zero. */
  lemma JsRemainderOfNegated(a: int, b: int)
    requires b > 0
    ensures JsRemainder(-a, b) == -JsRemainder(a, b)
  {
  }

  /** The binary digits of n without leading zeros ("0" for zero). */
  function BinaryDigits(n: nat): (s: string)
    ensures |s| >= 1
    ensures forall i :: 0 <= i < |s| ==> s[i] == '0' || s[i] == '1'
    ensures (s[0] == '1') <==> n > 0
  {
    if n < 2 then (if n == 0 then "0" else "1")
    else BinaryDigits(n / 2) + (if n % 2 == 0 then "0" else "1")
  }

  /** 2 to the power k. */
  function Pow2(k: nat): (p: nat)
    ensures p >= 1
  {
    if k == 0 then 1 else 2 * Pow2(k - 1)
  }

  /** The binary digits of n read back as n in base 2. */
  lemma {:induction false} BinaryDigitsValue(n: nat)
    ensures AllDigits(BinaryDigits(n), 2) && ValueOf(BinaryDigits(n), 2) == n
    decreases n
  {
    if n >= 2 {
      BinaryDigitsValue(n / 2);
      var c := if n % 2 == 0 then '0' else '1';
      assert BinaryDigits(n) == BinaryDigits(n / 2) + [c];
      ValueOfSnoc(BinaryDigits(n / 2), c, 2);
    }
  }

  /** n has at most k binary digits exactly when n < 2^k. */
  lemma {:induction false} BinaryDigitsLength(n: nat, k: nat)
    requires k >= 1
    ensures |BinaryDigits(n)| <= k <==> n < Pow2(k)
    decreases n
  {
    if n >= 2 {
      assert |BinaryDigits(n)| == |BinaryDigits(n / 2)| + 1;
      if k >= 2 {
        BinaryDigitsLength(n / 2, k - 1);
      }
    } else {
      assert Pow2(k) == 2 * Pow2(k - 1);
    }
  }

  /** toString(2) of a natural number has eight digits or more exactly from 128 on. */
  lemma OctetLength(n: nat)
    ensures |BinaryDigits(n)| >= 8 <==> n >= 128
  {
    BinaryDigitsLength(n, 7);
    assert Pow2(7) == 128;
  }

  /** Number.prototype.toString(2) on an integral number, with None the NaN value. */
  function NumberToBinary(v: Option<int>): string {
    match v
    case None => "NaN"
    case Some(n) => if n < 0 then "-" + BinaryDigits(-n) else BinaryDigits(n)
  }

  /** Array.prototype.indexOf / String.prototype.indexOf for one element: the
      first position of x in s, or -1. */
  function IndexOf<T(==)>(s: seq<T>, x: T): (i: int)
    ensures -1 <= i < |s|
    ensures i >= 0 ==> s[i] == x && forall j :: 0 <= j < i ==> s[j] != x
    ensures i == -1 <==> x !in s
  {
    if s == [] then -1
    else if s[0] == x then 0
    else var k := IndexOf(s[1..], x); if k == -1 then -1 else k + 1
  }

  /** String.prototype.lastIndexOf for one character: the last position of x in s, or -1. */
  function LastIndexOf<T(==)>(s: seq<T>, x: T): (i: int)
    ensures -1 <= i < |s|
    ensures i >= 0 ==> s[i] == x && forall j :: i < j < |s| ==> s[j] != x
    ensures i == -1 <==> x !in s
  {
    if s == [] then -1
    else if s[|s| - 1] == x then |s| - 1
    else LastIndexOf(s[..|s| - 1], x)
  }
}
