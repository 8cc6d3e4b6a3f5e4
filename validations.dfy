/** The router UI's form validators: port numbers, the port-forwarding
    address boxes, MAC addresses and MAC prefixes, subnet-mask contiguity,
    exact lengths and the IPv4 address pattern. `optional` stands for
    `this.optional(element)`, true for an empty field that is not required,
    which makes a validator accept. */
module Validations {
  import opened Js
  import opened Calendar

  // ------------------------------------------------------------ decimal numerals

  predicate AllZeros(s: string) {
    forall i :: 0 <= i < |s| ==> s[i] == '0'
  }

  function Zeros(k: nat): (s: string)
    ensures |s| == k && AllZeros(s)
  {
    if k == 0 then "" else Zeros(k - 1) + "0"
  }

  /** `/^\d+$/` holds and the number the text denotes lies in lo..hi (a
      string compared with a number is converted with ToNumber). */
  predicate DecimalInRange(s: string, lo: int, hi: int) {
    |s| > 0 && AllDigits(s, 10) && lo <= ValueOf(s, 10) <= hi
  }

  lemma {:induction false} ValueOfZeros(k: nat)
    ensures AllDigits(Zeros(k), 10) && ValueOf(Zeros(k), 10) == 0
  {
    if k > 0 {
      ValueOfZeros(k - 1);
      ValueOfSnoc(Zeros(k - 1), '0', 10);
      assert Zeros(k) == Zeros(k - 1) + ['0'];
    }
  }

  /** Leading zeros do not change the value of a digit string. */
  lemma {:induction false} ValueOfZerosPrefix(k: nat, s: string)
    requires AllDigits(s, 10)
    ensures AllDigits(Zeros(k) + s, 10) && ValueOf(Zeros(k) + s, 10) == ValueOf(s, 10)
    decreases |s|
  {
    ValueOfZeros(k);
    if s != [] {
      var s' := s[..|s| - 1];
      var c := s[|s| - 1];
      assert s == s' + [c];
      assert AllDigits(s', 10);
      ValueOfZerosPrefix(k, s');
      ValueOfSnoc(s', c, 10);
      ValueOfSnoc(Zeros(k) + s', c, 10);
      assert Zeros(k) + s == (Zeros(k) + s') + [c];
    } else {
      assert Zeros(k) + s == Zeros(k);
    }
  }

  /** Pad(n, 0) is the decimal numeral of n: it reads back as n, and it
      starts with 0 only for n = 0. */
  lemma {:induction false} NumeralFacts(n: nat)
    ensures AllDigits(Pad(n, 0), 10) && ValueOf(Pad(n, 0), 10) == n
    ensures n < 10 <==> |Pad(n, 0)| == 1
    ensures Pad(n, 0)[0] == '0' <==> n == 0
    decreases n
  {
    if n >= 10 {
      NumeralFacts(n / 10);
      var s := Pad(n, 0);
      assert s == Pad(n / 10, 0) + [DigitChar(n % 10)];
      assert s[..|s| - 1] == Pad(n / 10, 0);
    }
  }

  /** parseInt reads a numeral back as its number, with the radix omitted or 10. */
  lemma ParseNumeral(n: nat)
    ensures ParseInt(Pad(n, 0), 0) == Some(n) && ParseInt(Pad(n, 0), 10) == Some(n)
  {
    var s := Pad(n, 0);
    NumeralFacts(n);
    DigitRunAll(s, 10);
    assert s[..|s|] == s;
    assert DigitOf(s[0]) < 10;
    ParseDecimalPrefix(s, 0);
    ParseDecimalPrefix(s, 10);
  }

  /** Every digit string is a numeral with some leading zeros. */
  lemma {:induction false} PaddedNumeral(s: string)
    requires |s| > 0 && AllDigits(s, 10)
    ensures |Pad(ValueOf(s, 10), 0)| <= |s|
    ensures s == Zeros(|s| - |Pad(ValueOf(s, 10), 0)|) + Pad(ValueOf(s, 10), 0)
    decreases |s|
  {
    var n := ValueOf(s, 10);
    var c := s[|s| - 1];
    var s' := s[..|s| - 1];
    var d := DigitOf(c);
    assert DigitChar(d) == c;
    assert s == s' + [c];
    assert AllDigits(s', 10);
    var n' := ValueOf(s', 10);
    assert n == n' * 10 + d;
    if n' == 0 {
      assert Pad(n, 0) == [c];
      LeadingZeros(s');
      AllZerosIsZeros(s');
      assert s == Zeros(|s| - 1) + [c];
    } else {
      PaddedNumeral(s');
      var p' := Pad(n', 0);
      var j := |s'| - |p'|;
      assert s' == Zeros(j) + p';
      PadAppendDigit(n', d);
      var p := Pad(n, 0);
      assert p == p' + [c];
      assert s == Zeros(j) + p;
    }
  }

  /** A digit string of value 0 is all zeros. */
  lemma {:induction false} LeadingZeros(s: string)
    requires AllDigits(s, 10) && ValueOf(s, 10) == 0
    ensures AllZeros(s)
    decreases |s|
  {
    if s != [] {
      var s' := s[..|s| - 1];
      assert AllDigits(s', 10);
      LeadingZeros(s');
      assert DigitOf(s[|s| - 1]) == 0;
      forall i | 0 <= i < |s|
        ensures s[i] == '0'
      {
        if i < |s| - 1 {
          assert s[i] == s'[i];
        }
      }
    }
  }

  /** A text of zeros is Zeros of its length. */
  lemma AllZerosIsZeros(s: string)
    requires AllZeros(s)
    ensures s == Zeros(|s|)
  {
    assert forall i :: 0 <= i < |s| ==> s[i] == Zeros(|s|)[i];
  }

  /** Appending a digit to the numeral of a positive number. */
  lemma PadAppendDigit(m: nat, d: nat)
    requires m >= 1 && d < 10
    ensures Pad(m * 10 + d, 0) == Pad(m, 0) + [DigitChar(d)]
  {
    var n := m * 10 + d;
    assert n / 10 == m && n % 10 == d;
  }

  /** A numeral with k leading zeros lies in lo..hi exactly when its number does. */
  lemma PaddedNumeralInRange(k: nat, n: nat, lo: int, hi: int)
    ensures DecimalInRange(Zeros(k) + Pad(n, 0), lo, hi) <==> lo <= n <= hi
  {
    NumeralFacts(n);
    ValueOfZerosPrefix(k, Pad(n, 0));
  }

  /** Conversely, a text in range is such a numeral. */
  lemma InRangeIsPaddedNumeral(s: string, lo: int, hi: int)
    requires DecimalInRange(s, lo, hi)
    ensures var n := ValueOf(s, 10);
            lo <= n <= hi && |Pad(n, 0)| <= |s| && s == Zeros(|s| - |Pad(n, 0)|) + Pad(n, 0)
  {
    PaddedNumeral(s);
  }

  // ------------------------------------------------------------ port, portforwarding_ip

  /** port: digits only, with a value in 1..65535. */
  predicate Port(optional: bool, value: string) {
    optional || DecimalInRange(value, 1, 65535)
  }

  /** The bounds of port-forwarding address box `id` (the number the
      element's id names, None when it names none): box 1 in 1..255, boxes
      2 and 3 in 0..254, box 4 in 1..253, and 1..254 for any other id. */
  function BoxStart(id: Option<int>): int {
    if id == Some(2) || id == Some(3) then 0 else 1
  }

  function BoxEnd(id: Option<int>): int {
    if id == Some(1) then 255 else if id == Some(4) then 253 else 254
  }

  predicate PortForwardingIp(optional: bool, id: Option<int>, value: string) {
    optional || DecimalInRange(value, BoxStart(id), BoxEnd(id))
  }

  /** port accepts the numerals, with any leading zeros, of exactly 1..65535. */
  lemma PortAcceptsNumerals(k: nat, n: nat)
    ensures Port(false, Zeros(k) + Pad(n, 0)) <==> 1 <= n <= 65535
  {
    PaddedNumeralInRange(k, n, 1, 65535);
  }

  /** and nothing else. */
  lemma PortAcceptsOnlyNumerals(value: string)
    requires Port(false, value)
    ensures var n := ValueOf(value, 10);
            1 <= n <= 65535 && |Pad(n, 0)| <= |value| && value == Zeros(|value| - |Pad(n, 0)|) + Pad(n, 0)
  {
    InRangeIsPaddedNumeral(value, 1, 65535);
  }

  /** The four boxes of a port-forwarding server address and their ranges. */
  lemma PortForwardingBoxes(k: nat, n: nat)
    ensures PortForwardingIp(false, Some(1), Zeros(k) + Pad(n, 0)) <==> 1 <= n <= 255
    ensures PortForwardingIp(false, Some(2), Zeros(k) + Pad(n, 0)) <==> n <= 254
    ensures PortForwardingIp(false, Some(3), Zeros(k) + Pad(n, 0)) <==> n <= 254
    ensures PortForwardingIp(false, Some(4), Zeros(k) + Pad(n, 0)) <==> 1 <= n <= 253
  {
    assert BoxStart(Some(1)) == 1 && BoxEnd(Some(1)) == 255;
    assert BoxStart(Some(2)) == 0 && BoxEnd(Some(2)) == 254;
    assert BoxStart(Some(3)) == 0 && BoxEnd(Some(3)) == 254;
    assert BoxStart(Some(4)) == 1 && BoxEnd(Some(4)) == 253;
    PaddedNumeralInRange(k, n, 1, 255);
    PaddedNumeralInRange(k, n, 0, 254);
    PaddedNumeralInRange(k, n, 1, 253);
  }

  // ------------------------------------------------------------ mac, reserve_multicast_mac

  /** `[0-9A-Fa-f][0-9A-Fa-f]`. */
  predicate HexPair(s: string) {
    |s| == 2 && DigitOf(s[0]) < 16 && DigitOf(s[1]) < 16
  }

  /** `/^HH:HH:HH:HH:HH:HH$/` with H a hex digit. */
  predicate MacShape(v: string) {
    && |v| == 17
    && HexPair(v[..2]) && v[2] == ':' && HexPair(v[3..5]) && v[5] == ':'
    && HexPair(v[6..8]) && v[8] == ':' && HexPair(v[9..11]) && v[11] == ':'
    && HexPair(v[12..14]) && v[14] == ':' && HexPair(v[15..17])
  }

  /** value.substr(0, 2). */
  function Substr2(v: string): string {
    v[..if |v| < 2 then |v| else 2]
  }

  /** parseInt(value.substr(0, 2), 16) % 2 == 0: false for NaN. */
  predicate FirstOctetEven(v: string) {
    var p := ParseInt(Substr2(v), 16);
    p.Some? && JsRemainder(p.value, 2) == 0
  }

  predicate Mac(optional: bool, value: string) {
    optional || (FirstOctetEven(value) && MacShape(value))
  }

  const ZeroMac := "00:00:00:00:00:00"

  /** reserve_multicast_mac. */
  predicate ReserveMulticastMac(value: string) {
    value != ZeroMac
  }

  /** The first two characters of a MAC-shaped text, read by parseInt with radix 16. */
  lemma FirstOctetValue(v: string)
    requires |v| >= 2 && HexPair(v[..2])
    ensures ParseInt(Substr2(v), 16) == Some(16 * DigitOf(v[0]) + DigitOf(v[1]))
  {
    var s := Substr2(v);
    assert s == v[..2];
    DigitIsNoSpace(s[0]);
    assert TrimStart(s) == s;
    assert DigitRun(s[1..][1..], 16) == 0;
    assert DigitRun(s[1..], 16) == 1;
    assert DigitRun(s, 16) == 2;
    assert s[..2] == s;
    var a := s[..1];
    assert a == [s[0]] && a[..0] == [];
    assert ValueOf(a, 16) == DigitOf(s[0]);
    assert ValueOf(s, 16) == ValueOf(a, 16) * 16 + DigitOf(s[1]);
  }

  lemma Parity(a: nat, b: nat)
    ensures JsRemainder(16 * a + b, 2) == b % 2
  {
    assert 16 * a + b == 2 * (8 * a + b / 2) + b % 2;
  }

  /** An even first octet is an even second hex digit. */
  lemma FirstOctetEvenIsEvenDigit(v: string)
    requires |v| >= 2 && HexPair(v[..2])
    ensures FirstOctetEven(v) <==> DigitOf(v[1]) % 2 == 0
  {
    FirstOctetValue(v);
    var x := 16 * DigitOf(v[0]) + DigitOf(v[1]);
    assert FirstOctetEven(v) <==> JsRemainder(x, 2) == 0;
    Parity(DigitOf(v[0]), DigitOf(v[1]));
  }

  /** mac accepts exactly the six-pair texts whose first octet is even, that
      is, whose second hex digit is even (a unicast address). */
  lemma MacIsUnicastShape(value: string)
    ensures Mac(false, value) <==> MacShape(value) && DigitOf(value[1]) % 2 == 0
  {
    if MacShape(value) {
      FirstOctetEvenIsEvenDigit(value);
    }
  }

  /** The all-zero address has the MAC shape but is reserved. */
  lemma ZeroMacIsWellFormedButReserved()
    ensures Mac(false, ZeroMac) && !ReserveMulticastMac(ZeroMac)
  {
    var z := ZeroMac;
    assert z[..2] == "00" && z[3..5] == "00" && z[6..8] == "00";
    assert z[9..11] == "00" && z[12..14] == "00" && z[15..17] == "00";
    assert HexPair("00");
    assert MacShape(z);
    MacIsUnicastShape(z);
  }

  // ------------------------------------------------------------ inputGroup_mac_prefix

  /** The filled boxes come first, and each filled box is a hex pair. */
  predicate PrefixShape(boxes: seq<string>) {
    forall i :: 0 <= i < |boxes| && boxes[i] != "" ==> HexPair(boxes[i]) && "" !in boxes[..i]
  }

  /** inputGroup_mac_prefix over the six boxes of the widget and its joined value. */
  method MacPrefixValid(combined: string, boxes: seq<string>) returns (ok: bool)
    requires |boxes| == 6
    ensures ok <==> FirstOctetEven(combined) && PrefixShape(boxes)
  {
    var p := ParseInt(Substr2(combined), 16);
    if p.None? || JsRemainder(p.value, 2) != 0 {
      return false;
    }
    var hasBlankInput := false;
    for i := 1 to 7
      invariant hasBlankInput <==> "" in boxes[..i - 1]
      invariant PrefixShape(boxes[..i - 1])
    {
      var boxVal := boxes[i - 1];
      assert boxes[..i] == boxes[..i - 1] + [boxVal];
      if boxVal == "" {
        hasBlankInput := true;
      } else if hasBlankInput || !HexPair(boxVal) {
        assert !PrefixShape(boxes[..i]);
        assert boxes[..i] == boxes[..6][..i];
        return false;
      }
    }
    assert boxes[..6] == boxes;
    return true;
  }

  /** The shape in the other direction: a run of hex pairs, then only blanks. */
  lemma PrefixShapeIsRunThenBlanks(boxes: seq<string>)
    ensures var m := if "" in boxes then IndexOf(boxes, "") else |boxes|;
            PrefixShape(boxes) <==>
              && (forall i :: 0 <= i < m ==> HexPair(boxes[i]))
              && (forall i :: m <= i < |boxes| ==> boxes[i] == "")
  {
    var m := if "" in boxes then IndexOf(boxes, "") else |boxes|;
    assert forall i :: 0 <= i < m ==> boxes[i] != "";
    if PrefixShape(boxes) {
      forall i | m < i < |boxes|
        ensures "" in boxes[..i]
      {
        assert boxes[..i][m] == "";
      }
    }
  }

  // ------------------------------------------------------------ subnetMaskValidator

  /** parseInt(maskValue).toString(2). */
  function MaskBits(box: string): string {
    NumberToBinary(ParseInt(box, 0))
  }

  /** The binary text of every box. */
  function MaskBitsOf(boxes: seq<string>): (bits: seq<string>)
    ensures |bits| == |boxes|
  {
    if boxes == [] then [] else MaskBitsOf(boxes[..|boxes| - 1]) + [MaskBits(boxes[|boxes| - 1])]
  }

  /** Box i's binary text is the i-th element. */
  lemma {:induction false} MaskBitsOfAt(boxes: seq<string>, i: nat)
    requires i < |boxes|
    ensures MaskBitsOf(boxes)[i] == MaskBits(boxes[i])
    decreases |boxes|
  {
    if i < |boxes| - 1 {
      MaskBitsOfAt(boxes[..|boxes| - 1], i);
    }
  }

  /** The texts of the first i boxes are the first i texts. */
  lemma {:induction false} MaskBitsOfPrefix(boxes: seq<string>, i: nat)
    requires i <= |boxes|
    ensures MaskBitsOf(boxes)[..i] == MaskBitsOf(boxes[..i])
    decreases |boxes|
  {
    if i < |boxes| {
      var b' := boxes[..|boxes| - 1];
      MaskBitsOfPrefix(b', i);
      assert b'[..i] == boxes[..i];
      assert MaskBitsOf(boxes)[..i] == MaskBitsOf(b')[..i];
    } else {
      assert boxes[..i] == boxes;
    }
  }

  /** "0", or at least eight characters: any shorter text (a value from 1 to
      127, a negative value above -64, or "NaN") is refused. */
  predicate FullOctet(bits: string) {
    bits == "0" || |bits| >= 8
  }

  /** No 1 anywhere after a 0. */
  predicate NoOneAfterZero(s: string) {
    forall i, j :: 0 <= i < j < |s| && s[i] == '0' ==> s[j] != '1'
  }

  /** The texts one after the other. */
  function ConcatAll(parts: seq<string>): string {
    if parts == [] then "" else ConcatAll(parts[..|parts| - 1]) + parts[|parts| - 1]
  }

  /** The number of boxes before the first empty one. */
  function FilledCount(boxes: seq<string>): (m: nat)
    ensures m <= |boxes| && forall j :: 0 <= j < m ==> boxes[j] != ""
    ensures m < |boxes| ==> boxes[m] == ""
  {
    if "" in boxes then IndexOf(boxes, "") else |boxes|
  }

  /** The mask the boxes before the first empty one spell is contiguous:
      every octet is 0 or has eight binary digits (or more), and no 1 follows
      a 0 within an octet or across octets. */
  predicate SubnetContiguous(boxes: seq<string>) {
    ContiguousBits(MaskBitsOf(boxes[..FilledCount(boxes)]))
  }

  /** The binary texts of the octets spell a contiguous mask. */
  predicate ContiguousBits(bits: seq<string>) {
    (forall i :: 0 <= i < |bits| ==> FullOctet(bits[i])) && NoOneAfterZero(ConcatAll(bits))
  }

  lemma NoOneAfterZeroAppend(s: string, t: string)
    ensures NoOneAfterZero(s + t) <==> NoOneAfterZero(s) && NoOneAfterZero(t) && !('0' in s && '1' in t)
  {
    var u := s + t;
    if NoOneAfterZero(s) && NoOneAfterZero(t) && !('0' in s && '1' in t) {
      forall i, j | 0 <= i < j < |u| && u[i] == '0'
        ensures u[j] != '1'
      {
        if j >= |s| && i < |s| {
          assert s[i] == '0';
          assert t[j - |s|] == u[j];
        } else if i >= |s| {
          assert t[i - |s|] == '0' && t[j - |s|] == u[j];
        }
      }
    }
    if NoOneAfterZero(u) {
      forall i, j | 0 <= i < j < |s| && s[i] == '0'
        ensures s[j] != '1'
      {
        assert u[i] == s[i] && u[j] == s[j];
      }
      forall i, j | 0 <= i < j < |t| && t[i] == '0'
        ensures t[j] != '1'
      {
        assert u[i + |s|] == t[i] && u[j + |s|] == t[j];
      }
      forall i, j | 0 <= i < |s| && 0 <= j < |t| && s[i] == '0'
        ensures t[j] != '1'
      {
        assert u[i] == s[i] && u[j + |s|] == t[j];
      }
    }
  }

  /** The check of one octet by its first 0 and last 1. */
  lemma NoOneAfterZeroByIndices(b: string)
    ensures NoOneAfterZero(b) <==>
              !(IndexOf(b, '0') != -1 && LastIndexOf(b, '1') != -1 && IndexOf(b, '0') < LastIndexOf(b, '1'))
  {
  }

  /** A mask that fails on a prefix of its octets fails on the whole. */
  lemma {:induction false} ConcatAllPrefix(parts: seq<string>, i: nat)
    requires i <= |parts|
    ensures NoOneAfterZero(ConcatAll(parts)) ==> NoOneAfterZero(ConcatAll(parts[..i]))
    decreases |parts|
  {
    if i < |parts| {
      var p' := parts[..|parts| - 1];
      NoOneAfterZeroAppend(ConcatAll(p'), parts[|parts| - 1]);
      ConcatAllPrefix(p', i);
      assert p'[..i] == parts[..i];
    } else {
      assert parts[..i] == parts;
    }
  }

  lemma ContiguousBitsPrefix(bits: seq<string>, i: nat)
    requires i <= |bits|
    ensures ContiguousBits(bits) ==> ContiguousBits(bits[..i])
  {
    ConcatAllPrefix(bits, i);
  }

  /** One more octet: its text is appended to the mask. */
  lemma ContiguousBitsSnoc(bits: seq<string>, b: string)
    ensures ConcatAll(bits + [b]) == ConcatAll(bits) + b
    ensures ContiguousBits(bits + [b]) <==>
              ContiguousBits(bits) && FullOctet(b) && NoOneAfterZero(b) && !('0' in ConcatAll(bits) && '1' in b)
  {
    assert (bits + [b])[..|bits|] == bits;
    NoOneAfterZeroAppend(ConcatAll(bits), b);
  }

  /** One filled box more: its text is appended, and a contiguous mask is
      contiguous on every prefix of its filled boxes. */
  lemma MaskStep(boxes: seq<string>, i: nat)
    requires 1 <= i <= FilledCount(boxes)
    ensures var done := MaskBitsOf(boxes[..i - 1]);
            var b := MaskBits(boxes[i - 1]);
            && MaskBitsOf(boxes[..i]) == done + [b]
            && ConcatAll(done + [b]) == ConcatAll(done) + b
            && (ContiguousBits(done + [b]) <==>
                  ContiguousBits(done) && FullOctet(b) && NoOneAfterZero(b) && !('0' in ConcatAll(done) && '1' in b))
            && (SubnetContiguous(boxes) ==> ContiguousBits(done + [b]))
  {
    var m := FilledCount(boxes);
    var done := MaskBitsOf(boxes[..i - 1]);
    var b := MaskBits(boxes[i - 1]);
    assert boxes[..i][..i - 1] == boxes[..i - 1];
    assert MaskBitsOf(boxes[..i]) == done + [b];
    ContiguousBitsSnoc(done, b);
    MaskBitsOfPrefix(boxes[..m], i);
    assert boxes[..m][..i] == boxes[..i];
    ContiguousBitsPrefix(MaskBitsOf(boxes[..m]), i);
  }

  /** subnetMaskValidator over the four boxes of the mask. */
  method SubnetMaskValidator(boxes: seq<string>) returns (ok: bool)
    requires |boxes| == 4
    ensures ok <==> SubnetContiguous(boxes)
  {
    ghost var m := FilledCount(boxes);
    var hadZeros := false;
    for i := 1 to 5
      invariant i - 1 <= m
      invariant ContiguousBits(MaskBitsOf(boxes[..i - 1]))
      invariant hadZeros <==> '0' in ConcatAll(MaskBitsOf(boxes[..i - 1]))
    {
      var maskValue := boxes[i - 1];
      if maskValue == "" {
        assert m == i - 1;
        return true;
      }
      MaskStep(boxes, i);
      var binaryMask := MaskBits(maskValue);
      if binaryMask != "0" && |binaryMask| < 8 {
        return false;
      }
      NoOneAfterZeroByIndices(binaryMask);
      var firstZeroIndex := IndexOf(binaryMask, '0');
      var lastOneIndex := LastIndexOf(binaryMask, '1');
      if hadZeros && lastOneIndex != -1 {
        return false;
      } else if firstZeroIndex != -1 {
        if lastOneIndex != -1 && firstZeroIndex < lastOneIndex {
          return false;
        }
        hadZeros := true;
      }
    }
    return true;
  }

  lemma Value255()
    ensures DigitRun("255", 10) == 3 && ValueOf("255", 10) == 255
  {
    assert AllDigits("255", 10);
    DigitRunAll("255", 10);
    ValueOfSnoc([], '2', 10);
    ValueOfSnoc("2", '5', 10);
    ValueOfSnoc("25", '5', 10);
    assert [] + ['2'] == "2" && "2" + ['5'] == "25" && "25" + ['5'] == "255";
  }

  lemma Value0()
    ensures DigitRun("0", 10) == 1 && ValueOf("0", 10) == 0
  {
    assert "0"[1..] == [] && "0"[..0] == [];
  }

  lemma MaskBits255()
    ensures MaskBits("255") == "11111111"
  {
    Value255();
    assert "255"[..3] == "255";
    ParseDecimalPrefix("255", 0);
    Binary255();
  }

  lemma Binary255()
    ensures BinaryDigits(255) == "11111111"
  {
    assert BinaryDigits(3) == "11";
    assert BinaryDigits(7) == "111";
    assert BinaryDigits(15) == "1111";
    assert BinaryDigits(31) == "11111";
    assert BinaryDigits(63) == "111111";
    assert BinaryDigits(127) == "1111111";
  }

  lemma MaskBitsZero()
    ensures MaskBits("0") == "0"
  {
    Value0();
    assert "0"[..1] == "0";
    ParseDecimalPrefix("0", 0);
  }

  lemma MaskBitsTwelve()
    ensures MaskBits("12") == "1100"
  {
    DigitsTwelve();
    assert "12"[..2] == "12";
    ParseDecimalPrefix("12", 0);
    assert BinaryDigits(3) == "11";
    assert BinaryDigits(6) == "110";
  }

  // ------------------------------------------------------ the octet values

  /** Appending one character to a text: a 0 keeps the no-1-after-0
      condition, a 1 keeps it only after a text without a 0. */
  lemma NoOneAfterZeroSnoc(s: string, c: char)
    ensures NoOneAfterZero(s + [c]) <==> NoOneAfterZero(s) && (c == '1' ==> '0' !in s)
  {
    NoOneAfterZeroAppend(s, [c]);
    assert '1' in [c] <==> c == '1';
  }

  /** 2^L - 2^k is odd exactly when k is 0. */
  lemma PowDifferenceParity(L: nat, k: nat)
    requires k < L
    ensures (Pow2(L) - Pow2(k)) % 2 == 1 <==> k == 0
  {
    var a := Pow2(L - 1);
    assert Pow2(L) == 2 * a;
    if k == 0 {
      assert Pow2(L) - Pow2(k) == 2 * (a - 1) + 1;
    } else {
      assert Pow2(L) - Pow2(k) == 2 * (a - Pow2(k - 1));
    }
  }

  /** The binary text of n >= 1 is all 1s exactly when n + 1 is 2 to the
      power of its length. */
  lemma {:induction false} AllOnesValue(n: nat)
    requires n >= 1
    ensures '0' !in BinaryDigits(n) <==> n + 1 == Pow2(|BinaryDigits(n)|)
    decreases n
  {
    if n >= 2 {
      var m := n / 2;
      var c := if n % 2 == 0 then '0' else '1';
      assert BinaryDigits(n) == BinaryDigits(m) + [c];
      AllOnesValue(m);
      assert Pow2(|BinaryDigits(m)| + 1) == 2 * Pow2(|BinaryDigits(m)|);
    }
  }

  /** n is 2^L - 2^k for some k < L: L - k ones followed by k zeros. */
  predicate IsMaskNumber(n: nat, L: nat) {
    exists k :: 0 <= k < L && n == Pow2(L) - Pow2(k)
  }

  /** The binary text of n >= 1, of length L, has no 1 after a 0 (a run of
      1s, then a run of 0s) exactly when n is 2^L - 2^k for some k < L. */
  lemma {:induction false} MaskValue(n: nat)
    requires n >= 1
    ensures NoOneAfterZero(BinaryDigits(n)) <==> IsMaskNumber(n, |BinaryDigits(n)|)
    decreases n
  {
    if n == 1 {
      assert n == Pow2(1) - Pow2(0);
    } else if n % 2 == 1 {
      MaskValueOdd(n);
    } else {
      MaskValue(n / 2);
      MaskValueEven(n);
    }
  }

  /** The step for odd n: the last digit is 1, so the text must be all 1s. */
  lemma MaskValueOdd(n: nat)
    requires n >= 2 && n % 2 == 1
    ensures NoOneAfterZero(BinaryDigits(n)) <==> IsMaskNumber(n, |BinaryDigits(n)|)
  {
    var L := |BinaryDigits(n)|;
    var m := n / 2;
    var b := BinaryDigits(m);
    assert BinaryDigits(n) == b + ['1'];
    assert Pow2(L) == 2 * Pow2(|b|);
    NoOneAfterZeroSnoc(b, '1');
    AllOnesValue(m);
    if NoOneAfterZero(BinaryDigits(n)) {
      assert n == Pow2(L) - Pow2(0);
    }
    if IsMaskNumber(n, L) {
      var k :| 0 <= k < L && n == Pow2(L) - Pow2(k);
      PowDifferenceParity(L, k);
      assert '0' !in b;
      assert NoOneAfterZero(b);
    }
  }

  /** The step for even n: the last digit is 0, so the text is a mask
      exactly when the text of n / 2 is. */
  lemma MaskValueEven(n: nat)
    requires n >= 2 && n % 2 == 0
    requires NoOneAfterZero(BinaryDigits(n / 2)) <==> IsMaskNumber(n / 2, |BinaryDigits(n / 2)|)
    ensures NoOneAfterZero(BinaryDigits(n)) <==> IsMaskNumber(n, |BinaryDigits(n)|)
  {
    var L := |BinaryDigits(n)|;
    var m := n / 2;
    var b := BinaryDigits(m);
    assert BinaryDigits(n) == b + ['0'];
    assert Pow2(L) == 2 * Pow2(|b|);
    NoOneAfterZeroSnoc(b, '0');
    if NoOneAfterZero(BinaryDigits(n)) {
      var k :| 0 <= k < |b| && m == Pow2(|b|) - Pow2(k);
      assert Pow2(k + 1) == 2 * Pow2(k);
      assert n == 2 * m;
      assert n == Pow2(L) - Pow2(k + 1);
    }
    if IsMaskNumber(n, L) {
      var k :| 0 <= k < L && n == Pow2(L) - Pow2(k);
      PowDifferenceParity(L, k);
      assert k >= 1;
      assert Pow2(k) == 2 * Pow2(k - 1);
      assert n == 2 * (Pow2(|b|) - Pow2(k - 1));
      assert 0 <= k - 1 < |b| && m == Pow2(|b|) - Pow2(k - 1);
    }
  }

  /** The eight-digit values 2^8 - 2^k are the eight masks from 128 to 255. */
  lemma EightBitMasks(v: nat)
    ensures IsMaskNumber(v, 8) <==> v in {128, 192, 224, 240, 248, 252, 254, 255}
  {
    assert Pow2(1) == 2 && Pow2(2) == 4 && Pow2(3) == 8 && Pow2(4) == 16;
    assert Pow2(5) == 32 && Pow2(6) == 64 && Pow2(7) == 128 && Pow2(8) == 256;
    if IsMaskNumber(v, 8) {
      var k :| 0 <= k < 8 && v == Pow2(8) - Pow2(k);
      assert k in {0, 1, 2, 3, 4, 5, 6, 7};
    }
    if v in {128, 192, 224, 240, 248, 252, 254, 255} {
      var k := if v == 128 then 7 else if v == 192 then 6 else if v == 224 then 5 else if v == 240 then 4
               else if v == 248 then 3 else if v == 252 then 2 else if v == 254 then 1 else 0;
      assert v == Pow2(8) - Pow2(k);
    }
  }

  /** The binary text of v in 0..255 is a full octet with no 1 after a 0
      exactly when v is 0 or one of the eight values whose octet is a run of
      1s and then 0s. */
  lemma OctetValueMask(v: nat)
    requires v <= 255
    ensures FullOctet(BinaryDigits(v)) && NoOneAfterZero(BinaryDigits(v)) <==>
              v in {0, 128, 192, 224, 240, 248, 252, 254, 255}
  {
    OctetLength(v);
    if 1 <= v < 128 {
      assert BinaryDigits(v)[0] == '1';
    } else if v >= 128 {
      BinaryDigitsLength(v, 8);
      assert Pow2(8) == 256;
      MaskValue(v);
      EightBitMasks(v);
    }
  }

  /** One box holding the numeral of v in 0..255 passes exactly when v is 0
      or one of the eight values whose octet is a run of 1s and then 0s. */
  lemma OneBoxMask(v: nat)
    requires v <= 255
    ensures ContiguousBits([MaskBits(Pad(v, 0))]) <==> v in {0, 128, 192, 224, 240, 248, 252, 254, 255}
  {
    ParseNumeral(v);
    var b := BinaryDigits(v);
    assert MaskBits(Pad(v, 0)) == b;
    assert ConcatAll([b]) == b by {
      assert [b][..0] == [];
    }
    OctetValueMask(v);
  }

  /** Four filled boxes: the mask is their four binary texts. */
  lemma FourFilledBoxes(w: string, x: string, y: string, z: string)
    requires w != "" && x != "" && y != "" && z != ""
    ensures SubnetContiguous([w, x, y, z]) <==> ContiguousBits([MaskBits(w), MaskBits(x), MaskBits(y), MaskBits(z)])
  {
    var b := [w, x, y, z];
    assert FilledCount(b) == 4;
    assert b[..4] == b && b[..3] == [w, x, y] && [w, x, y][..2] == [w, x] && [w, x][..1] == [w] && [w][..0] == [];
    assert MaskBitsOf([w]) == [MaskBits(w)];
    assert MaskBitsOf([w, x]) == [MaskBits(w), MaskBits(x)];
    assert MaskBitsOf([w, x, y]) == [MaskBits(w), MaskBits(x), MaskBits(y)];
    assert MaskBitsOf(b) == [MaskBits(w), MaskBits(x), MaskBits(y), MaskBits(z)];
  }

  /** An empty second box: only the first octet is checked. */
  lemma BlankSecondBox(w: string, y: string, z: string)
    requires w != ""
    ensures SubnetContiguous([w, "", y, z]) <==> ContiguousBits([MaskBits(w)])
  {
    var b := [w, "", y, z];
    assert b[1..][0] == "";
    assert FilledCount(b) == 1;
    assert b[..1] == [w] && [w][..0] == [];
    assert MaskBitsOf([w]) == [MaskBits(w)];
  }

  /** 255.255.255.0 is contiguous: its octets read 11111111, 11111111,
      11111111 and 0. */
  lemma SubnetAcceptsContiguous()
    ensures ContiguousBits(["11111111", "11111111", "11111111", "0"])
  {
    OnesOctet();
    ThreeThenOne("11111111", "0");
  }

  /** 11111111 is a full octet without a 0. */
  lemma OnesOctet()
    ensures FullOctet("11111111") && NoOneAfterZero("11111111") && '0' !in "11111111"
  {
    var ones := "11111111";
    assert forall i :: 0 <= i < |ones| ==> ones[i] == '1';
  }

  /** Three octets without a 0 and then any full octet spell a contiguous
      mask when the last one has no 1 after a 0. */
  lemma ThreeThenOne(a: string, z: string)
    requires FullOctet(a) && NoOneAfterZero(a) && '0' !in a
    requires FullOctet(z) && NoOneAfterZero(z)
    ensures ContiguousBits([a, a, a, z])
  {
    var b0: seq<string> := [];
    assert ContiguousBits(b0) && ConcatAll(b0) == "";
    ContiguousBitsSnoc(b0, a);
    var b1 := b0 + [a];
    ContiguousBitsSnoc(b1, a);
    var b2 := b1 + [a];
    ContiguousBitsSnoc(b2, a);
    var b3 := b2 + [a];
    ContiguousBitsSnoc(b3, z);
    assert b3 + [z] == [a, a, a, z];
  }

  /** 255.0.255.0 is not: a 1 follows a 0 across octets. */
  lemma SubnetRejectsGap()
    ensures !ContiguousBits(["11111111", "0", "11111111", "0"])
  {
    var ones := "11111111";
    var bits := [ones, "0", ones, "0"];
    ContiguousBitsPrefix(bits, 3);
    assert bits[..3] == [ones, "0"] + [ones];
    ContiguousBitsSnoc([ones, "0"], ones);
    ContiguousBitsSnoc([ones], "0");
    ContiguousBitsSnoc([], ones);
    assert [] + [ones] == [ones] && [ones] + ["0"] == [ones, "0"];
    assert (ones + "0")[8] == '0' && ones[0] == '1';
  }

  /** An octet such as 12, whose binary form 1100 is shorter than eight
      digits, is rejected. */
  lemma SubnetRejectsShortOctet(rest: seq<string>)
    ensures !ContiguousBits(["1100"] + rest)
    ensures MaskBits("12") == "1100"
  {
    assert (["1100"] + rest)[0] == "1100";
    MaskBitsTwelve();
  }

  /** The same masks as the boxes hold them: 255.255.255.0 is accepted. */
  lemma BoxesContiguous()
    ensures SubnetContiguous(["255", "255", "255", "0"])
  {
    MaskBits255();
    MaskBitsZero();
    FourFilledBoxes("255", "255", "255", "0");
    SubnetAcceptsContiguous();
  }

  /** 255.0.255.0 is refused. */
  lemma BoxesWithGap()
    ensures !SubnetContiguous(["255", "0", "255", "0"])
  {
    MaskBits255();
    MaskBitsZero();
    FourFilledBoxes("255", "0", "255", "0");
    SubnetRejectsGap();
  }

  // ------------------------------------------------------------ exactlengths

  /** exactlengths: `!jQuery.inArray(value.length, param)`, true only when
      the index found is 0. */
  predicate ExactLengths(optional: bool, value: string, param: seq<int>) {
    optional || IndexOf(param, |value|) == 0
  }

  /** Only the first allowed length is accepted: a length listed later in
      param is refused. */
  lemma ExactLengthsAcceptsFirstOnly(value: string, param: seq<int>)
    ensures ExactLengths(false, value, param) <==> |param| > 0 && param[0] == |value|
  {
  }

  lemma ExactLengthsSample()
    ensures ExactLengths(false, "12345678", [8, 16])
    ensures !ExactLengths(false, "1234567812345678", [8, 16])
  {
    assert IndexOf([8, 16], 16) == 1 by {
      assert [8, 16][1..] == [16];
    }
  }

  // ------------------------------------------------------------ the IPv4 pattern

  /** One `([1-9]?\d|1\d\d|2[0-4]\d|25[0-5])` group. */
  predicate OctetBody(g: string) {
    || (|g| == 1 && IsDigitChar(g[0]))
    || (|g| == 2 && '1' <= g[0] <= '9' && IsDigitChar(g[1]))
    || (|g| == 3 && g[0] == '1' && IsDigitChar(g[1]) && IsDigitChar(g[2]))
    || (|g| == 3 && g[0] == '2' && '0' <= g[1] <= '4' && IsDigitChar(g[2]))
    || (|g| == 3 && g[0] == '2' && g[1] == '5' && '0' <= g[2] <= '5')
  }

  /** `0*` followed by one group; the group is one to three characters long,
      so it is one of the last three suffixes. */
  predicate OctetPattern(s: string) {
    || (|s| >= 1 && AllZeros(s[..|s| - 1]) && OctetBody(s[|s| - 1..]))
    || (|s| >= 2 && AllZeros(s[..|s| - 2]) && OctetBody(s[|s| - 2..]))
    || (|s| >= 3 && AllZeros(s[..|s| - 3]) && OctetBody(s[|s| - 3..]))
  }

  /** String.prototype.split with a one-character separator. */
  function SplitOn(s: string, c: char): (parts: seq<string>)
    ensures |parts| >= 1
    decreases |s|
  {
    if c !in s then [s]
    else
      var i := IndexOf(s, c);
      [s[..i]] + SplitOn(s[i + 1..], c)
  }

  /** Array.prototype.join with a one-character separator. */
  function JoinWith(parts: seq<string>, c: char): string
    requires |parts| >= 1
  {
    if |parts| == 1 then parts[0] else parts[0] + [c] + JoinWith(parts[1..], c)
  }

  /** Joining a first piece onto at least one more puts the separator between. */
  lemma JoinWithCons(p: string, rest: seq<string>, c: char)
    requires |rest| >= 1
    ensures JoinWith([p] + rest, c) == p + [c] + JoinWith(rest, c)
  {
    assert ([p] + rest)[1..] == rest;
  }

  /** No piece of a split holds the separator. */
  lemma {:induction false} SplitOnPieces(s: string, c: char)
    ensures forall i :: 0 <= i < |SplitOn(s, c)| ==> c !in SplitOn(s, c)[i]
    decreases |s|
  {
    if c in s {
      var i := IndexOf(s, c);
      SplitOnPieces(s[i + 1..], c);
      var rest := SplitOn(s[i + 1..], c);
      assert SplitOn(s, c) == [s[..i]] + rest;
      forall j | 0 <= j < |SplitOn(s, c)|
        ensures c !in SplitOn(s, c)[j]
      {
        if j == 0 {
          assert forall k :: 0 <= k < i ==> s[..i][k] == s[k];
        } else {
          assert SplitOn(s, c)[j] == rest[j - 1];
        }
      }
    }
  }

  /** Joining the pieces of a split gives the text back. */
  lemma {:induction false} JoinSplit(s: string, c: char)
    ensures JoinWith(SplitOn(s, c), c) == s
    decreases |s|
  {
    if c in s {
      var i := IndexOf(s, c);
      var rest := SplitOn(s[i + 1..], c);
      JoinSplit(s[i + 1..], c);
      JoinWithCons(s[..i], rest, c);
      assert s == s[..i] + [c] + s[i + 1..];
    }
  }

  /** Splitting at the first separator: the piece before it comes first. */
  lemma SplitOnFirst(p: string, t: string, c: char)
    requires c !in p
    ensures SplitOn(p + [c] + t, c) == [p] + SplitOn(t, c)
  {
    var s := p + [c] + t;
    assert s[|p|] == c;
    assert forall j :: 0 <= j < |p| ==> s[j] == p[j];
    assert IndexOf(s, c) == |p|;
    assert s[..|p|] == p && s[|p| + 1..] == t;
  }

  /** Splitting pieces that do not hold the separator gives them back. */
  lemma {:induction false} SplitJoin(parts: seq<string>, c: char)
    requires |parts| >= 1 && forall i :: 0 <= i < |parts| ==> c !in parts[i]
    ensures SplitOn(JoinWith(parts, c), c) == parts
    decreases |parts|
  {
    if |parts| > 1 {
      SplitJoin(parts[1..], c);
      SplitOnFirst(parts[0], JoinWith(parts[1..], c), c);
      assert parts == [parts[0]] + parts[1..];
    }
  }

  /** PARAMETER_TYPE_IPV4: four groups separated by dots. A group holds only
      digits, so the three dots of a match are exactly the dots of the text,
      and the pattern holds exactly when the text splits at its dots into four
      parts that each match `0*` and a group. */
  predicate Ipv4Pattern(s: string) {
    var parts := SplitOn(s, '.');
    |parts| == 4 && OctetPattern(parts[0]) && OctetPattern(parts[1]) && OctetPattern(parts[2]) && OctetPattern(parts[3])
  }

  /** The ipv4 validator. */
  predicate Ipv4(optional: bool, value: string) {
    optional || Ipv4Pattern(value)
  }

  /** The digits of a group read as its value. */
  lemma OctetBodyValue(g: string)
    requires OctetBody(g)
    ensures AllDigits(g, 10) && ValueOf(g, 10) <= 255
  {
    assert AllDigits(g, 10);
    ShortValue(g);
  }

  /** The value of a text of one to three digits, digit by digit. */
  lemma ShortValue(g: string)
    requires 1 <= |g| <= 3 && AllDigits(g, 10)
    ensures |g| == 1 ==> ValueOf(g, 10) == DigitOf(g[0])
    ensures |g| == 2 ==> ValueOf(g, 10) == 10 * DigitOf(g[0]) + DigitOf(g[1])
    ensures |g| == 3 ==> ValueOf(g, 10) == 100 * DigitOf(g[0]) + 10 * DigitOf(g[1]) + DigitOf(g[2])
  {
    if |g| == 1 {
      assert g == [g[0]];
      OneDigitValue(g[0]);
    } else if |g| == 2 {
      assert g == [g[0], g[1]];
      TwoDigitValue(g[0], g[1]);
    } else {
      assert g == [g[0], g[1], g[2]];
      ThreeDigitValue(g[0], g[1], g[2]);
    }
  }

  lemma OneDigitValue(a: char)
    requires DigitOf(a) < 10
    ensures ValueOf([a], 10) == DigitOf(a)
  {
    assert [a][..0] == [];
  }

  lemma TwoDigitValue(a: char, b: char)
    requires DigitOf(a) < 10 && DigitOf(b) < 10
    ensures ValueOf([a, b], 10) == 10 * DigitOf(a) + DigitOf(b)
  {
    assert [a, b][..1] == [a];
    OneDigitValue(a);
  }

  lemma ThreeDigitValue(a: char, b: char, c: char)
    requires DigitOf(a) < 10 && DigitOf(b) < 10 && DigitOf(c) < 10
    ensures ValueOf([a, b, c], 10) == 100 * DigitOf(a) + 10 * DigitOf(b) + DigitOf(c)
  {
    assert [a, b, c][..2] == [a, b];
    TwoDigitValue(a, b);
  }

  /** The numeral of a number up to 255 is one group. */
  lemma NumeralIsOctetBody(n: nat)
    requires n <= 255
    ensures OctetBody(Pad(n, 0))
  {
    NumeralFacts(n);
    if n >= 10 {
      assert Pad(n, 0) == Pad(n / 10, 0) + [DigitChar(n % 10)];
      if n >= 100 {
        assert Pad(n / 10, 0) == Pad(n / 100, 0) + [DigitChar((n / 10) % 10)];
        assert Pad(n / 100, 0) == [DigitChar(n / 100)];
      } else {
        assert Pad(n / 10, 0) == [DigitChar(n / 10)];
      }
    }
  }

  /** Zeros followed by one group is a digit string of value 0..255. */
  lemma ZerosThenOctetBody(s: string, k: nat)
    requires k <= |s| && AllZeros(s[..k]) && OctetBody(s[k..])
    ensures DecimalInRange(s, 0, 255)
  {
    assert s[..k] == Zeros(k);
    assert s == Zeros(k) + s[k..];
    OctetBodyValue(s[k..]);
    ValueOfZerosPrefix(k, s[k..]);
  }

  /** A digit string of value 0..255 is zeros followed by one group. */
  lemma DecimalIsOctetPattern(s: string)
    requires DecimalInRange(s, 0, 255)
    ensures OctetPattern(s)
  {
    InRangeIsPaddedNumeral(s, 0, 255);
    var n := ValueOf(s, 10);
    var g := Pad(n, 0);
    NumeralIsOctetBody(n);
    var k := |s| - |g|;
    assert s[..k] == Zeros(k) && s[k..] == g;
    ZerosThenBodyIsPattern(s, k);
  }

  /** Zeros followed by one group match the pattern: the group is one of the
      last three suffixes. */
  lemma ZerosThenBodyIsPattern(s: string, k: nat)
    requires k <= |s| && AllZeros(s[..k]) && OctetBody(s[k..])
    ensures OctetPattern(s)
  {
    var g := s[k..];
    assert 1 <= |g| <= 3;
    if |g| == 1 {
      assert k == |s| - 1;
    } else if |g| == 2 {
      assert k == |s| - 2;
    } else {
      assert k == |s| - 3;
    }
  }

  /** A text of the pattern is a digit string of value 0..255. */
  lemma OctetPatternToDecimal(s: string)
    requires OctetPattern(s)
    ensures DecimalInRange(s, 0, 255)
  {
    if |s| >= 1 && AllZeros(s[..|s| - 1]) && OctetBody(s[|s| - 1..]) {
      ZerosThenOctetBody(s, |s| - 1);
    } else if |s| >= 2 && AllZeros(s[..|s| - 2]) && OctetBody(s[|s| - 2..]) {
      ZerosThenOctetBody(s, |s| - 2);
    } else {
      ZerosThenOctetBody(s, |s| - 3);
    }
  }

  /** An octet of the pattern is exactly a digit string of value 0..255: any
      number of leading zeros is allowed. */
  lemma OctetPatternIsDecimal(s: string)
    ensures OctetPattern(s) <==> DecimalInRange(s, 0, 255)
  {
    if OctetPattern(s) {
      OctetPatternToDecimal(s);
    }
    if DecimalInRange(s, 0, 255) {
      DecimalIsOctetPattern(s);
    }
  }

  /** PARAMETER_TYPE_IPV4 accepts exactly four dot-separated digit strings of
      value 0..255 each. */
  lemma Ipv4PatternIsFourOctets(s: string)
    ensures var parts := SplitOn(s, '.');
            Ipv4Pattern(s) <==> |parts| == 4 && forall i :: 0 <= i < 4 ==> DecimalInRange(parts[i], 0, 255)
  {
    var parts := SplitOn(s, '.');
    if |parts| == 4 {
      OctetPatternIsDecimal(parts[0]);
      OctetPatternIsDecimal(parts[1]);
      OctetPatternIsDecimal(parts[2]);
      OctetPatternIsDecimal(parts[3]);
    }
  }

  /** A digit string holds no dot. */
  lemma DigitsHaveNoDot(s: string)
    requires AllDigits(s, 10)
    ensures '.' !in s
  {
    forall i | 0 <= i < |s|
      ensures s[i] != '.'
    {
      assert DigitOf(s[i]) < 10;
    }
  }

  /** Four digit strings of value 0..255 each, joined with dots, are accepted. */
  lemma DottedQuadAccepted(parts: seq<string>)
    requires |parts| == 4 && forall i :: 0 <= i < 4 ==> DecimalInRange(parts[i], 0, 255)
    ensures Ipv4Pattern(JoinWith(parts, '.'))
  {
    forall i | 0 <= i < 4
      ensures '.' !in parts[i]
    {
      DigitsHaveNoDot(parts[i]);
    }
    SplitJoin(parts, '.');
    Ipv4PatternIsFourOctets(JoinWith(parts, '.'));
  }
}
