/**
 The text and byte forms of a UUID (RFC 4122): validate, parse, stringify and v4.
 */
module Uuid {
  import opened Basics

  // ---------- Hexadecimal ----------

  predicate IsHex(c: char) {
    '0' <= c <= '9' || 'a' <= c <= 'f' || 'A' <= c <= 'F'
  }

  function Value(c: char): (v: nat)
    requires IsHex(c)
    ensures v < 16
  {
    if c <= '9' then (c - '0') as int else if c <= 'F' then (c - 'A') as int + 10 else (c - 'a') as int + 10
  }

  function Digit(v: nat): (c: char)
    requires v < 16
    ensures c == "0123456789abcdef"[v]
    ensures IsHex(c) && Value(c) == v && Lower(c) == c
  {
    if v < 10 then '0' + v as char else 'a' + (v - 10) as char
  }

  function Lower(c: char): char {
    if 'A' <= c <= 'Z' then c - 'A' + 'a' else c
  }

  lemma DigitOfValue(c: char)
    requires IsHex(c)
    ensures Digit(Value(c)) == Lower(c)
  {
  }

  /** parseInt(s, 16) */
  function HexValue(s: string): nat
    requires forall c :: c in s ==> IsHex(c)
  {
    if s == "" then 0 else HexValue(s[..|s| - 1]) * 16 + Value(s[|s| - 1])
  }

  /** Number.prototype.toString(16) */
  function ToHex(n: nat): (s: string)
    ensures s != ""
  {
    if n < 16 then [Digit(n)] else ToHex(n / 16) + [Digit(n % 16)]
  }

  /** Element i of the byteToHex table. */
  function ByteToHex(i: byte): string {
    ToHex(i + 0x100)[1..]
  }

  lemma ByteToHexDigits(i: byte)
    ensures ByteToHex(i) == [Digit(i / 16), Digit(i % 16)]
  {
    var n := i + 0x100;
    assert n / 16 == 16 + i / 16 && n % 16 == i % 16;
    assert (n / 16) / 16 == 1 && (n / 16) % 16 == i / 16;
    assert ToHex(1) == [Digit(1)];
    assert ToHex(n / 16) == [Digit(1)] + [Digit(i / 16)];
    assert ToHex(n) == [Digit(1)] + [Digit(i / 16)] + [Digit(i % 16)];
  }

  // ---------- Shape and validity ----------

  /** Where the hyphens are. */
  predicate IsHyphen(i: nat) {
    i == 8 || i == 13 || i == 18 || i == 23
  }

  /** The position in the text of the first digit of byte k. */
  function DigitAt(k: nat): nat
    requires k < 16
  {
    if k < 4 then 2 * k
    else if k < 6 then 2 * k + 1
    else if k < 8 then 2 * k + 2
    else if k < 10 then 2 * k + 3
    else 2 * k + 4
  }

  /** 8-4-4-4-12 digits, of either case, with hyphens between the groups. */
  predicate HasShape(u: string) {
    && |u| == 36
    && forall i :: 0 <= i < 36 ==> if IsHyphen(i) then u[i] == '-' else IsHex(u[i])
  }

  predicate IsNil(u: string) {
    && |u| == 36
    && forall i :: 0 <= i < 36 ==> u[i] == if IsHyphen(i) then '-' else '0'
  }

  /** The regular expression of validate: version 1 to 5 and the variant of the RFC, or all zero. */
  predicate Validate(u: string) {
    || (HasShape(u) && '1' <= u[14] <= '5' && u[19] in "89abAB")
    || IsNil(u)
  }

  lemma ValidHasShape(u: string)
    requires Validate(u)
    ensures HasShape(u)
  {
  }

  // ---------- Parsing ----------

  /** The byte written at two digits. */
  function Pair(hi: char, lo: char): (b: byte)
    requires IsHex(hi) && IsHex(lo)
  {
    16 * Value(hi) + Value(lo)
  }

  /** The sixteen bytes a text writes, digit pair by digit pair. */
  function BytesOf(u: string): (bytes: seq<byte>)
    requires HasShape(u)
    ensures |bytes| == 16
  {
    seq(16, k requires 0 <= k < 16 => PairAt(u, k))
  }

  function PairAt(u: string, k: nat): byte
    requires HasShape(u) && k < 16
  {
    assert !IsHyphen(DigitAt(k)) && !IsHyphen(DigitAt(k) + 1);
    Pair(u[DigitAt(k)], u[DigitAt(k) + 1])
  }

  /** v >>> n: the low 32 bits, shifted right. */
  function ShiftRight(v: nat, n: nat): nat
    requires n == 8 || n == 16 || n == 24
  {
    var low := v % 0x1_0000_0000;
    if n == 8 then low / 0x100 else if n == 16 then low / 0x1_0000 else low / 0x100_0000
  }

  /** v & 0xff */
  function LowByte(v: nat): byte {
    v % 0x100
  }

  lemma {:induction false} HexValueAppend(s: string, hi: char, lo: char)
    requires (forall c :: c in s ==> IsHex(c)) && IsHex(hi) && IsHex(lo)
    ensures HexValue(s + [hi, lo]) == HexValue(s) * 256 + Pair(hi, lo)
  {
    var t := s + [hi, lo];
    assert t[..|t| - 1] == s + [hi];
    assert (s + [hi])[..|s|] == s;
  }

  lemma HexDigits(u: string, from: nat, to: nat)
    requires HasShape(u) && from <= to <= 36
    requires forall i :: from <= i < to ==> !IsHyphen(i)
    ensures forall c :: c in u[from..to] ==> IsHex(c)
  {
  }

  /** The value of 2n digits, two digits at a time. */
  lemma GroupStep(u: string, from: nat, n: nat, k: nat)
    requires HasShape(u) && k < 16 && from + 2 * n + 2 <= 36
    requires forall i :: from <= i < from + 2 * n + 2 ==> !IsHyphen(i)
    requires DigitAt(k) == from + 2 * n
    ensures forall c :: c in u[from..from + 2 * n] || c in u[from..from + 2 * n + 2] ==> IsHex(c)
    ensures HexValue(u[from..from + 2 * n + 2]) == HexValue(u[from..from + 2 * n]) * 256 + PairAt(u, k)
  {
    HexDigits(u, from, from + 2 * n);
    HexDigits(u, from, from + 2 * n + 2);
    assert u[from..from + 2 * n + 2] == u[from..from + 2 * n] + [u[DigitAt(k)], u[DigitAt(k) + 1]];
    HexValueAppend(u[from..from + 2 * n], u[DigitAt(k)], u[DigitAt(k) + 1]);
  }

  lemma GroupOfTwo(u: string, from: nat, k: nat)
    requires HasShape(u) && k + 1 < 16 && from + 4 <= 36
    requires forall i :: from <= i < from + 4 ==> !IsHyphen(i)
    requires DigitAt(k) == from && DigitAt(k + 1) == from + 2
    ensures forall c :: c in u[from..from + 4] ==> IsHex(c)
    ensures HexValue(u[from..from + 4]) == PairAt(u, k) * 256 + PairAt(u, k + 1)
  {
    assert u[from..from + 0] == "";
    GroupStep(u, from, 0, k);
    GroupStep(u, from, 1, k + 1);
  }

  lemma GroupOfFour(u: string)
    requires HasShape(u)
    ensures forall c :: c in u[0..8] ==> IsHex(c)
    ensures HexValue(u[0..8]) == ((PairAt(u, 0) * 256 + PairAt(u, 1)) * 256 + PairAt(u, 2)) * 256 + PairAt(u, 3)
  {
    assert u[0..0] == "";
    GroupStep(u, 0, 0, 0);
    GroupStep(u, 0, 1, 1);
    GroupStep(u, 0, 2, 2);
    GroupStep(u, 0, 3, 3);
  }

  lemma GroupOfSix(u: string)
    requires HasShape(u)
    ensures forall c :: c in u[24..36] ==> IsHex(c)
    ensures HexValue(u[24..36])
            == ((((PairAt(u, 10) * 256 + PairAt(u, 11)) * 256 + PairAt(u, 12)) * 256 + PairAt(u, 13)) * 256
                + PairAt(u, 14)) * 256 + PairAt(u, 15)
  {
    assert u[24..24] == "";
    GroupStep(u, 24, 0, 10);
    GroupStep(u, 24, 1, 11);
    GroupStep(u, 24, 2, 12);
    GroupStep(u, 24, 3, 13);
    GroupStep(u, 24, 4, 14);
    GroupStep(u, 24, 5, 15);
  }

  /** Shifts and masks take a 32-bit value apart. */
  lemma TakeApartFour(v: nat, b0: byte, b1: byte, b2: byte, b3: byte)
    requires v == ((b0 * 256 + b1) * 256 + b2) * 256 + b3
    ensures ShiftRight(v, 24) == b0 && LowByte(ShiftRight(v, 16)) == b1
    ensures LowByte(ShiftRight(v, 8)) == b2 && LowByte(v) == b3
  {
    assert v % 0x1_0000_0000 == v;
    assert v / 0x100 == (b0 * 256 + b1) * 256 + b2;
    assert v / 0x1_0000 == b0 * 256 + b1;
    assert v / 0x100_0000 == b0;
  }

  lemma TakeApartTwo(v: nat, b0: byte, b1: byte)
    requires v == b0 * 256 + b1
    ensures ShiftRight(v, 8) == b0 && LowByte(v) == b1
  {
  }

  /** Division reaches the high 16 of 48 bits, shifts and masks the low 32. */
  lemma HighAndLow(v: nat, high: nat, low: nat)
    requires v == high * 0x1_0000_0000 + low && high < 0x1_0000 && low < 0x1_0000_0000
    ensures LowByte(v / 0x1_0000_0000) == LowByte(high)
    ensures LowByte(v / 0x100_0000_0000) == ShiftRight(high, 8)
    ensures ShiftRight(v, 24) == LowByte(ShiftRight(low, 24)) == ShiftRight(low, 24)
    ensures ShiftRight(v, 16) == ShiftRight(low, 16) && ShiftRight(v, 8) == ShiftRight(low, 8)
    ensures LowByte(v) == LowByte(low)
  {
    Quotients(v, high, low);
  }

  lemma Quotients(v: nat, high: nat, low: nat)
    requires v == high * 0x1_0000_0000 + low && high < 0x1_0000 && low < 0x1_0000_0000
    ensures v / 0x1_0000_0000 == high && v % 0x1_0000_0000 == low % 0x1_0000_0000 == low
    ensures v / 0x100_0000_0000 == high / 0x100
    ensures v % 0x100 == low % 0x100
    ensures high % 0x1_0000_0000 == high && low / 0x100_0000 < 0x100
  {
  }

  /** Division and shifts take a 48-bit value apart. */
  lemma TakeApartSix(v: nat, b0: byte, b1: byte, b2: byte, b3: byte, b4: byte, b5: byte)
    requires v == ((((b0 * 256 + b1) * 256 + b2) * 256 + b3) * 256 + b4) * 256 + b5
    ensures LowByte(v / 0x100_0000_0000) == b0 && LowByte(v / 0x1_0000_0000) == b1
    ensures LowByte(ShiftRight(v, 24)) == b2 && LowByte(ShiftRight(v, 16)) == b3
    ensures LowByte(ShiftRight(v, 8)) == b4 && LowByte(v) == b5
  {
    hide ShiftRight, LowByte;
    var high, low := b0 * 256 + b1, ((b2 * 256 + b3) * 256 + b4) * 256 + b5;
    assert v == high * 0x1_0000_0000 + low;
    TakeApartFour(low, b2, b3, b4, b5);
    TakeApartTwo(high, b0, b1);
    HighAndLow(v, high, low);
  }

  /** null stands for the TypeError. */
  method Parse(uuid: string) returns (arr: array?<byte>)
    ensures arr == null <==> !IsWritten(uuid)
    ensures arr != null ==> fresh(arr) && arr.Length == 16 && Writes(uuid, arr[..])
    ensures arr == null <==> !Validate(uuid)
    ensures arr != null ==> arr[..] == BytesOf(uuid)
  {
    hide IsWritten, Writes;
    ValidIsWritten(uuid);
    if !Validate(uuid) {
      return null;
    }
    hide PairAt, HasShape, IsHyphen, DigitAt;
    ValidHasShape(uuid);
    WritesItsBytes(uuid);
    arr := new byte[16];
    ParseFirst(arr, uuid);
    ParseShort(arr, uuid, 9, 4);
    ParseShort(arr, uuid, 14, 6);
    ParseShort(arr, uuid, 19, 8);
    ParseLast(arr, uuid);
    assert arr[..] == BytesOf(uuid);
  }

  /** The time-low group: one 32-bit number. */
  method ParseFirst(arr: array<byte>, uuid: string)
    requires HasShape(uuid) && arr.Length == 16
    modifies arr
    ensures forall k :: 0 <= k < 4 ==> arr[k] == PairAt(uuid, k)
  {
    hide HexValue, PairAt, ShiftRight, LowByte;
    GroupOfFour(uuid);
    var v := HexValue(uuid[0..8]);
    TakeApartFour(v, PairAt(uuid, 0), PairAt(uuid, 1), PairAt(uuid, 2), PairAt(uuid, 3));
    arr[0] := ShiftRight(v, 24);
    arr[1] := LowByte(ShiftRight(v, 16));
    arr[2] := LowByte(ShiftRight(v, 8));
    arr[3] := LowByte(v);
  }

  /** One of the three groups of four digits. */
  method ParseShort(arr: array<byte>, uuid: string, from: nat, k: nat)
    requires HasShape(uuid) && arr.Length == 16
    requires (from == 9 && k == 4) || (from == 14 && k == 6) || (from == 19 && k == 8)
    modifies arr
    ensures arr[k] == PairAt(uuid, k) && arr[k + 1] == PairAt(uuid, k + 1)
    ensures forall j :: 0 <= j < 16 && j != k && j != k + 1 ==> arr[j] == old(arr[j])
  {
    hide HexValue, PairAt, ShiftRight, LowByte;
    GroupOfTwo(uuid, from, k);
    var v := HexValue(uuid[from..from + 4]);
    TakeApartTwo(v, PairAt(uuid, k), PairAt(uuid, k + 1));
    arr[k] := ShiftRight(v, 8);
    arr[k + 1] := LowByte(v);
  }

  /** The node group: 48 bits, of which the high 16 are reached by division. */
  method ParseLast(arr: array<byte>, uuid: string)
    requires HasShape(uuid) && arr.Length == 16
    modifies arr
    ensures forall k :: 10 <= k < 16 ==> arr[k] == PairAt(uuid, k)
    ensures forall k :: 0 <= k < 10 ==> arr[k] == old(arr[k])
  {
    hide HexValue, PairAt, ShiftRight, LowByte;
    GroupOfSix(uuid);
    var v := HexValue(uuid[24..36]);
    TakeApartSix(v, PairAt(uuid, 10), PairAt(uuid, 11), PairAt(uuid, 12),
                 PairAt(uuid, 13), PairAt(uuid, 14), PairAt(uuid, 15));
    arr[10] := LowByte(v / 0x100_0000_0000);
    arr[11] := LowByte(v / 0x1_0000_0000);
    arr[12] := LowByte(ShiftRight(v, 24));
    arr[13] := LowByte(ShiftRight(v, 16));
    arr[14] := LowByte(ShiftRight(v, 8));
    arr[15] := LowByte(v);
  }

  // ---------- Writing ----------

  function HexOf(b: seq<byte>): (s: string)
    ensures |s| == 2 * |b|
    ensures forall k :: 0 <= k < |b| ==> s[2 * k] == Digit(b[k] / 16) && s[2 * k + 1] == Digit(b[k] % 16)
  {
    if b == [] then
      ""
    else
      var n := |b| - 1;
      ByteToHexDigits(b[n]);
      HexOf(b[..n]) + ByteToHex(b[n])
  }

  /** What stringify puts together before its validity check. */
  function Text(b: seq<byte>): (s: string)
    requires |b| == 16
    ensures |s| == 36
  {
    HexOf(b[0..4]) + "-" + HexOf(b[4..6]) + "-" + HexOf(b[6..8]) + "-" + HexOf(b[8..10]) + "-" + HexOf(b[10..16])
  }

  /** None stands for the TypeError. */
  function Stringify(b: seq<byte>): Option<string>
    requires |b| == 16
  {
    if Validate(Text(b)) then Some(Text(b)) else None
  }

  /** Every byte's two digits are at their place in the text. */
  lemma TextDigits(b: seq<byte>, k: nat)
    requires |b| == 16 && k < 16
    ensures Text(b)[DigitAt(k)] == Digit(b[k] / 16) && Text(b)[DigitAt(k) + 1] == Digit(b[k] % 16)
  {
    hide HexOf, Digit;
    var t := Text(b);
    if k < 4 {
      assert t[DigitAt(k)] == HexOf(b[0..4])[2 * k] && t[DigitAt(k) + 1] == HexOf(b[0..4])[2 * k + 1];
    } else if k < 6 {
      assert t[DigitAt(k)] == HexOf(b[4..6])[2 * (k - 4)] && t[DigitAt(k) + 1] == HexOf(b[4..6])[2 * (k - 4) + 1];
    } else if k < 8 {
      assert t[DigitAt(k)] == HexOf(b[6..8])[2 * (k - 6)] && t[DigitAt(k) + 1] == HexOf(b[6..8])[2 * (k - 6) + 1];
    } else if k < 10 {
      assert t[DigitAt(k)] == HexOf(b[8..10])[2 * (k - 8)] && t[DigitAt(k) + 1] == HexOf(b[8..10])[2 * (k - 8) + 1];
    } else {
      assert t[DigitAt(k)] == HexOf(b[10..16])[2 * (k - 10)] && t[DigitAt(k) + 1] == HexOf(b[10..16])[2 * (k - 10) + 1];
    }
  }

  lemma TextHyphens(b: seq<byte>)
    requires |b| == 16
    ensures var t := Text(b); t[8] == '-' && t[13] == '-' && t[18] == '-' && t[23] == '-'
  {
    hide HexOf, Digit;
  }

  /** The byte a digit position of the text belongs to. */
  function ByteAt(i: nat): (k: nat)
    requires i < 36 && !IsHyphen(i)
    ensures k < 16 && (i == DigitAt(k) || i == DigitAt(k) + 1)
  {
    if i < 8 then i / 2 else if i < 13 then (i - 1) / 2 else if i < 18 then (i - 2) / 2
    else if i < 23 then (i - 3) / 2 else (i - 4) / 2
  }

  lemma TextHasShape(b: seq<byte>)
    requires |b| == 16
    ensures HasShape(Text(b))
  {
    hide Text, Digit;
    TextHyphens(b);
    forall i | 0 <= i < 36
      ensures if IsHyphen(i) then Text(b)[i] == '-' else IsHex(Text(b)[i])
    {
      if !IsHyphen(i) {
        TextDigits(b, ByteAt(i));
      }
    }
  }

  // ---------- Round trips ----------

  /** Bytes written and read again, whether or not they pass the validity check. */
  lemma BytesRoundTrip(b: seq<byte>)
    requires |b| == 16
    ensures HasShape(Text(b)) && BytesOf(Text(b)) == b
  {
    hide Text, DigitAt;
    TextHasShape(b);
    forall k | 0 <= k < 16
      ensures BytesOf(Text(b))[k] == b[k]
    {
      TextDigits(b, k);
    }
  }

  /** Text read and written again comes back in lower case. */
  lemma TextRoundTrip(u: string)
    requires HasShape(u)
    ensures |Text(BytesOf(u))| == |u|
    ensures forall i :: 0 <= i < |u| ==> Text(BytesOf(u))[i] == Lower(u[i])
  {
    hide Text;
    var t := Text(BytesOf(u));
    TextHyphens(BytesOf(u));
    forall i | 0 <= i < 36
      ensures t[i] == Lower(u[i])
    {
      if !IsHyphen(i) {
        var k := ByteAt(i);
        TextDigits(BytesOf(u), k);
        PairDigits(u, k);
      }
    }
  }

  lemma PairDigits(u: string, k: nat)
    requires HasShape(u) && k < 16
    ensures var at := DigitAt(k);
            && at + 1 < 36 && IsHex(u[at]) && IsHex(u[at + 1])
            && Digit(BytesOf(u)[k] / 16) == Lower(u[at]) && Digit(BytesOf(u)[k] % 16) == Lower(u[at + 1])
  {
    hide Digit, Lower, Value;
    var at := DigitAt(k);
    assert !IsHyphen(at) && !IsHyphen(at + 1);
    DigitOfValue(u[at]);
    DigitOfValue(u[at + 1]);
    assert BytesOf(u)[k] == 16 * Value(u[at]) + Value(u[at + 1]);
  }

  /** The version and variant bits that make sixteen bytes a UUID, or all bytes zero. */
  predicate WellMarked(b: seq<byte>)
    requires |b| == 16
  {
    (1 <= b[6] / 16 <= 5 && b[8] / 64 == 2) || forall k :: 0 <= k < 16 ==> b[k] == 0
  }

  /** Writing succeeds exactly for bytes with a version from 1 to 5 and the RFC's variant, and for
      the nil UUID. */
  lemma StringifySucceeds(b: seq<byte>)
    requires |b| == 16
    ensures Stringify(b).Some? <==> WellMarked(b)
  {
    hide Text, Digit;
    var t := Text(b);
    TextHasShape(b);
    TextDigits(b, 6);
    TextDigits(b, 8);
    VersionDigit(b[6] / 16);
    VariantDigit(b[8] / 16);
    NilText(b);
  }

  lemma VersionDigit(v: nat)
    requires v < 16
    ensures '1' <= Digit(v) <= '5' <==> 1 <= v <= 5
  {
  }

  lemma VariantDigit(v: nat)
    requires v < 16
    ensures Digit(v) in "89abAB" <==> v / 4 == 2
  {
  }

  lemma NilText(b: seq<byte>)
    requires |b| == 16
    ensures IsNil(Text(b)) <==> forall k :: 0 <= k < 16 ==> b[k] == 0
  {
    hide Text, Digit;
    TextHyphens(b);
    if forall k :: 0 <= k < 16 ==> b[k] == 0 {
      forall i | 0 <= i < 36 && !IsHyphen(i)
        ensures Text(b)[i] == '0'
      {
        TextDigits(b, ByteAt(i));
        ZeroDigit(0);
      }
    }
    if IsNil(Text(b)) {
      forall k | 0 <= k < 16
        ensures b[k] == 0
      {
        TextDigits(b, k);
        ZeroDigit(b[k] / 16);
        ZeroDigit(b[k] % 16);
        assert !IsHyphen(DigitAt(k)) && !IsHyphen(DigitAt(k) + 1);
      }
    }
  }

  lemma ZeroDigit(v: nat)
    requires v < 16
    ensures Digit(v) == '0' <==> v == 0
  {
  }

  lemma MarksAreSeen(u: string)
    requires HasShape(u)
    ensures Validate(u) <==> WellMarked(BytesOf(u))
  {
    hide Text, Digit;
    TextRoundTrip(u);
    StringifySucceeds(BytesOf(u));
    LowerKeepsDigits(u[14]);
    LowerKeepsDigits(u[19]);
    forall i | 0 <= i < 36
      ensures Text(BytesOf(u))[i] == '0' <==> u[i] == '0'
      ensures Text(BytesOf(u))[i] == '-' <==> u[i] == '-'
    {
      LowerKeepsDigits(u[i]);
    }
    TextHasShape(BytesOf(u));
  }

  lemma LowerKeepsDigits(c: char)
    ensures '1' <= Lower(c) <= '5' <==> '1' <= c <= '5'
    ensures Lower(c) in "89abAB" <==> c in "89abAB"
    ensures Lower(c) == '0' <==> c == '0'
    ensures Lower(c) == '-' <==> c == '-'
  {
  }

  /** The text writes these bytes, its digits in either case. */
  predicate Writes(u: string, b: seq<byte>)
    requires |b| == 16
  {
    |u| == 36 && forall i :: 0 <= i < 36 ==> Lower(u[i]) == Text(b)[i]
  }

  /** The text writes some bytes that carry the marks of a UUID. */
  ghost predicate IsWritten(u: string) {
    exists b :: |b| == 16 && WellMarked(b) && Writes(u, b)
  }

  /** The valid texts are exactly those that write sixteen well-marked bytes. */
  lemma ValidIsWritten(u: string)
    ensures Validate(u) <==> IsWritten(u)
  {
    hide Text, Digit, WellMarked;
    if Validate(u) {
      ValidHasShape(u);
      TextRoundTrip(u);
      MarksAreSeen(u);
      assert Writes(u, BytesOf(u));
    }
    if IsWritten(u) {
      var b :| |b| == 16 && WellMarked(b) && Writes(u, b);
      WrittenHasShape(u, b);
      MarksAreSeen(u);
    }
  }

  lemma WritesItsBytes(u: string)
    requires HasShape(u)
    ensures Writes(u, BytesOf(u))
  {
    hide Text;
    TextRoundTrip(u);
  }

  lemma WrittenHasShape(u: string, b: seq<byte>)
    requires |b| == 16 && Writes(u, b)
    ensures HasShape(u) && BytesOf(u) == b
  {
    hide Text, Digit;
    TextHasShape(b);
    forall i | 0 <= i < 36
      ensures if IsHyphen(i) then u[i] == '-' else IsHex(u[i])
    {
      LowerKeepsDigits(u[i]);
      LowerIsHex(u[i]);
    }
    TextRoundTrip(u);
    assert Text(BytesOf(u)) == Text(b);
    BytesRoundTrip(b);
    BytesRoundTrip(BytesOf(u));
  }

  lemma LowerIsHex(c: char)
    ensures IsHex(Lower(c)) <==> IsHex(c)
  {
  }

  /** The digits of a text, without its hyphens. */
  function DigitsOf(u: string): (digits: string)
    requires |u| == 36
    ensures |digits| == 32
  {
    u[..8] + u[9..13] + u[14..18] + u[19..23] + u[24..]
  }

  /** Byte k is written by the digits 2k and 2k + 1, high digit first. */
  lemma BytesInOrder(u: string, k: nat)
    requires HasShape(u) && k < 16
    ensures IsHex(DigitsOf(u)[2 * k]) && IsHex(DigitsOf(u)[2 * k + 1])
    ensures BytesOf(u)[k] == 16 * Value(DigitsOf(u)[2 * k]) + Value(DigitsOf(u)[2 * k + 1])
  {
    hide Value, IsHex;
    assert DigitsOf(u)[2 * k] == u[DigitAt(k)] && DigitsOf(u)[2 * k + 1] == u[DigitAt(k) + 1];
    assert !IsHyphen(DigitAt(k)) && !IsHyphen(DigitAt(k) + 1);
  }

  /** parse and stringify undo each other on everything either accepts. */
  method ParseThenStringify(uuid: string) returns (again: Option<string>)
    ensures again.None? <==> !Validate(uuid)
    ensures again.Some? ==> |again.value| == |uuid| && forall i :: 0 <= i < |uuid| ==> again.value[i] == Lower(uuid[i])
  {
    var arr := Parse(uuid);
    if arr == null {
      return None;
    }
    ValidHasShape(uuid);
    TextRoundTrip(uuid);
    LowerIsValid(uuid, Text(BytesOf(uuid)));
    again := Stringify(arr[..]);
  }

  lemma LowerIsValid(u: string, t: string)
    requires Validate(u) && |t| == |u| && forall i :: 0 <= i < |u| ==> t[i] == Lower(u[i])
    ensures Validate(t)
  {
    if !IsNil(u) {
      assert HasShape(t) && '1' <= t[14] <= '5' && t[19] in "89abAB";
    }
  }

  method StringifyThenParse(b: seq<byte>) returns (again: array?<byte>)
    requires |b| == 16
    ensures again == null <==> !WellMarked(b)
    ensures again != null ==> again[..] == b
  {
    StringifySucceeds(b);
    BytesRoundTrip(b);
    var text := Stringify(b);
    if text.None? {
      return null;
    }
    again := Parse(text.value);
  }

  // ---------- Random UUIDs ----------

  /** Stamps the version (section 4.1.3 of RFC 4122) and the variant (section 4.1.1) on sixteen
      random bytes, in place, and writes them: this never throws, and keeps every other bit. */
  method V4(rnds: array<byte>) returns (text: string)
    requires rnds.Length == 16
    modifies rnds
    ensures rnds[6] / 16 == 4 && rnds[6] % 16 == old(rnds[6]) % 16
    ensures rnds[8] / 64 == 2 && rnds[8] % 64 == old(rnds[8]) % 64
    ensures forall k :: 0 <= k < 16 && k != 6 && k != 8 ==> rnds[k] == old(rnds[k])
    ensures Validate(text) && BytesOf(text) == rnds[..] && text[14] == '4'
  {
    rnds[6] := rnds[6] % 0x10 + 0x40;
    rnds[8] := rnds[8] % 0x40 + 0x80;
    hide Text, Validate;
    StringifySucceeds(rnds[..]);
    BytesRoundTrip(rnds[..]);
    TextDigits(rnds[..], 6);
    text := Stringify(rnds[..]).value;
  }
}
