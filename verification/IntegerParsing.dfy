/**
  Number parsing of the console (modules/console/qcli_util.c): decimal and 0x-prefixed integers accumulated in
  32 unsigned bits with an overflow check after each digit, and hex strings converted to byte arrays.
*/
module IntegerParsing {
  import opened Basics
  import opened Bytes

  const MINUS: byte := 45
  const ZERO: byte := 48
  const LOWER_A: byte := 97
  const LOWER_X: byte := 120

  /** Reading a C string: its terminator follows its last byte. */
  function ByteAt(s: seq<byte>, i: nat): byte {
    if i < |s| then s[i] else NUL
  }

  /** The byte with bit 0x20 set. */
  function Lower(c: byte): byte {
    if c / 32 % 2 == 0 then c + 32 else c
  }

  /** QCLI_Hex_Nibble_To_Int. Setting the bit also turns the bytes 0x10 to 0x19 into digits. */
  function Nibble(c: byte): (r: Option<nat>)
    ensures r.Some? ==> r.value < 16
    ensures r.Some? <==> 0x30 <= c <= 0x39 || 0x10 <= c <= 0x19 || 0x41 <= c <= 0x46 || 0x61 <= c <= 0x66
  {
    var l := Lower(c);
    if ZERO <= l <= ZERO + 9 then Some(l - ZERO)
    else if LOWER_A <= l <= LOWER_A + 5 then Some(l - LOWER_A + 10)
    else None
  }

  /** The signed reading of a 32-bit unsigned integer. */
  function Signed(x: int): int {
    if x < TWO_31 then x else x - TWO_32
  }

  // ----- What a numeral denotes -----

  predicate IsDigit(c: byte, base: nat) {
    Nibble(c).Some? && Nibble(c).value < base
  }

  predicate AllDigits(s: seq<byte>, base: nat) {
    forall i :: 0 <= i < |s| ==> IsDigit(s[i], base)
  }

  /** The mathematical value of a string of digits. */
  function Value(s: seq<byte>, base: nat): (r: nat)
    requires AllDigits(s, base)
    decreases |s|
  {
    if s == [] then 0 else Value(s[..|s| - 1], base) * base + Nibble(s[|s| - 1]).value
  }

  predicate HexPrefix(s: seq<byte>) {
    ByteAt(s, 0) == ZERO && Lower(ByteAt(s, 1)) == LOWER_X
  }

  function Unprefixed(s: seq<byte>): seq<byte> {
    if HexPrefix(s) then s[2..] else s
  }

  /** Sign, base and digits of a numeral. */
  predicate IsNegative(s: seq<byte>) {
    ByteAt(s, 0) == MINUS
  }

  function Unsigned(s: seq<byte>): seq<byte> {
    if IsNegative(s) then s[1..] else s
  }

  function Base(s: seq<byte>): nat {
    if HexPrefix(Unsigned(s)) then 16 else 10
  }

  function Digits(s: seq<byte>): seq<byte> {
    Unprefixed(Unsigned(s))
  }

  /** No digit makes the value of the digits so far, modulo 2^32, smaller. */
  predicate NeverDrops(s: seq<byte>, base: nat)
    requires AllDigits(s, base)
    decreases |s|
  {
    s == [] || (NeverDrops(s[..|s| - 1], base) && U32(Value(s[..|s| - 1], base)) <= U32(Value(s, base)))
  }

  /** Numerals read as signed: decimal ones, and those with a minus sign. */
  predicate ReadAsSigned(s: seq<byte>) {
    Base(s) == 10 || IsNegative(s)
  }

  /** What the string converts to, in terms of its mathematical value. */
  function Parse(s: seq<byte>): (r: Option<int>) {
    var d, base := Digits(s), Base(s);
    if AllDigits(d, base) && NeverDrops(d, base) && (ReadAsSigned(s) ==> U32(Value(d, base)) < TWO_31)
    then Some(if IsNegative(s) then -U32(Value(d, base)) else Signed(U32(Value(d, base))))
    else None
  }

  lemma NoDigits(base: nat)
    ensures AllDigits([], base) && Value([], base) == 0 && NeverDrops([], base)
  {
  }

  lemma OneMoreDigit(d: seq<byte>, base: nat, i: nat)
    requires i < |d| && AllDigits(d[..i], base) && IsDigit(d[i], base)
    ensures AllDigits(d[..i + 1], base)
    ensures U32(Value(d[..i + 1], base)) == U32(U32(Value(d[..i], base)) * base + Nibble(d[i]).value)
    ensures NeverDrops(d[..i + 1], base) <==>
      NeverDrops(d[..i], base) && U32(Value(d[..i], base)) <= U32(Value(d[..i + 1], base))
  {
    hide U32, Nibble;
    var some, more := d[..i], d[..i + 1];
    assert more[..i] == some && more[i] == d[i];
    Scales(Value(some, base), base, Nibble(d[i]).value);
  }

  lemma {:induction false} StaysDropped(d: seq<byte>, base: nat, i: nat)
    requires i <= |d| && AllDigits(d, base) && AllDigits(d[..i], base) && !NeverDrops(d[..i], base)
    ensures !NeverDrops(d, base)
    decreases |d|
  {
    hide U32, Nibble, Value;
    if i == |d| {
      assert d[..i] == d;
    } else {
      var before := d[..|d| - 1];
      assert before[..i] == d[..i];
      StaysDropped(before, base, i);
    }
  }

  /** The digit loop. */
  method ReadDigits(d: seq<byte>, base: nat) returns (ok: bool, number: int)
    requires NUL !in d && (base == 10 || base == 16)
    ensures ok <==> AllDigits(d, base) && NeverDrops(d, base)
    ensures ok ==> number == U32(Value(d, base))
  {
    hide U32, Nibble, Value, NeverDrops;
    ok, number := true, 0;
    ZeroStays();
    var i := 0;
    NoDigits(base);
    assert d[..0] == [];
    while ByteAt(d, i) != NUL && ok
      invariant i <= |d|
      invariant AllDigits(d[..i], base) && number == U32(Value(d[..i], base))
      invariant ok <==> NeverDrops(d[..i], base)
      decreases |d| - i, ok
    {
      var v := Nibble(d[i]);
      if v.Some? && v.value < base {
        var previous := number;
        number := U32(number * base + v.value);
        OneMoreDigit(d, base, i);
        ok := number >= previous;
        i := i + 1;
      } else {
        assert !IsDigit(d[i], base);
        return false, 0;
      }
    }
    if ok {
      assert d[..i] == d;
    } else if AllDigits(d, base) {
      StaysDropped(d, base, i);
    }
  }

  lemma ZeroStays()
    ensures U32(0) == 0
  {
  }

  /** QCLI_String_To_Integer. */
  method StringToInteger(s: seq<byte>) returns (ok: bool, output: int)
    requires NUL !in s
    ensures Parse(s) == if ok then Some(output) else None
    ensures !ok ==> output == 0
  {
    hide NeverDrops, Value, AllDigits;
    var negative, rest := false, s;
    if ByteAt(rest, 0) == MINUS {
      negative, rest := true, rest[1..];
    }
    var base := 10;
    if ByteAt(rest, 0) == ZERO && Lower(ByteAt(rest, 1)) == LOWER_X {
      base, rest := 16, rest[2..];
    }
    var number;
    ok, number := ReadDigits(rest, base);
    if ok && (base == 10 || negative) {
      ok := Signed(number) >= 0;
    }
    if !ok {
      output := 0;
    } else if negative {
      output := 0 - Signed(number);
    } else {
      output := Signed(number);
    }
  }

  // ----- When the result is right -----

  /** The integer a numeral denotes. */
  function Denotes(s: seq<byte>): int
    requires AllDigits(Digits(s), Base(s))
  {
    if IsNegative(s) then 0 - Value(Digits(s), Base(s)) else Value(Digits(s), Base(s))
  }

  /** Signed numerals must fit 31 bits and a sign, hexadecimal ones 32 bits. */
  predicate Representable(s: seq<byte>)
    requires AllDigits(Digits(s), Base(s))
  {
    Value(Digits(s), Base(s)) < if ReadAsSigned(s) then TWO_31 else TWO_32
  }

  lemma {:induction false} SmallNeverDrops(d: seq<byte>, base: nat)
    requires AllDigits(d, base) && base >= 1 && Value(d, base) < TWO_32
    ensures NeverDrops(d, base)
    decreases |d|
  {
    hide Nibble, U32;
    if d != [] {
      Grows(Value(d[..|d| - 1], base), base);
      SmallNeverDrops(d[..|d| - 1], base);
      SmallIsItself(Value(d[..|d| - 1], base));
      SmallIsItself(Value(d, base));
    }
  }

  lemma Grows(v: nat, base: nat)
    requires base >= 1
    ensures v <= v * base
  {
  }

  lemma SmallIsItself(v: nat)
    ensures v < TWO_32 ==> U32(v) == v
  {
  }

  /** Every accepted string consists of digits and yields what it denotes, modulo 2^32. */
  lemma AcceptedModulo(s: seq<byte>)
    requires Parse(s).Some?
    ensures AllDigits(Digits(s), Base(s))
    ensures U32(Parse(s).value) == U32(Denotes(s))
    ensures -TWO_31 < Parse(s).value < TWO_31 || (Parse(s).value == -TWO_31 && !ReadAsSigned(s))
  {
    hide NeverDrops, Value, AllDigits;
    NegateModulo(Value(Digits(s), Base(s)));
  }

  lemma NegateModulo(v: nat)
    ensures U32(0 - U32(v)) == U32(0 - v)
  {
    var q := v / TWO_32;
    assert 0 - v == (0 - U32(v)) + (0 - q) * TWO_32;
  }

  /** Every representable numeral is accepted. */
  lemma RepresentableAccepted(s: seq<byte>)
    requires AllDigits(Digits(s), Base(s)) && Representable(s)
    ensures Parse(s) == Some(if ReadAsSigned(s) then Denotes(s) else Signed(Denotes(s)))
  {
    hide NeverDrops, Value, AllDigits;
    SmallNeverDrops(Digits(s), Base(s));
  }

  /** An accepted numeral has the right value exactly when it is representable: the overflow check is incomplete. */
  lemma ExactIffRepresentable(s: seq<byte>)
    requires Parse(s).Some?
    ensures AllDigits(Digits(s), Base(s))
    ensures Representable(s) <==>
      if ReadAsSigned(s) then Parse(s).value == Denotes(s) else U32(Parse(s).value) == Denotes(s)
  {
    hide NeverDrops, Value, AllDigits;
    AcceptedModulo(s);
    if Representable(s) {
      RepresentableAccepted(s);
    }
  }

  // ----- Printing and parsing -----

  /** Neither the end of a string, nor a sign, nor part of the prefix. */
  predicate Plain(c: byte) {
    c != NUL && c != MINUS && Lower(c) != LOWER_X
  }

  function DigitByte(v: nat): (c: byte)
    requires v < 16
    ensures Nibble(c) == Some(v) && Plain(c)
  {
    if v < 10 then ZERO + v else LOWER_A + v - 10
  }

  /** The digits of a number, without leading zeros. */
  function Show(n: nat, base: nat): (r: seq<byte>)
    requires 2 <= base <= 16
    ensures |r| > 0
    ensures forall i :: 0 <= i < |r| ==> Plain(r[i])
    decreases n
  {
    Split(n, base);
    (if n < base then [] else Show(n / base, base)) + [DigitByte(n % base)]
  }

  lemma Split(n: nat, base: nat)
    requires base >= 2
    ensures 0 <= n % base < base && n == n / base * base + n % base && n / base <= n
    ensures n >= base ==> n / base < n
    ensures n < base ==> n / base == 0
  {
    if n >= base {
      assert n / base * 2 <= n / base * base;
    }
  }

  lemma ValueAppend(d: seq<byte>, c: byte, base: nat)
    requires AllDigits(d, base) && IsDigit(c, base)
    ensures AllDigits(d + [c], base) && Value(d + [c], base) == Value(d, base) * base + Nibble(c).value
  {
    hide Nibble;
    assert (d + [c])[..|d|] == d;
  }

  function Decimal(n: int): seq<byte> {
    if n < 0 then [MINUS] + Show(0 - n, 10) else Show(n, 10)
  }

  function Hexadecimal(n: nat): seq<byte> {
    [ZERO, LOWER_X] + Show(n, 16)
  }

  lemma {:induction false} ShowDenotes(n: nat, base: nat)
    requires 2 <= base <= 16
    ensures AllDigits(Show(n, base), base) && Value(Show(n, base), base) == n
    decreases n
  {
    hide Nibble, DigitByte, Value, AllDigits;
    Split(n, base);
    var before := if n < base then [] else Show(n / base, base);
    NoDigits(base);
    if n >= base {
      ShowDenotes(n / base, base);
    }
    ValueAppend(before, DigitByte(n % base), base);
  }

  lemma DecimalParts(n: int)
    ensures IsNegative(Decimal(n)) <==> n < 0
    ensures Base(Decimal(n)) == 10 && Digits(Decimal(n)) == Show(if n < 0 then 0 - n else n, 10)
  {
    hide Show;
    var d := Show(if n < 0 then 0 - n else n, 10);
    assert Unsigned(Decimal(n)) == d;
    assert Lower(NUL) != LOWER_X;
    assert !HexPrefix(d);
  }

  /** Printing in decimal and parsing is the identity exactly on the integers above -2^31 and below 2^31. */
  lemma DecimalRoundTrip(n: int)
    ensures Parse(Decimal(n)) == Some(n) <==> -TWO_31 < n < TWO_31
  {
    hide Show, Decimal, Parse, Digits, IsNegative, Base, Value, AllDigits;
    DecimalParts(n);
    ShowDenotes(if n < 0 then 0 - n else n, 10);
    if -TWO_31 < n < TWO_31 {
      RepresentableAccepted(Decimal(n));
    } else if Parse(Decimal(n)).Some? {
      AcceptedModulo(Decimal(n));
    }
  }

  /** Printing an unsigned 32-bit integer in hexadecimal and parsing gives its signed reading. */
  lemma HexadecimalRoundTrip(n: nat)
    requires n < TWO_32
    ensures Parse(Hexadecimal(n)) == Some(Signed(n))
  {
    hide Show, Parse, Value, AllDigits;
    var s := Hexadecimal(n);
    assert s[2..] == Show(n, 16);
    assert Digits(s) == Show(n, 16) && Base(s) == 16 && !IsNegative(s);
    ShowDenotes(n, 16);
    RepresentableAccepted(s);
  }

  lemma ShowNeverDrops(n: nat)
    requires n >= 10 && n / 10 < TWO_32 && n / 10 <= U32(n)
    ensures AllDigits(Show(n, 10), 10) && NeverDrops(Show(n, 10), 10)
  {
    hide Nibble, DigitByte, U32, Value;
    ShowDenotes(n, 10);
    ShowDenotes(n / 10, 10);
    SmallNeverDrops(Show(n / 10, 10), 10);
    SmallIsItself(n / 10);
    assert Show(n, 10)[..|Show(n, 10)| - 1] == Show(n / 10, 10);
  }

  /** The overflow check lets 6000000000 through, as 1705032704. */
  lemma WrongNumberAccepted()
    ensures Parse(Decimal(6000000000)) == Some(1705032704)
  {
    hide Show, Decimal, Digits, IsNegative, Base, Value, AllDigits, NeverDrops;
    DecimalParts(6000000000);
    ShowNeverDrops(6000000000);
    ShowDenotes(6000000000, 10);
  }

  /** Strings without any digit are accepted as zero. */
  lemma EmptyNumeralsAccepted()
    ensures Parse([]) == Some(0) && Parse([MINUS]) == Some(0) && Parse([ZERO, LOWER_X]) == Some(0)
  {
    NoDigits(10);
    NoDigits(16);
    assert [MINUS][1..] == [] && [ZERO, LOWER_X][2..] == [];
  }

  // ----- Hex strings -----

  /** The bytes that pairs of hex digits stand for. */
  function Decoded(s: seq<byte>): (r: seq<byte>)
    requires AllDigits(s, 16)
    ensures |r| == |s| / 2
    decreases |s|
  {
    if |s| < 2 then []
    else
      Decoded(s[..|s| - 2 - |s| % 2]) + [Nibble(s[|s| - 2 - |s| % 2]).value * 16 + Nibble(s[|s| - 1 - |s| % 2]).value]
  }

  /** The number of bytes read: as many as there are pairs and as there is room for. */
  function Pairs(t: seq<byte>, size: nat): nat {
    if |t| / 2 < size then |t| / 2 else size
  }

  /** A left-over digit is an error unless the room is used up; what lies beyond the room is not looked at. */
  function HexResult(s: seq<byte>, size: nat): (r: Option<seq<byte>>)
    ensures r.Some? ==> |r.value| <= size
  {
    var t := Unprefixed(s);
    var c := Pairs(t, size);
    if AllDigits(t[..2 * c], 16) && (|t| % 2 == 0 || c == size) then Some(Decoded(t[..2 * c])) else None
  }

  /** QCLI_Hex_String_To_Array, for an output buffer of the given size. */
  method HexStringToArray(s: seq<byte>, output: array<byte>) returns (ok: bool, size: nat)
    requires NUL !in s
    modifies output
    ensures ok <==> HexResult(s, output.Length).Some?
    ensures ok ==> size <= output.Length && output[..size] == HexResult(s, output.Length).value
    ensures ok ==> forall i :: size <= i < output.Length ==> output[i] == 0
    ensures !ok ==> size == output.Length
  {
    hide Nibble, Decoded, Pairs, AllDigits;
    var t := s;
    if ByteAt(s, 0) == ZERO && Lower(ByteAt(s, 1)) == LOWER_X {
      t := s[2..];
    }
    assert t == Unprefixed(s);
    for i := 0 to output.Length
      invariant forall j :: 0 <= j < i ==> output[j] == 0
    {
      output[i] := 0;
    }
    ok, size := ConvertPairs(t, output);
  }

  /** The conversion loop, on a buffer of zeros. */
  method ConvertPairs(t: seq<byte>, output: array<byte>) returns (ok: bool, n: nat)
    requires NUL !in t && forall i :: 0 <= i < output.Length ==> output[i] == 0
    modifies output
    ensures var c := Pairs(t, output.Length);
      && (ok <==> AllDigits(t[..2 * c], 16) && (|t| % 2 == 0 || c == output.Length))
      && (ok ==> n == c <= output.Length && output[..n] == Decoded(t[..2 * c]))
    ensures ok ==> forall i :: n <= i < output.Length ==> output[i] == 0
    ensures !ok ==> n == output.Length
  {
    hide Nibble, Decoded, AllDigits;
    n := 0;
    ghost var c := Pairs(t, output.Length);
    NothingDecoded(t);
    while ByteAt(t, 2 * n) != NUL && n < output.Length
      invariant n <= c && AllDigits(t[..2 * n], 16) && output[..n] == Decoded(t[..2 * n])
      invariant forall i :: n <= i < output.Length ==> output[i] == 0
      decreases output.Length - n
    {
      if ByteAt(t, 2 * n + 1) == NUL {
        return false, output.Length;
      }
      var hi, lo := Nibble(t[2 * n]), Nibble(t[2 * n + 1]);
      if hi.None? || lo.None? {
        BadPair(t, n, c);
        return false, output.Length;
      }
      PairDecoded(t, n);
      output[n] := hi.value * 16 + lo.value;
      n := n + 1;
      assert output[..n] == output[..n - 1] + [output[n - 1]];
    }
    return true, n;
  }

  lemma NothingDecoded(t: seq<byte>)
    ensures AllDigits(t[..0], 16) && Decoded(t[..0]) == []
  {
  }

  lemma BadPair(t: seq<byte>, n: nat, c: nat)
    requires n < c && 2 * c <= |t| && (Nibble(t[2 * n]).None? || Nibble(t[2 * n + 1]).None?)
    ensures !AllDigits(t[..2 * c], 16)
  {
    hide Nibble;
    var u := t[..2 * c];
    assert !IsDigit(u[2 * n], 16) || !IsDigit(u[2 * n + 1], 16);
  }

  lemma PairDecoded(t: seq<byte>, n: nat)
    requires 2 * n + 1 < |t| && AllDigits(t[..2 * n], 16) && Nibble(t[2 * n]).Some? && Nibble(t[2 * n + 1]).Some?
    ensures AllDigits(t[..2 * (n + 1)], 16)
    ensures Decoded(t[..2 * (n + 1)])
         == Decoded(t[..2 * n]) + [Nibble(t[2 * n]).value * 16 + Nibble(t[2 * n + 1]).value]
  {
    hide Nibble;
    var more := t[..2 * (n + 1)];
    assert more[..2 * n] == t[..2 * n] && more[2 * n] == t[2 * n] && more[2 * n + 1] == t[2 * n + 1];
  }

  lemma PairAppended(s: seq<byte>, n: nat, hi: byte, lo: byte)
    requires |s| == 2 * n && AllDigits(s, 16) && Nibble(hi).Some? && Nibble(lo).Some?
    ensures AllDigits(s + [hi, lo], 16)
    ensures Decoded(s + [hi, lo]) == Decoded(s) + [Nibble(hi).value * 16 + Nibble(lo).value]
  {
    hide Nibble, Decoded, AllDigits;
    var t := s + [hi, lo];
    Slices(s, n, hi, lo);
    PairDecoded(t, n);
  }

  lemma Slices(s: seq<byte>, n: nat, hi: byte, lo: byte)
    requires |s| == 2 * n
    ensures var t := s + [hi, lo];
      |t| == 2 * (n + 1) && t[..2 * n] == s && t[..2 * (n + 1)] == t && t[2 * n] == hi && t[2 * n + 1] == lo
  {
  }

  function Encoded(b: seq<byte>): (r: seq<byte>)
    ensures |r| == 2 * |b|
    ensures forall i :: 0 <= i < |r| ==> Plain(r[i])
    decreases |b|
  {
    if b == [] then []
    else
      var x := b[|b| - 1];
      Encoded(b[..|b| - 1]) + [DigitByte(x / 16), DigitByte(x % 16)]
  }

  lemma {:induction false} DecodedEncoded(b: seq<byte>)
    ensures AllDigits(Encoded(b), 16) && Decoded(Encoded(b)) == b
    decreases |b|
  {
    hide Nibble, DigitByte, Decoded, AllDigits;
    if b == [] {
      NothingDecoded([]);
    } else {
      var before, x := b[..|b| - 1], b[|b| - 1];
      DecodedEncoded(before);
      PairAppended(Encoded(before), |before|, DigitByte(x / 16), DigitByte(x % 16));
      assert before + [x] == b;
    }
  }

  lemma {:induction false} EncodedPrefix(b: seq<byte>, k: nat)
    requires k <= |b|
    ensures Encoded(b)[..2 * k] == Encoded(b[..k])
    decreases |b|
  {
    if k == |b| {
      assert b[..k] == b;
    } else {
      var before := b[..|b| - 1];
      assert before[..k] == b[..k];
      EncodedPrefix(before, k);
      assert Encoded(b)[..2 * k] == Encoded(before)[..2 * k];
    }
  }

  lemma UnprefixedEncoded(b: seq<byte>, prefixed: bool)
    ensures Unprefixed(if prefixed then [ZERO, LOWER_X] + Encoded(b) else Encoded(b)) == Encoded(b)
  {
    hide Encoded;
    var e := Encoded(b);
    if prefixed {
      assert ([ZERO, LOWER_X] + e)[2..] == e;
    } else {
      assert Lower(NUL) != LOWER_X;
      assert !HexPrefix(e);
    }
  }

  /** A string of whole pairs of digits is read as far as there is room. */
  lemma EvenResult(s: seq<byte>, m: nat, size: nat, c: nat)
    requires |Unprefixed(s)| == 2 * m && c == (if m <= size then m else size)
    requires AllDigits(Unprefixed(s)[..2 * c], 16)
    ensures HexResult(s, size) == Some(Decoded(Unprefixed(s)[..2 * c]))
  {
    hide Decoded, AllDigits, Unprefixed;
  }

  /** Encoding bytes in hex, with or without 0x, and converting gives the bytes back, as many as there is room for. */
  lemma HexArrayRoundTrip(b: seq<byte>, size: nat, prefixed: bool)
    ensures var s := if prefixed then [ZERO, LOWER_X] + Encoded(b) else Encoded(b);
      HexResult(s, size) == Some(if |b| <= size then b else b[..size])
  {
    hide Encoded, Decoded, AllDigits, Unprefixed, HexResult;
    UnprefixedEncoded(b, prefixed);
    var c := if |b| <= size then |b| else size;
    EncodedPrefix(b, c);
    DecodedEncoded(b[..c]);
    assert |b| <= size ==> b[..c] == b;
    var s := if prefixed then [ZERO, LOWER_X] + Encoded(b) else Encoded(b);
    EvenResult(s, |b|, size, c);
  }

  // ----- A few numerals, byte by byte -----

  /** "-12" is -12, "0XfF" is 255, "0xFFFFFFFF" is -1, and "1a" is no number. */
  lemma Numerals()
    ensures Parse([45, 49, 50]) == Some(-12) && Parse([48, 88, 102, 70]) == Some(255)
    ensures Parse([48, 120, 70, 70, 70, 70, 70, 70, 70, 70]) == Some(-1) && Parse([49, 97]) == None
  {
    hide Value, NeverDrops;
    ReadTwo(49, 50, 10);
    ReadTwo(102, 70, 16);
    assert [45, 49, 50][1..] == [49, 50] && [48, 88, 102, 70][2..] == [102, 70];
    var eight := [70, 70, 70, 70, 70, 70, 70, 70];
    assert [48, 120, 70, 70, 70, 70, 70, 70, 70, 70][2..] == eight;
    AllOnes();
    assert !IsDigit([49, 97][1], 10);
    SmallNeverDrops([49, 50], 10);
    SmallNeverDrops([102, 70], 16);
    SmallNeverDrops(eight, 16);
  }

  /** "1A2b" is the two bytes 0x1A and 0x2B. */
  lemma HexBytes()
    ensures HexResult([49, 65, 50, 98], 4) == Some([26, 43])
  {
    hide Decoded, AllDigits;
    NothingDecoded([]);
    PairAppended([], 0, 49, 65);
    assert [] + [49, 65] == [49, 65] && [] + [26] == [26];
    PairAppended([49, 65], 1, 50, 98);
    assert [49, 65] + [50, 98] == [49, 65, 50, 98] && [26] + [43] == [26, 43];
    assert Unprefixed([49, 65, 50, 98]) == [49, 65, 50, 98];
    assert [49, 65, 50, 98][..2 * 2] == [49, 65, 50, 98];
    EvenResult([49, 65, 50, 98], 2, 4, 2);
  }

  lemma ReadTwo(a: byte, b: byte, base: nat)
    requires IsDigit(a, base) && IsDigit(b, base)
    ensures AllDigits([a, b], base) && Value([a, b], base) == Nibble(a).value * base + Nibble(b).value
  {
    hide Nibble, Value, AllDigits;
    NoDigits(base);
    ValueAppend([], a, base);
    assert [] + [a] == [a];
    ValueAppend([a], b, base);
    assert [a] + [b] == [a, b];
  }

  function Fifteens(n: nat): nat {
    if n == 0 then 0 else Fifteens(n - 1) * 16 + 15
  }

  lemma {:induction false} ReadFs(n: nat)
    ensures AllDigits(Rep(70, n), 16) && Value(Rep(70, n), 16) == Fifteens(n)
  {
    hide Value, AllDigits;
    if n == 0 {
      NoDigits(16);
      assert Rep(70, 0) == [];
    } else {
      ReadFs(n - 1);
      ValueAppend(Rep(70, n - 1), 70, 16);
      assert Rep(70, n - 1) + [70] == Rep(70, n);
    }
  }

  lemma AllOnes()
    ensures var s: seq<byte> := [70, 70, 70, 70, 70, 70, 70, 70];
      AllDigits(s, 16) && Value(s, 16) == 0xFFFF_FFFF
  {
    hide Value, AllDigits;
    ReadFs(8);
    assert Rep(70, 8) == [70, 70, 70, 70, 70, 70, 70, 70];
    assert Fifteens(4) == 0xFFFF;
  }
}
