/** OpenSSH public key blobs (packages/create-paratix/src/openSshPublicKeyWire.ts): wire strings and
    mpints of section 5 of RFC 4251, and the ssh-rsa key of section 6.6 of RFC 4253. */
module OpenSshWire {

  import opened ByteStrings
  import opened Wrappers

  datatype ReadResult<T> = ReadResult(nextOffset: nat, value: T)

  // ----- The standard's encodings

  /** The shortest such byte string. */
  function Digits(n: nat): Bytes {
    if n == 0 then [] else Digits(n / 256) + [(n % 256) as byte]
  }

  /** mpint of a non-negative integer: two's complement, no unnecessary leading byte. */
  function EncodeMpint(n: nat): Bytes {
    var digits := Digits(n);
    if digits != [] && digits[0] >= 0x80 then [0] + digits else digits
  }

  function EncodeUint32(n: nat): (r: Bytes)
    requires n < 0x1_0000_0000
    ensures |r| == 4
  {
    [(n / 256 / 256 / 256) as byte, (n / 256 / 256 % 256) as byte, (n / 256 % 256) as byte, (n % 256) as byte]
  }

  function WireString(s: Bytes): Bytes
    requires |s| < 0x1_0000_0000
  {
    EncodeUint32(|s|) + s
  }

  function BitLength(n: nat): nat {
    if n == 0 then 0 else 1 + BitLength(n / 2)
  }

  // ----- The readers

  function ReadUint32(value: Bytes, offset: nat): Option<ReadResult<nat>> {
    if offset + 4 > |value| then None
    else Some(ReadResult(offset + 4, BigEndian(value[offset..offset + 4])))
  }

  function ReadWireString(value: Bytes, offset: nat): Option<ReadResult<Bytes>> {
    match ReadUint32(value, offset)
    case None => None
    case Some(length) =>
      var endOffset := length.nextOffset + length.value;
      if endOffset > |value| then None
      else Some(ReadResult(endOffset, value[length.nextOffset..endOffset]))
  }

  function ReadMpint(value: Bytes, offset: nat): Option<ReadResult<Bytes>> {
    match ReadWireString(value, offset)
    case None => None
    case Some(r) => if r.value == [] then None else Some(r)
  }

  predicate IsPositiveMpint(value: Bytes)
    requires value != []
  {
    value[0] < 0x80
  }

  predicate HasCanonicalMpintEncoding(value: Bytes) {
    if |value| == 0 then false
    else if value[0] != 0 then true
    else if |value| < 2 then false
    else value[1] >= 0x80
  }

  /** Leading zero bytes removed, but never the last byte. */
  function WithoutSignPadding(value: Bytes): (r: Bytes)
    ensures value != [] ==> r != [] && (|r| > 1 ==> r[0] != 0)
  {
    if |value| > 1 && value[0] == 0 then WithoutSignPadding(value[1..]) else value
  }

  method RemoveMpintSignPadding(value: Bytes) returns (r: Bytes)
    ensures r == WithoutSignPadding(value)
  {
    var offset := 0;
    while offset < |value| - 1 && value[offset] == 0
      invariant 0 <= offset <= |value|
      invariant WithoutSignPadding(value[offset..]) == WithoutSignPadding(value)
    {
      assert value[offset..][1..] == value[offset + 1..];
      offset := offset + 1;
    }
    r := value[offset..];
  }

  lemma {:induction false} PaddingIsWorthless(value: Bytes)
    ensures BigEndian(WithoutSignPadding(value)) == BigEndian(value)
    decreases |value|
  {
    if |value| > 1 && value[0] == 0 {
      PaddingIsWorthless(value[1..]);
      BigEndianCons(value[0], value[1..]);
      assert value == [value[0]] + value[1..];
    }
  }

  function Pow256(n: nat): (r: nat)
    ensures r > 0
  {
    if n == 0 then 1 else 256 * Pow256(n - 1)
  }

  lemma Distribute(f: nat, p: nat, b: nat)
    ensures (f * p + b) * 256 == f * (256 * p) + b * 256
  {
    assert f * (256 * p) == (f * p) * 256;
  }

  lemma {:induction false} BigEndianCons(first: byte, rest: Bytes)
    ensures BigEndian([first] + rest) == first as nat * Pow256(|rest|) + BigEndian(rest)
    decreases |rest|
  {
    var bytes := [first] + rest;
    if rest == [] {
      assert bytes[..0] == [];
    } else {
      var n := |rest| - 1;
      assert bytes[..|rest|] == [first] + rest[..n];
      BigEndianCons(first, rest[..n]);
      Distribute(first as nat, Pow256(n), BigEndian(rest[..n]));
    }
  }

  lemma {:induction false} BigEndianBound(bytes: Bytes)
    ensures BigEndian(bytes) < Pow256(|bytes|)
    decreases |bytes|
  {
    if bytes != [] { BigEndianBound(bytes[..|bytes| - 1]); }
  }

  /** The loop computes the number that the byte string denotes. */
  method MpintToBigInt(value: Bytes) returns (result: nat)
    ensures result == BigEndian(value)
  {
    var normalizedValue := RemoveMpintSignPadding(value);
    PaddingIsWorthless(value);
    result := 0;
    for i := 0 to |normalizedValue|
      invariant result == BigEndian(normalizedValue[..i])
    {
      assert normalizedValue[..i + 1][..i] == normalizedValue[..i];
      result := result * 256 + normalizedValue[i] as nat;
    }
    assert normalizedValue[..|normalizedValue|] == normalizedValue;
  }

  method GetMpintBitLength(value: Bytes) returns (bits: nat)
    requires value != []
    ensures bits == BitLength(BigEndian(value))
  {
    var normalizedValue := RemoveMpintSignPadding(value);
    PaddingIsWorthless(value);
    var firstByte := normalizedValue[0];
    BitLengthByLeadingByte(normalizedValue);
    if firstByte == 0 {
      assert normalizedValue[..0] == [];
      return 0;
    }
    bits := (|normalizedValue| - 1) * 8 + BitLength(firstByte as nat);
  }

  lemma BitLengthDouble(n: nat, bit: nat)
    requires n > 0 && bit < 2
    ensures BitLength(2 * n + bit) == BitLength(n) + 1
  {
    assert (2 * n + bit) / 2 == n;
  }

  lemma FourMoreBits(n: nat, b3: nat, b2: nat, b1: nat, b0: nat)
    requires n > 0 && b3 < 2 && b2 < 2 && b1 < 2 && b0 < 2
    ensures BitLength(2 * (2 * (2 * (2 * n + b3) + b2) + b1) + b0) == BitLength(n) + 4
  {
    var x := 2 * n + b3;
    var y := 2 * x + b2;
    var z := 2 * y + b1;
    BitLengthDouble(n, b3);
    BitLengthDouble(x, b2);
    BitLengthDouble(y, b1);
    BitLengthDouble(z, b0);
  }

  lemma Nibble(n: nat, low: nat)
    requires low < 16
    ensures n * 16 + low == 2 * (2 * (2 * (2 * n + low / 8) + low / 4 % 2) + low / 2 % 2) + low % 2
  {}

  lemma BitLengthShift4(n: nat, low: nat)
    requires n > 0 && low < 16
    ensures BitLength(n * 16 + low) == BitLength(n) + 4
  {
    Nibble(n, low);
    FourMoreBits(n, low / 8, low / 4 % 2, low / 2 % 2, low % 2);
  }

  lemma BitLengthShift8(n: nat, low: nat)
    requires n > 0 && low < 256
    ensures BitLength(n * 256 + low) == BitLength(n) + 8
  {
    var high, last := low / 16, low % 16;
    assert low == high * 16 + last;
    BitLengthShift4(n, high);
    BitLengthShift4(n * 16 + high, last);
  }

  lemma {:induction false} BitLengthByLeadingByte(bytes: Bytes)
    requires bytes != []
    ensures bytes[0] != 0 ==> BitLength(BigEndian(bytes)) == (|bytes| - 1) * 8 + BitLength(bytes[0] as nat)
    ensures bytes[0] != 0 ==> BigEndian(bytes) > 0
    decreases |bytes|
  {
    var init := bytes[..|bytes| - 1];
    if |bytes| == 1 {
      assert init == [];
      assert BigEndian(bytes) == bytes[0] as nat;
    } else {
      BitLengthByLeadingByte(init);
      if bytes[0] != 0 { BitLengthShift8(BigEndian(init), bytes[|bytes| - 1] as nat); }
    }
  }

  // ----- Canonical mpints

  lemma {:induction false} DigitsOfBigEndian(bytes: Bytes)
    requires bytes == [] || bytes[0] != 0
    ensures Digits(BigEndian(bytes)) == bytes
    decreases |bytes|
  {
    if bytes != [] {
      var init, last := bytes[..|bytes| - 1], bytes[|bytes| - 1];
      assert init != [] ==> init[0] == bytes[0];
      DigitsOfBigEndian(init);
      if init == [] { assert bytes == [last]; } else { BitLengthByLeadingByte(init); }
      assert bytes == init + [last];
      var n := BigEndian(bytes);
      assert n / 256 == BigEndian(init) && n % 256 == last as nat;
    }
  }

  lemma {:induction false} BigEndianOfDigits(n: nat)
    ensures BigEndian(Digits(n)) == n
    ensures n > 0 ==> Digits(n) != [] && Digits(n)[0] != 0
  {
    if n > 0 {
      BigEndianOfDigits(n / 256);
      assert Digits(n)[..|Digits(n)| - 1] == Digits(n / 256);
    }
  }

  lemma PositiveBigEndian(bytes: Bytes)
    requires bytes != [] && bytes[0] != 0
    ensures BigEndian(bytes) > 0 && Digits(BigEndian(bytes)) == bytes
  {
    DigitsOfBigEndian(bytes);
    BitLengthByLeadingByte(bytes);
  }

  lemma ZeroInFront(rest: Bytes)
    ensures BigEndian([0] + rest) == BigEndian(rest)
  {
    BigEndianCons(0, rest);
    assert 0 * Pow256(|rest|) == 0;
  }

  /** A non-empty byte string that passes the positive and the canonical check is the one encoding of
      the integer it denotes, and that integer is positive. */
  lemma CanonicalIsTheEncoding(value: Bytes)
    requires value != [] && IsPositiveMpint(value) && HasCanonicalMpintEncoding(value)
    ensures value == EncodeMpint(BigEndian(value)) && BigEndian(value) > 0
  {
    if value[0] == 0 {
      var rest := value[1..];
      assert value == [0] + rest;
      ZeroInFront(rest);
      PositiveBigEndian(rest);
    } else {
      PositiveBigEndian(value);
    }
  }

  /** Conversely every positive integer's encoding passes both checks and denotes that integer. */
  lemma EncodingIsCanonical(n: nat)
    requires n > 0
    ensures var value := EncodeMpint(n);
            value != [] && IsPositiveMpint(value) && HasCanonicalMpintEncoding(value) && BigEndian(value) == n
  {
    BigEndianOfDigits(n);
    var digits := Digits(n);
    ZeroInFront(digits);
  }

  // ----- Wire strings

  lemma Uint32RoundTrip(n: nat)
    requires n < 0x1_0000_0000
    ensures BigEndian(EncodeUint32(n)) == n
  {
    BigEndian4(EncodeUint32(n));
  }

  lemma LastByte(high: nat, low: nat)
    requires low < 256
    ensures (high * 256 + low) / 256 == high && (high * 256 + low) % 256 == low
  {}

  lemma Uint32Unique(b: Bytes)
    requires |b| == 4
    ensures BigEndian(b) < 0x1_0000_0000 && EncodeUint32(BigEndian(b)) == b
  {
    BigEndian4(b);
    var h1 := b[0] as nat;
    var h2 := h1 * 256 + b[1] as nat;
    var h3 := h2 * 256 + b[2] as nat;
    LastByte(h3, b[3] as nat);
    LastByte(h2, b[2] as nat);
    LastByte(h1, b[1] as nat);
  }

  /** A wire string is read at `offset` if and only if its encoding stands there. */
  lemma ReadIffEncoded(value: Bytes, offset: nat, s: Bytes, next: nat)
    requires offset <= |value|
    ensures ReadWireString(value, offset) == Some(ReadResult(next, s))
       <==> |s| < 0x1_0000_0000 && offset <= next <= |value| && value[offset..next] == WireString(s)
  {
    if ReadWireString(value, offset) == Some(ReadResult(next, s)) {
      Uint32Unique(value[offset..offset + 4]);
      assert value[offset..next] == value[offset..offset + 4] + value[offset + 4..next];
    }
    if |s| < 0x1_0000_0000 && offset <= next <= |value| && value[offset..next] == WireString(s) {
      Uint32RoundTrip(|s|);
      assert value[offset..offset + 4] == value[offset..next][..4] == EncodeUint32(|s|);
      assert value[offset + 4..next] == value[offset..next][4..] == s;
    }
  }

  // ----- ssh-rsa

  /** "ssh-rsa" */
  const SSH_RSA: Bytes := [0x73, 0x73, 0x68, 0x2D, 0x72, 0x73, 0x61]

  /** The checks of validateRsaWireKey, in its order. */
  predicate AcceptsRsaFields(value: Bytes, offset: nat) {
    match ReadMpint(value, offset)
    case None => false
    case Some(exponent) =>
      && IsPositiveMpint(exponent.value) && HasCanonicalMpintEncoding(exponent.value)
      && BigEndian(exponent.value) >= 3 && BigEndian(exponent.value) % 2 == 1
      && match ReadMpint(value, exponent.nextOffset)
         case None => false
         case Some(modulus) =>
           && IsPositiveMpint(modulus.value) && HasCanonicalMpintEncoding(modulus.value)
           && BitLength(BigEndian(modulus.value)) >= 2048
           && modulus.nextOffset == |value|
  }

  method ValidateRsaWireKey(value: Bytes, offset: nat) returns (valid: bool)
    ensures valid == AcceptsRsaFields(value, offset)
  {
    var exponent := ReadMpint(value, offset);
    if exponent.None? || !IsPositiveMpint(exponent.value.value) || !HasCanonicalMpintEncoding(exponent.value.value) {
      return false;
    }
    var e := MpintToBigInt(exponent.value.value);
    if e < 3 || e % 2 != 1 { return false; }
    var modulus := ReadMpint(value, exponent.value.nextOffset);
    if modulus.None? || !IsPositiveMpint(modulus.value.value) || !HasCanonicalMpintEncoding(modulus.value.value) {
      return false;
    }
    var bits := GetMpintBitLength(modulus.value.value);
    valid := bits >= 2048 && modulus.value.nextOffset == |value|;
  }

  /** The ssh-rsa branch of hasValidOpenSshPublicKeyWireBlob, behind the base64 decoding. */
  predicate AcceptsRsaBlob(value: Bytes) {
    match ReadWireString(value, 0)
    case None => false
    case Some(algorithm) => algorithm.value == SSH_RSA && AcceptsRsaFields(value, algorithm.nextOffset)
  }

  function RsaBlob(e: nat, n: nat): Bytes
    requires |EncodeMpint(e)| < 0x1_0000_0000 && |EncodeMpint(n)| < 0x1_0000_0000
  {
    WireString(SSH_RSA) + WireString(EncodeMpint(e)) + WireString(EncodeMpint(n))
  }

  ghost predicate IsRsaBlobOf(value: Bytes, e: nat, n: nat) {
    && |EncodeMpint(e)| < 0x1_0000_0000 && |EncodeMpint(n)| < 0x1_0000_0000
    && value == RsaBlob(e, n)
    && e % 2 == 1 && e >= 3 && BitLength(n) >= 2048
  }

  /** The bytes from `offset` to `next` are the mpint of a positive integer `n`. */
  ghost predicate MpintAt(value: Bytes, offset: nat, next: nat, n: nat) {
    && offset <= next <= |value|
    && |EncodeMpint(n)| < 0x1_0000_0000
    && value[offset..next] == WireString(EncodeMpint(n))
  }

  lemma ReadMpintIsEncoded(value: Bytes, offset: nat, next: nat, s: Bytes)
    requires offset <= |value|
    requires ReadMpint(value, offset) == Some(ReadResult(next, s))
    requires IsPositiveMpint(s) && HasCanonicalMpintEncoding(s)
    ensures MpintAt(value, offset, next, BigEndian(s))
  {
    ReadIffEncoded(value, offset, s, next);
    CanonicalIsTheEncoding(s);
  }

  lemma ThreePieces(value: Bytes, a: nat, b: nat)
    requires a <= b <= |value|
    ensures value == value[0..a] + value[a..b] + value[b..|value|]
  {}

  lemma PiecesMakeBlob(value: Bytes, a: nat, b: nat, e: nat, n: nat)
    requires a <= |value| && value[0..a] == WireString(SSH_RSA)
    requires MpintAt(value, a, b, e) && MpintAt(value, b, |value|, n)
    ensures value == RsaBlob(e, n)
  {
    ThreePieces(value, a, b);
  }

  lemma AcceptedIsRsaBlob(value: Bytes)
    requires AcceptsRsaBlob(value)
    ensures exists e, n :: IsRsaBlobOf(value, e, n)
  {
    var algorithm := ReadWireString(value, 0).value;
    var a := algorithm.nextOffset;
    ReadIffEncoded(value, 0, algorithm.value, a);
    var exponent := ReadMpint(value, a).value;
    ReadMpintIsEncoded(value, a, exponent.nextOffset, exponent.value);
    var modulus := ReadMpint(value, exponent.nextOffset).value;
    ReadMpintIsEncoded(value, exponent.nextOffset, modulus.nextOffset, modulus.value);
    PiecesMakeBlob(value, a, exponent.nextOffset, BigEndian(exponent.value), BigEndian(modulus.value));
    assert IsRsaBlobOf(value, BigEndian(exponent.value), BigEndian(modulus.value));
  }

  lemma RsaBlobIsAccepted(value: Bytes, e: nat, n: nat)
    requires IsRsaBlobOf(value, e, n)
    ensures AcceptsRsaBlob(value)
  {
    var x, y := EncodeMpint(e), EncodeMpint(n);
    var a := 4 + |SSH_RSA|;
    var b := a + 4 + |x|;
    assert value[0..a] == WireString(SSH_RSA);
    assert value[a..b] == WireString(x);
    assert value[b..|value|] == WireString(y);
    ReadIffEncoded(value, 0, SSH_RSA, a);
    ReadIffEncoded(value, a, x, b);
    ReadIffEncoded(value, b, y, |value|);
    EncodingIsCanonical(e);
    EncodingIsCanonical(n);
  }

  /** A blob is accepted exactly when it is string("ssh-rsa"), mpint e, mpint n and nothing more, with
      e odd and at least 3 and n of at least 2048 bits. */
  lemma RsaBlobsExactly(value: Bytes)
    ensures AcceptsRsaBlob(value) <==> exists e, n :: IsRsaBlobOf(value, e, n)
  {
    if AcceptsRsaBlob(value) { AcceptedIsRsaBlob(value); }
    forall e, n | IsRsaBlobOf(value, e, n) ensures AcceptsRsaBlob(value) { RsaBlobIsAccepted(value, e, n); }
  }

  /** And a blob has one reading: it determines the exponent and the modulus. */
  lemma RsaBlobUnique(value: Bytes, e: nat, n: nat, e': nat, n': nat)
    requires IsRsaBlobOf(value, e, n) && IsRsaBlobOf(value, e', n')
    ensures e == e' && n == n'
  {
    var x, y, x', y' := EncodeMpint(e), EncodeMpint(n), EncodeMpint(e'), EncodeMpint(n');
    var a := 4 + |SSH_RSA|;
    assert value[a..a + 4 + |x|] == WireString(x);
    assert value[a..a + 4 + |x'|] == WireString(x');
    ReadIffEncoded(value, a, x, a + 4 + |x|);
    ReadIffEncoded(value, a, x', a + 4 + |x'|);
    assert x == x';
    assert value[a + 4 + |x|..] == WireString(y) == WireString(y');
    assert y == WireString(y)[4..] == WireString(y')[4..] == y';
    EncodingIsCanonical(e); EncodingIsCanonical(e'); EncodingIsCanonical(n); EncodingIsCanonical(n');
  }
}
