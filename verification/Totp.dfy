/** Time-based one-time passwords (packages/paratix/src/totp.ts): the Base32 decoder of section 6 of
    RFC 4648, whose accumulator is a 32-bit integer that is never masked, and the dynamic truncation of
    section 5.3 of RFC 4226. */
module Totp {

  import opened ByteStrings
  import opened BitStrings
  import opened Text

  datatype Result<T> = Ok(value: T) | Invalid(character: char)

  const BASE32_ALPHABET := "ABCDEFGHIJKLMNOPQRSTUVWXYZ234567"

  function IndexIn(c: char, alphabet: string): (i: int)
    ensures -1 <= i < |alphabet|
    ensures i >= 0 ==> alphabet[i] == c
    ensures i == -1 ==> c !in alphabet
  {
    if alphabet == "" then -1
    else if alphabet[0] == c then 0
    else var rest := IndexIn(c, alphabet[1..]); if rest == -1 then -1 else rest + 1
  }

  function Index(c: char): (i: int)
    ensures -1 <= i < 32
  {
    IndexIn(c, BASE32_ALPHABET)
  }

  predicate InAlphabet(text: string) {
    forall i :: 0 <= i < |text| ==> Index(text[i]) >= 0
  }

  /** A character's value: five bits. */
  type Quintet = q: nat | q < 32

  function Quintets(text: string): (q: seq<Quintet>)
    requires InAlphabet(text)
    ensures |q| == |text| && forall i :: 0 <= i < |text| ==> q[i] == Index(text[i])
  {
    seq(|text|, i requires 0 <= i < |text| => Index(text[i]))
  }

  function QuintetBits(q: seq<Quintet>): (bits: Bits)
    ensures |bits| == 5 * |q|
  {
    if q == [] then [] else QuintetBits(q[..|q| - 1]) + ToBits(q[|q| - 1], 5)
  }

  function TextBits(text: string): (bits: Bits)
    requires InAlphabet(text)
    ensures |bits| == 5 * |text|
  {
    QuintetBits(Quintets(text))
  }

  lemma OneMoreCharacter(text: string, c: char)
    requires InAlphabet(text) && Index(c) >= 0
    ensures InAlphabet(text + [c]) && TextBits(text + [c]) == TextBits(text) + ToBits(Index(c), 5)
  {
    var q := Quintets(text + [c]);
    assert q[..|text|] == Quintets(text);
  }

  /** The bytes that section 6 of RFC 4648 assigns to a text: five bits a character, in order, cut into
      whole bytes. */
  function TextBytes(text: string): Bytes
    requires InAlphabet(text)
  {
    Octets(TextBits(text))
  }

  // ----- The 32-bit accumulator

  /** ToInt32: what the bitwise operators of JavaScript make of a number. */
  function ToInt32(x: int): (r: int)
    ensures -0x8000_0000 <= r < 0x8000_0000 && (r - x) % 0x1_0000_0000 == 0
  {
    var m := x % 0x1_0000_0000;
    if m < 0x8000_0000 then m else m - 0x1_0000_0000
  }

  /** `bitBuffer << 5 | index`: the shifted word ends in five zero bits. */
  function ShiftIn(bitBuffer: int, index: nat): int
    requires index < 32
  {
    ToInt32(bitBuffer * 32) + index
  }

  /** `bitBuffer >> bitCount & 0xff`: a floor division, whatever the sign. */
  function ByteAt(bitBuffer: int, bitCount: nat): byte {
    (bitBuffer / Pow2(bitCount) % 256) as byte
  }

  method AccumulateBase32Bytes(stripped: string) returns (result: Result<Bytes>)
    ensures InAlphabet(stripped) ==> result == Ok(TextBytes(stripped))
    ensures !InAlphabet(stripped) ==> result.Invalid? && exists i ::
              0 <= i < |stripped| && result.character == stripped[i] && Index(stripped[i]) < 0 && InAlphabet(stripped[..i])
  {
    var bytes: Bytes := [];
    var bitBuffer, bitCount := 0, 0;
    for i := 0 to |stripped|
      invariant InAlphabet(stripped[..i])
      invariant 0 <= bitCount < 8 && |bytes| * 8 + bitCount == 5 * i
      invariant bytes == TextBytes(stripped[..i])
      invariant Holds(bitBuffer, TextBits(stripped[..i]))
    {
      var index := Index(stripped[i]);
      if index == -1 {
        assert Index(stripped[i]) < 0 && InAlphabet(stripped[..i]);
        return Invalid(stripped[i]);
      }
      OneMoreCharacter(stripped[..i], stripped[i]);
      assert stripped[..i + 1] == stripped[..i] + [stripped[i]];
      ghost var before, now := TextBits(stripped[..i]), TextBits(stripped[..i + 1]);
      ShiftInHolds(bitBuffer, before, index);
      bitBuffer := ShiftIn(bitBuffer, index);
      bitCount := bitCount + 5;
      if bitCount >= 8 {
        bitCount := bitCount - 8;
        NextOctet(before, now, bitBuffer, |bytes|, bitCount);
        bytes := bytes + [ByteAt(bitBuffer, bitCount)];
      } else {
        NoNewOctet(before, now, |bytes|);
      }
    }
    assert stripped[..|stripped|] == stripped;
    result := Ok(bytes);
  }

  /** The accumulator holds all bits so far modulo 2^32. */
  ghost predicate Holds(bitBuffer: int, bits: Bits) {
    (bitBuffer - Value(bits)) % 0x1_0000_0000 == 0
  }

  // ----- The accumulator never loses a bit that is still to be emitted

  lemma Congruent(x: int, y: int, k: int)
    requires x - y == k * 0x1_0000_0000
    ensures (x - y) % 0x1_0000_0000 == 0
  {}

  lemma ShiftInHolds(bitBuffer: int, bits: Bits, index: nat)
    requires Holds(bitBuffer, bits) && index < 32
    ensures Holds(ShiftIn(bitBuffer, index), bits + ToBits(index, 5))
  {
    Pow2Constants();
    ValueConcat(bits, ToBits(index, 5));
    ValueOfToBits(index, 5);
    var k := (bitBuffer - Value(bits)) / 0x1_0000_0000;
    var j := (ToInt32(bitBuffer * 32) - bitBuffer * 32) / 0x1_0000_0000;
    Congruent(ShiftIn(bitBuffer, index), Value(bits + ToBits(index, 5)), j + 32 * k);
  }

  /** Adding multiples of 2^32 to a number does not show in the byte `bitCount` bits up. */
  lemma WrapInvisible(value: nat, k: int, bitCount: nat)
    requires bitCount < 8
    ensures ByteAt(value + k * 0x1_0000_0000, bitCount) == ByteAt(value, bitCount)
  {
    var p, q := Pow2(bitCount), 0x100_0000 / Pow2(bitCount);
    assert p * q == 0x100_0000 by {
      assert Pow2(0) == 1 && Pow2(1) == 2 && Pow2(2) == 4 && Pow2(3) == 8;
      assert Pow2(4) == 16 && Pow2(5) == 32 && Pow2(6) == 64 && Pow2(7) == 128;
    }
    var d, r := value / p, value % p;
    assert value + k * 0x1_0000_0000 == (d + k * (256 * q)) * p + r by {
      assert k * 0x1_0000_0000 == k * (256 * (p * q));
      assert k * (256 * (p * q)) == (k * (256 * q)) * p;
      assert (d + k * (256 * q)) * p == d * p + (k * (256 * q)) * p;
    }
    DivisionUnique(value + k * 0x1_0000_0000, p, d + k * (256 * q), r);
    assert (d + k * (256 * q)) % 256 == d % 256 by {
      assert k * (256 * q) == 256 * (k * q);
      DivisionUnique(d + 256 * (k * q), 256, d / 256 + k * q, d % 256);
    }
  }

  /** The byte read `bitCount` bits up is the eight bits that stand there. */
  lemma ByteAtHolds(bitBuffer: int, done: Bits, octet: Bits, rest: Bits)
    requires Holds(bitBuffer, done + octet + rest) && |octet| == 8 && |rest| < 8
    ensures Octets(octet) == [ByteAt(bitBuffer, |rest|)]
  {
    var all := Value(done + octet + rest);
    var k := (bitBuffer - all) / 0x1_0000_0000;
    assert bitBuffer == all + k * 0x1_0000_0000;
    WrapInvisible(all, k, |rest|);
    ValueConcat(done + octet, rest);
    ValueConcat(done, octet);
    ValueBound(rest);
    OneOctet(octet);
    Pow2Constants();
    DivisionUnique(all, Pow2(|rest|), Value(done + octet), Value(rest));
    DivisionUnique(Value(done + octet), 256, Value(done), Value(octet));
  }

  lemma NoNewOctet(before: Bits, now: Bits, k: nat)
    requires before <= now && 8 * k <= |before| && |now| < 8 * k + 8
    ensures Octets(now) == Octets(before)
  {
    var done := before[..8 * k];
    assert before == done + before[8 * k..] && now == done + now[8 * k..];
    OctetsBeforeTail(done, k, before[8 * k..]);
    OctetsBeforeTail(done, k, now[8 * k..]);
  }

  lemma NextOctetOf(done: Bits, k: nat, tail: Bits, octet: Bits, rest: Bits, bitBuffer: int)
    requires |done| == 8 * k && |tail| < 8 && |octet| == 8 && |rest| < 8
    requires Holds(bitBuffer, done + octet + rest)
    ensures Octets(done + octet + rest) == Octets(done + tail) + [ByteAt(bitBuffer, |rest|)]
  {
    ByteAtHolds(bitBuffer, done, octet, rest);
    OctetsBeforeTail(done, k, tail);
    OctetsBeforeTail(done + octet, k + 1, rest);
    OctetsConcat(done, k, octet);
  }

  lemma NextOctet(before: Bits, now: Bits, bitBuffer: int, k: nat, bitCount: nat)
    requires before <= now && bitCount < 8 && 8 * k <= |before| < 8 * k + 8 && |now| == 8 * k + 8 + bitCount
    requires Holds(bitBuffer, now)
    ensures Octets(now) == Octets(before) + [ByteAt(bitBuffer, bitCount)]
  {
    var m := 8 * k;
    var done, octet, rest := now[..m], now[m..m + 8], now[m + 8..];
    assert now == done + octet + rest;
    assert before == done + before[m..];
    NextOctetOf(done, k, before[m..], octet, rest, bitBuffer);
  }

  // ----- The encoder of section 6 of RFC 4648, and its inverse

  /** Bits in groups of five. */
  function BitQuintets(bits: Bits, k: nat): (q: seq<Quintet>)
    requires |bits| == 5 * k
    ensures |q| == k
  {
    if k == 0 then []
    else
      var n := |bits| - 5;
      ValueBound(bits[n..]);
      Pow2Constants();
      BitQuintets(bits[..n], k - 1) + [Value(bits[n..])]
  }

  lemma {:induction false} QuintetsRoundTrip(bits: Bits, k: nat)
    requires |bits| == 5 * k
    ensures QuintetBits(BitQuintets(bits, k)) == bits
    decreases k
  {
    if k > 0 {
      var n := |bits| - 5;
      QuintetsRoundTrip(bits[..n], k - 1);
      ToBitsOfValue(bits[n..]);
      var q := BitQuintets(bits, k);
      assert q[..k - 1] == BitQuintets(bits[..n], k - 1);
      assert bits == bits[..n] + bits[n..];
    }
  }

  /** Zero bits up to a multiple of five. */
  function Padding(length: nat): (bits: Bits)
    ensures |bits| < 5 && (length + |bits|) % 5 == 0
  {
    seq((5 - length % 5) % 5, _ => false)
  }

  /** The bytes' bits, padded, and how many groups of five that makes. */
  function PaddedBits(bytes: Bytes): (r: (Bits, nat))
    ensures |r.0| == 5 * r.1
  {
    var bits := ByteBits(bytes);
    var padded := bits + Padding(|bits|);
    (padded, |padded| / 5)
  }

  function Spelled(q: seq<Quintet>): (text: string)
    ensures |text| == |q|
  {
    seq(|q|, i requires 0 <= i < |q| => BASE32_ALPHABET[q[i]])
  }

  function Base32Chars(bytes: Bytes): string {
    var padded := PaddedBits(bytes);
    Spelled(BitQuintets(padded.0, padded.1))
  }

  /** Characters, then `=` up to a multiple of eight. */
  function EncodeBase32(bytes: Bytes): string {
    var chars := Base32Chars(bytes);
    chars + seq((8 - |chars| % 8) % 8, _ => '=')
  }

  /** Position of a character by its code, without a search. */
  function Code(c: char): int {
    if 'A' <= c <= 'Z' then c as int - 'A' as int
    else if '2' <= c <= '7' then c as int - '2' as int + 26
    else -1
  }

  lemma AlphabetLetters(i: nat)
    requires i < 26
    ensures BASE32_ALPHABET[i] == ('A' as int + i) as char
  {}

  lemma AlphabetCodes(i: nat)
    requires i < 32
    ensures Code(BASE32_ALPHABET[i]) == i
  {
    if i < 26 { AlphabetLetters(i); }
  }

  lemma {:induction false} FirstPlace(alphabet: string, i: nat)
    requires i < |alphabet| && forall j :: 0 <= j < i ==> alphabet[j] != alphabet[i]
    ensures IndexIn(alphabet[i], alphabet) == i
    decreases i
  {
    if i > 0 {
      var rest := alphabet[1..];
      assert forall j :: 0 <= j < i - 1 ==> rest[j] == alphabet[j + 1];
      FirstPlace(rest, i - 1);
    }
  }

  lemma IndexOfAlphabet(i: nat)
    requires i < 32
    ensures Index(BASE32_ALPHABET[i]) == i
  {
    forall j | 0 <= j < i ensures BASE32_ALPHABET[j] != BASE32_ALPHABET[i] {
      AlphabetCodes(i);
      AlphabetCodes(j);
    }
    FirstPlace(BASE32_ALPHABET, i);
  }

  lemma SpelledQuintets(q: seq<Quintet>)
    ensures InAlphabet(Spelled(q)) && Quintets(Spelled(q)) == q
  {
    forall i | 0 <= i < |q| ensures Index(Spelled(q)[i]) == q[i] { IndexOfAlphabet(q[i]); }
  }

  /** Decoding inverts encoding, for byte strings of every length. */
  lemma DecodeInvertsEncode(bytes: Bytes)
    ensures InAlphabet(Base32Chars(bytes)) && TextBytes(Base32Chars(bytes)) == bytes
  {
    var padded := PaddedBits(bytes);
    SpelledQuintets(BitQuintets(padded.0, padded.1));
    QuintetsRoundTrip(padded.0, padded.1);
    var pad := Padding(8 * |bytes|);
    OctetsConcat(ByteBits(bytes), |bytes|, pad);
    OctetsInvertByteBits(bytes);
  }

  // ----- decodeBase32

  /** toUpperCase, then every `=` and white-space character dropped. The Unicode tables are parameters. */
  function Stripped(text: string, upper: char -> string, isSpace: char -> bool): string {
    Kept(Uppercased(text, upper), isSpace)
  }

  function Uppercased(text: string, upper: char -> string): string {
    if text == "" then "" else upper(text[0]) + Uppercased(text[1..], upper)
  }

  function Kept(text: string, isSpace: char -> bool): string {
    if text == "" then ""
    else (if text[0] == '=' || isSpace(text[0]) then "" else [text[0]]) + Kept(text[1..], isSpace)
  }

  datatype Decoding = Decoded(bytes: Bytes) | TooLong | BadCharacter(character: char)

  method DecodeBase32(encoded: string, upper: char -> string, isSpace: char -> bool) returns (r: Decoding)
    ensures r == TooLong <==> |encoded| > 1024
    ensures |encoded| <= 1024 ==>
              var stripped := Stripped(encoded, upper, isSpace);
              if InAlphabet(stripped) then r == Decoded(TextBytes(stripped))
              else r.BadCharacter? && r.character in stripped && Index(r.character) < 0
    ensures LatinTables(upper, isSpace) && |encoded| <= 1024 ==>
              forall bytes :: encoded == EncodeBase32(bytes) ==> r == Decoded(bytes)
  {
    if |encoded| > 1024 { return TooLong; }
    var stripped := Stripped(encoded, upper, isSpace);
    var result := AccumulateBase32Bytes(stripped);
    forall bytes | LatinTables(upper, isSpace) && encoded == EncodeBase32(bytes) ensures result == Ok(bytes) {
      DecodeInvertsEncode(bytes);
      EncodedTextStrips(bytes, upper, isSpace);
    }
    match result
    case Ok(bytes) => r := Decoded(bytes);
    case Invalid(c) => r := BadCharacter(c);
  }

  lemma {:induction false} KeptConcat(a: string, b: string, isSpace: char -> bool)
    ensures Kept(a + b, isSpace) == Kept(a, isSpace) + Kept(b, isSpace)
    decreases |a|
  {
    if a == "" {
      assert a + b == b;
    } else {
      assert (a + b)[1..] == a[1..] + b;
      KeptConcat(a[1..], b, isSpace);
    }
  }

  lemma {:induction false} KeptLetters(text: string, isSpace: char -> bool)
    requires forall i :: 0 <= i < |text| ==> text[i] != '=' && !isSpace(text[i])
    ensures Kept(text, isSpace) == text
    decreases |text|
  {
    if text != "" {
      KeptLetters(text[1..], isSpace);
      assert text == [text[0]] + text[1..];
    }
  }

  lemma {:induction false} KeptPadding(text: string, isSpace: char -> bool)
    requires forall i :: 0 <= i < |text| ==> text[i] == '='
    ensures Kept(text, isSpace) == ""
    decreases |text|
  {
    if text != "" { KeptPadding(text[1..], isSpace); }
  }

  lemma {:induction false} UppercasedFixed(text: string, upper: char -> string)
    requires forall i :: 0 <= i < |text| ==> upper(text[i]) == [text[i]]
    ensures Uppercased(text, upper) == text
    decreases |text|
  {
    if text != "" {
      UppercasedFixed(text[1..], upper);
      assert text == [text[0]] + text[1..];
    }
  }

  /** What the encoder's characters ask of the Unicode tables. */
  ghost predicate LatinTables(upper: char -> string, isSpace: char -> bool) {
    && (forall c :: Code(c) >= 0 || c == '=' ==> upper(c) == [c])
    && (forall c :: Code(c) >= 0 ==> !isSpace(c))
  }

  lemma InAlphabetCode(c: char)
    requires Index(c) >= 0
    ensures Code(c) >= 0
  {
    AlphabetCodes(Index(c));
  }

  lemma PaddedTextStrips(chars: string, padding: string, upper: char -> string, isSpace: char -> bool)
    requires LatinTables(upper, isSpace)
    requires forall i :: 0 <= i < |chars| ==> Code(chars[i]) >= 0
    requires forall i :: 0 <= i < |padding| ==> padding[i] == '='
    ensures Stripped(chars + padding, upper, isSpace) == chars
  {
    UppercasedFixed(chars + padding, upper);
    KeptConcat(chars, padding, isSpace);
    KeptLetters(chars, isSpace);
    KeptPadding(padding, isSpace);
  }

  /** The standard's own text, padding included, strips to the characters that carry the bytes, so
      `DecodeBase32` gives back every byte string whose encoding fits into the limit. */
  lemma EncodedTextStrips(bytes: Bytes, upper: char -> string, isSpace: char -> bool)
    requires LatinTables(upper, isSpace)
    ensures Stripped(EncodeBase32(bytes), upper, isSpace) == Base32Chars(bytes)
  {
    DecodeInvertsEncode(bytes);
    var chars := Base32Chars(bytes);
    forall i | 0 <= i < |chars| ensures Code(chars[i]) >= 0 { InAlphabetCode(chars[i]); }
    PaddedTextStrips(chars, EncodeBase32(bytes)[|chars|..], upper, isSpace);
    assert EncodeBase32(bytes) == chars + EncodeBase32(bytes)[|chars|..];
  }

  // ----- Dynamic truncation

  function At(digest: Bytes, i: nat): nat {
    if i < |digest| then digest[i] as nat else 0
  }

  function DigestOffset(digest: Bytes): nat {
    (if digest == [] then 0 else digest[|digest| - 1] as nat) % 16
  }

  function BinaryCode(digest: Bytes): nat {
    var offset := DigestOffset(digest);
    At(digest, offset) % 128 * 0x100_0000 + At(digest, offset + 1) * 0x1_0000
      + At(digest, offset + 2) * 0x100 + At(digest, offset + 3)
  }

  function PadStart(text: string, width: nat): string {
    if |text| >= width then text else seq(width - |text|, _ => '0') + text
  }

  function Pow10(n: nat): (r: nat)
    ensures r > 0
  {
    if n == 0 then 1 else 10 * Pow10(n - 1)
  }

  function TruncateHmac(digest: Bytes, digits: nat): string {
    PadStart(Decimal(BinaryCode(digest) % Pow10(digits)), digits)
  }

  /** The number a string of digits denotes, -1 when some character is no digit. */
  function Numeral(text: string): int {
    if text == "" then 0
    else
      var c, init := text[|text| - 1], Numeral(text[..|text| - 1]);
      if init < 0 || !('0' <= c <= '9') then -1 else init * 10 + c as int - '0' as int
  }

  lemma TenAtLeast(n: nat, width: nat)
    requires 10 <= n < Pow10(width) && width > 0
    ensures width > 1 && n / 10 < Pow10(width - 1)
  {
    assert Pow10(1) == 10 * Pow10(0);
  }

  lemma {:induction false} DecimalNumeral(n: nat, width: nat)
    requires width > 0 && n < Pow10(width)
    ensures Numeral(Decimal(n)) == n && 1 <= |Decimal(n)| <= width
    decreases n
  {
    var text := Decimal(n);
    if n < 10 {
      assert text[..0] == "";
    } else {
      TenAtLeast(n, width);
      DecimalNumeral(n / 10, width - 1);
      assert text[..|text| - 1] == Decimal(n / 10);
    }
  }

  lemma {:induction false} LeadingZeros(zeros: string, text: string)
    requires forall i :: 0 <= i < |zeros| ==> zeros[i] == '0'
    ensures Numeral(zeros + text) == Numeral(text)
    decreases |text|, |zeros|
  {
    if text != "" {
      assert (zeros + text)[..|zeros + text| - 1] == zeros + text[..|text| - 1];
      LeadingZeros(zeros, text[..|text| - 1]);
    } else if zeros != "" {
      assert zeros + text == zeros;
      LeadingZeros(zeros[..|zeros| - 1], text);
      assert zeros[..|zeros| - 1] + text == zeros[..|zeros| - 1];
    } else {
      assert zeros + text == text;
    }
  }

  lemma PaddedNumeral(n: nat, digits: nat)
    requires digits > 0 && n < Pow10(digits)
    ensures |PadStart(Decimal(n), digits)| == digits && Numeral(PadStart(Decimal(n), digits)) == n
  {
    DecimalNumeral(n, digits);
    var text := Decimal(n);
    if |text| < digits { LeadingZeros(seq(digits - |text|, _ => '0'), text); }
  }

  lemma ThirtyOneBits(a: nat, b: nat, c: nat, d: nat)
    requires a < 256 && b < 256 && c < 256 && d < 256
    ensures (((a * 256 + b) * 256 + c) * 256 + d) % 0x8000_0000
         == a % 128 * 0x100_0000 + b * 0x1_0000 + c * 0x100 + d
  {
    var low := a % 128 * 0x100_0000 + b * 0x1_0000 + c * 0x100 + d;
    assert ((a * 256 + b) * 256 + c) * 256 + d == a / 128 * 0x8000_0000 + low;
  }

  /** Where a digest ends, the source reads zeros. */
  function Extended(digest: Bytes): Bytes { digest + seq(19, _ => 0 as byte) }

  /** For every digest, also one that is too short: the code has exactly `digits` characters, and they spell
      the number that section 5.3 of RFC 4226 describes, modulo 10^digits: the offset is the low half of the
      last byte, and the four bytes from there on are read as a big-endian number without its top bit. */
  lemma TruncationMeaning(digest: Bytes, digits: nat)
    requires 1 <= digits
    ensures |TruncateHmac(digest, digits)| == digits
    ensures digest == [] ==> Numeral(TruncateHmac(digest, digits)) == 0
    ensures digest != [] ==>
              var o := digest[|digest| - 1] as nat % 16;
              Numeral(TruncateHmac(digest, digits))
              == BigEndian(Extended(digest)[o..o + 4]) % 0x8000_0000 % Pow10(digits)
    ensures digest != [] && digest[|digest| - 1] as nat % 16 + 4 <= |digest| ==>
              var o := digest[|digest| - 1] as nat % 16;
              Numeral(TruncateHmac(digest, digits)) == BigEndian(digest[o..o + 4]) % 0x8000_0000 % Pow10(digits)
  {
    TruncatesCode(digest, digits);
    if digest != [] {
      var o := digest[|digest| - 1] as nat % 16;
      CodeOfWindow(digest, o);
      if o + 4 <= |digest| { CodeOfBytes(digest, o); }
    } else {
      assert BinaryCode(digest) == 0;
      ZeroModulo(Pow10(digits));
    }
  }

  lemma TruncatesCode(digest: Bytes, digits: nat)
    requires 1 <= digits
    ensures |TruncateHmac(digest, digits)| == digits
    ensures Numeral(TruncateHmac(digest, digits)) == BinaryCode(digest) % Pow10(digits)
  {
    PaddedNumeral(BinaryCode(digest) % Pow10(digits), digits);
  }

  lemma ZeroModulo(n: nat)
    requires n > 0
    ensures 0 % n == 0
  {}

  lemma CodeOfBytes(digest: Bytes, o: nat)
    requires o + 4 <= |digest| && o < 16
    ensures Extended(digest)[o..o + 4] == digest[o..o + 4]
  {}

  lemma CodeOfWindow(digest: Bytes, o: nat)
    requires digest != [] && o == DigestOffset(digest)
    ensures BinaryCode(digest) == BigEndian(Extended(digest)[o..o + 4]) % 0x8000_0000
  {
    var window := Extended(digest)[o..o + 4];
    forall i | 0 <= i < 4 ensures window[i] as nat == At(digest, o + i) {}
    BigEndian4(window);
    ThirtyOneBits(window[0] as nat, window[1] as nat, window[2] as nat, window[3] as nat);
  }
}
