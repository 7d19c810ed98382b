/** encodeURIComponent as sections 19.2.6.4 and 19.2.6.5 of ECMA-262 define it, and what the leak theorems
    need of it. */
module UriComponent {
  import opened Text
  import opened Redaction
  import opened Wrappers

  const PERCENT: CodeUnit := 0x25

  /** Letters, digits and `-_.!~*'()` are not escaped. */
  predicate Unescaped(u: CodeUnit) {
    || 0x41 <= u <= 0x5A || 0x61 <= u <= 0x7A || 0x30 <= u <= 0x39
    || u == 0x2D || u == 0x5F || u == 0x2E || u == 0x21 || u == 0x7E || u == 0x2A || 0x27 <= u <= 0x29
  }

  function HexDigit(d: int): CodeUnit
    requires 0 <= d < 16
  {
    (if d < 10 then 0x30 + d else 0x37 + d) as CodeUnit
  }

  function EscapeByte(b: int): Str
    requires 0 <= b < 0x100
  {
    [PERCENT, HexDigit(b / 16), HexDigit(b % 16)]
  }

  /** The escaped UTF-8 bytes of a code point. */
  function Escape(cp: int): Str
    requires 0 <= cp < 0x11_0000
  {
    if cp < 0x80 then EscapeByte(cp)
    else if cp < 0x800 then EscapeByte(0xC0 + cp / 0x40) + EscapeByte(0x80 + cp % 0x40)
    else if cp < 0x1_0000 then
      EscapeByte(0xE0 + cp / 0x1000) + EscapeByte(0x80 + cp / 0x40 % 0x40) + EscapeByte(0x80 + cp % 0x40)
    else
      EscapeByte(0xF0 + cp / 0x4_0000) + EscapeByte(0x80 + cp / 0x1000 % 0x40)
      + EscapeByte(0x80 + cp / 0x40 % 0x40) + EscapeByte(0x80 + cp % 0x40)
  }

  function CodePoint(high: CodeUnit, low: CodeUnit): (cp: int)
    requires IsHigh(high) && IsLow(low)
    ensures 0x1_0000 <= cp < 0x11_0000
  {
    0x1_0000 + (high as int - 0xD800) * 0x400 + (low as int - 0xDC00)
  }

  /** The first character, encoded; None for a lone surrogate. */
  function EncodeFirst(s: Str): Option<Str>
    requires s != []
  {
    if StartsWithPair(s) then Some(Escape(CodePoint(s[0], s[1])))
    else if IsHigh(s[0]) || IsLow(s[0]) then None
    else if Unescaped(s[0]) then Some([s[0]])
    else Some(Escape(s[0] as int))
  }

  function Joined(a: Option<Str>, b: Option<Str>): Option<Str> {
    if a.None? || b.None? then None else Some(a.value + b.value)
  }

  /** None where the original throws a URIError. */
  function EncodeUriComponent(s: Str): Option<Str>
    decreases |s|
  {
    if s == [] then Some([]) else Joined(EncodeFirst(s), EncodeUriComponent(s[CharUnits(s)..]))
  }

  /** Upper-case digits, as the standard has it. */
  lemma HexDigits(d: int)
    requires 0 <= d < 16
    ensures HexDigit(d) as int == "0123456789ABCDEF"[d] as int
  {}

  // ----- Its units

  predicate Plain(u: CodeUnit) { Unescaped(u) || u == PERCENT }

  lemma EscapeIsPlain(cp: int)
    requires 0 <= cp < 0x11_0000
    ensures forall i | 0 <= i < |Escape(cp)| :: Plain(Escape(cp)[i])
  {}

  lemma {:induction false} EncodedIsPlain(s: Str)
    requires EncodeUriComponent(s).Some?
    ensures forall i | 0 <= i < |EncodeUriComponent(s).value| :: Plain(EncodeUriComponent(s).value[i])
    decreases |s|
  {
    if s != [] {
      EncodedIsPlain(s[CharUnits(s)..]);
      if StartsWithPair(s) { EscapeIsPlain(CodePoint(s[0], s[1])); } else { EscapeIsPlain(s[0] as int); }
    }
  }

  /** What encoding changes, it makes longer by two units or more. */
  lemma {:induction false} EncodedLength(s: Str)
    requires EncodeUriComponent(s).Some?
    ensures EncodeUriComponent(s).value == s || |EncodeUriComponent(s).value| >= |s| + 2
    decreases |s|
  {
    if s != [] {
      var k := CharUnits(s);
      EncodedLength(s[k..]);
      assert s == s[..k] + s[k..];
    }
  }

  /** And it writes an escape. */
  lemma {:induction false} EncodedEscapes(s: Str)
    requires EncodeUriComponent(s).Some? && EncodeUriComponent(s).value != s
    ensures PERCENT in EncodeUriComponent(s).value
    decreases |s|
  {
    if s != [] {
      var k := CharUnits(s);
      if EncodeUriComponent(s[k..]).value != s[k..] { EncodedEscapes(s[k..]); }
      assert s == s[..k] + s[k..];
      if !Unescaped(s[0]) { assert EncodeUriComponent(s).value[0] == PERCENT; }
    }
  }

  lemma EscapeHasNo(u: CodeUnit, cp: int)
    requires 0 <= cp < 0x11_0000 && u < 0x30 && u != PERCENT
    ensures u !in Escape(cp)
  {}

  /** A mark other than the percent sign comes from the text. */
  lemma {:induction false} EncodedMark(u: CodeUnit, s: Str)
    requires EncodeUriComponent(s).Some? && u < 0x30 && u != PERCENT && u in EncodeUriComponent(s).value
    ensures u in s
    decreases |s|
  {
    if s != [] {
      var k := CharUnits(s);
      if u in EncodeUriComponent(s[k..]).value { EncodedMark(u, s[k..]); }
      if StartsWithPair(s) { EscapeHasNo(u, CodePoint(s[0], s[1])); } else { EscapeHasNo(u, s[0] as int); }
    }
  }

  // ----- Encoding in parts

  lemma EncodeFirstConcat(a: Str, b: Str)
    requires a != [] && !SplitsPair(a, b)
    ensures StartsWithPair(a + b) == StartsWithPair(a) && EncodeFirst(a + b) == EncodeFirst(a)
    ensures (a + b)[CharUnits(a)..] == a[CharUnits(a)..] + b && !SplitsPair(a[CharUnits(a)..], b)
  {
    assert (a + b)[0] == a[0];
    assert |a| >= 2 ==> (a + b)[1] == a[1];
    assert |a| == 1 && b != [] ==> (a + b)[1] == b[0];
  }

  lemma JoinedThrice(a: Option<Str>, b: Option<Str>, c: Option<Str>)
    ensures Joined(Joined(a, b), c) == Joined(a, Joined(b, c))
  {
    if a.Some? && b.Some? && c.Some? { assert a.value + b.value + c.value == a.value + (b.value + c.value); }
  }

  lemma {:induction false} EncodeConcat(a: Str, b: Str)
    requires !SplitsPair(a, b)
    ensures EncodeUriComponent(a + b) == Joined(EncodeUriComponent(a), EncodeUriComponent(b))
    decreases |a|
  {
    if a == [] {
      assert a + b == b;
      if EncodeUriComponent(b).Some? { assert [] + EncodeUriComponent(b).value == EncodeUriComponent(b).value; }
    } else {
      EncodeFirstConcat(a, b);
      EncodeConcat(a[CharUnits(a)..], b);
      JoinedThrice(EncodeFirst(a), EncodeUriComponent(a[CharUnits(a)..]), EncodeUriComponent(b));
    }
  }

  lemma {:induction false} EncodeUnescaped(s: Str)
    requires forall i | 0 <= i < |s| :: Unescaped(s[i])
    ensures EncodeUriComponent(s) == Some(s)
    decreases |s|
  {
    if s != [] {
      EncodeUnescaped(s[1..]);
      assert s == [s[0]] + s[1..];
    }
  }

  // ----- Escapes come from their characters

  /** In the escape of one character, another character's escape does not begin. */
  lemma EscapeWithin(c: int, cp: int, rest: Str, k: nat)
    requires 0x10 <= c < 0x80 && 0 <= cp < 0x11_0000 && k < |Escape(cp)|
    requires OccursAt(EscapeByte(c), Escape(cp) + rest, k)
    ensures cp == c
  {
    var e, t := EscapeByte(c), Escape(cp) + rest;
    assert t[k..k + 3] == e;
    assert t[k] == e[0] && t[k + 1] == e[1] && t[k + 2] == e[2];
    assert t[k] == Escape(cp)[k];
    assert k == 0 || k == 3 || k == 6 || k == 9;
    assert t[k + 1] == Escape(cp)[k + 1] && t[k + 2] == Escape(cp)[k + 2];
  }

  lemma {:induction false} EscapeOccurs(c: CodeUnit, s: Str, k: nat)
    requires EncodeUriComponent(s).Some? && 0x10 <= c < 0x80 && !Unescaped(c)
    requires OccursAt(EscapeByte(c as int), EncodeUriComponent(s).value, k)
    ensures c in s
    decreases |s|
  {
    var n := CharUnits(s);
    var first, rest := EncodeFirst(s).value, EncodeUriComponent(s[n..]).value;
    var e := EscapeByte(c as int);
    assert EncodeUriComponent(s).value == first + rest;
    assert (first + rest)[k] == (first + rest)[k..k + 3][0] == PERCENT;
    if k >= |first| {
      assert (first + rest)[k..k + 3] == rest[k - |first|..k - |first| + 3];
      EscapeOccurs(c, s[n..], k - |first|);
    } else if StartsWithPair(s) {
      EscapeWithin(c as int, CodePoint(s[0], s[1]), rest, k);
    } else if !Unescaped(s[0]) {
      EscapeWithin(c as int, s[0] as int, rest, k);
    }
  }

  // ----- Decoding gives the text back

  function HexValue(u: CodeUnit): int { if u < 0x3A then u as int - 0x30 else u as int - 0x37 }

  /** The byte that the escape at `3 * i` spells. */
  function ByteAt(e: Str, i: nat): int
    requires 3 * i + 2 < |e|
  {
    HexValue(e[3 * i + 1]) * 16 + HexValue(e[3 * i + 2])
  }

  /** Bytes of a UTF-8 sequence (RFC 3629, section 3), from its first one. */
  function SequenceBytes(first: int): nat {
    if first < 0x80 then 1 else if first < 0xE0 then 2 else if first < 0xF0 then 3 else 4
  }

  /** The low six bits of every byte behind the first, below what the first one carries. */
  function Payload(e: Str, i: nat): int
    requires 3 * i + 2 < |e|
  {
    var b := ByteAt(e, i);
    if i > 0 then 64 * Payload(e, i - 1) + (b - 0x80)
    else if b < 0x80 then b else if b < 0xE0 then b - 0xC0 else if b < 0xF0 then b - 0xE0 else b - 0xF0
  }

  /** UTF-16 (RFC 2781, section 2.1); nothing for what is no code point. */
  function Units(cp: int): Str {
    if 0 <= cp < 0x1_0000 then [cp as CodeUnit]
    else if 0x1_0000 <= cp < 0x11_0000 then
      [(0xD800 + (cp - 0x1_0000) / 0x400) as CodeUnit, (0xDC00 + (cp - 0x1_0000) % 0x400) as CodeUnit]
    else []
  }

  /** The code units that a text with escapes stands for. */
  function Decoded(e: Str): Str
    decreases |e|
  {
    if e == [] then []
    else if e[0] != PERCENT then [e[0]] + Decoded(e[1..])
    else if |e| < 3 || |e| < 3 * SequenceBytes(ByteAt(e, 0)) then []
    else
      var n := SequenceBytes(ByteAt(e, 0));
      Units(Payload(e, n - 1)) + Decoded(e[3 * n..])
  }

  /** One byte more: a lead byte, or six bits behind what came before. */
  lemma ByteReadBack(front: Str, b: int, back: Str, i: nat)
    requires 0 <= b < 0x100 && |front| == 3 * i
    ensures |front + EscapeByte(b) + back| > 3 * i + 2
    ensures ByteAt(front + EscapeByte(b) + back, i) == b
  {
    var e := front + EscapeByte(b) + back;
    assert e[3 * i + 1] == HexDigit(b / 16) && e[3 * i + 2] == HexDigit(b % 16);
  }

  lemma EscapeLength(cp: int)
    requires 0 <= cp < 0x11_0000
    ensures |Escape(cp)| == if cp < 0x80 then 3 else if cp < 0x800 then 6 else if cp < 0x1_0000 then 9 else 12
  {}

  lemma EscapeLead(cp: int, rest: Str)
    requires 0 <= cp < 0x11_0000
    ensures |Escape(cp) + rest| >= 3 && (Escape(cp) + rest)[0] == PERCENT
    ensures 3 * SequenceBytes(ByteAt(Escape(cp) + rest, 0)) == |Escape(cp)|
  {
    var e := Escape(cp) + rest;
    if cp < 0x80 {
      assert e == [] + EscapeByte(cp) + rest;
      ByteReadBack([], cp, rest, 0);
    } else if cp < 0x800 {
      var back := EscapeByte(0x80 + cp % 0x40) + rest;
      assert e == [] + EscapeByte(0xC0 + cp / 0x40) + back;
      ByteReadBack([], 0xC0 + cp / 0x40, back, 0);
    } else if cp < 0x1_0000 {
      var back := EscapeByte(0x80 + cp / 0x40 % 0x40) + EscapeByte(0x80 + cp % 0x40) + rest;
      assert e == [] + EscapeByte(0xE0 + cp / 0x1000) + back;
      ByteReadBack([], 0xE0 + cp / 0x1000, back, 0);
    } else {
      var back := EscapeByte(0x80 + cp / 0x1000 % 0x40) + EscapeByte(0x80 + cp / 0x40 % 0x40)
                  + EscapeByte(0x80 + cp % 0x40) + rest;
      assert e == [] + EscapeByte(0xF0 + cp / 0x4_0000) + back;
      ByteReadBack([], 0xF0 + cp / 0x4_0000, back, 0);
    }
  }

  lemma PayloadOfTwo(cp: int, rest: Str)
    requires 0x80 <= cp < 0x800
    ensures |Escape(cp)| == 6 && Payload(Escape(cp) + rest, 1) == cp
  {
    var e, b0, b1 := Escape(cp) + rest, 0xC0 + cp / 0x40, 0x80 + cp % 0x40;
    assert e == [] + EscapeByte(b0) + (EscapeByte(b1) + rest);
    ByteReadBack([], b0, EscapeByte(b1) + rest, 0);
    assert e == EscapeByte(b0) + EscapeByte(b1) + rest;
    ByteReadBack(EscapeByte(b0), b1, rest, 1);
    assert Payload(e, 0) == cp / 0x40;
  }

  lemma PayloadOfThree(cp: int, rest: Str)
    requires 0x800 <= cp < 0x1_0000
    ensures |Escape(cp)| == 9 && Payload(Escape(cp) + rest, 2) == cp
  {
    var e, b0, b1, b2 := Escape(cp) + rest, 0xE0 + cp / 0x1000, 0x80 + cp / 0x40 % 0x40, 0x80 + cp % 0x40;
    assert e == [] + EscapeByte(b0) + (EscapeByte(b1) + EscapeByte(b2) + rest);
    ByteReadBack([], b0, EscapeByte(b1) + EscapeByte(b2) + rest, 0);
    assert e == EscapeByte(b0) + EscapeByte(b1) + (EscapeByte(b2) + rest);
    ByteReadBack(EscapeByte(b0), b1, EscapeByte(b2) + rest, 1);
    assert e == EscapeByte(b0) + EscapeByte(b1) + EscapeByte(b2) + rest;
    ByteReadBack(EscapeByte(b0) + EscapeByte(b1), b2, rest, 2);
    assert Payload(e, 0) == cp / 0x1000;
    assert Payload(e, 1) == cp / 0x40;
  }

  lemma FourBytes(b0: int, b1: int, b2: int, b3: int, rest: Str)
    requires 0xF0 <= b0 < 0x100 && 0 <= b1 < 0x100 && 0 <= b2 < 0x100 && 0 <= b3 < 0x100
    ensures Payload(EscapeByte(b0) + EscapeByte(b1) + EscapeByte(b2) + EscapeByte(b3) + rest, 3)
         == 64 * (64 * (64 * (b0 - 0xF0) + (b1 - 0x80)) + (b2 - 0x80)) + (b3 - 0x80)
  {
    var e := EscapeByte(b0) + EscapeByte(b1) + EscapeByte(b2) + EscapeByte(b3) + rest;
    assert e == [] + EscapeByte(b0) + (EscapeByte(b1) + EscapeByte(b2) + EscapeByte(b3) + rest);
    ByteReadBack([], b0, EscapeByte(b1) + EscapeByte(b2) + EscapeByte(b3) + rest, 0);
    assert e == EscapeByte(b0) + EscapeByte(b1) + (EscapeByte(b2) + EscapeByte(b3) + rest);
    ByteReadBack(EscapeByte(b0), b1, EscapeByte(b2) + EscapeByte(b3) + rest, 1);
    assert e == EscapeByte(b0) + EscapeByte(b1) + EscapeByte(b2) + (EscapeByte(b3) + rest);
    ByteReadBack(EscapeByte(b0) + EscapeByte(b1), b2, EscapeByte(b3) + rest, 2);
    ByteReadBack(EscapeByte(b0) + EscapeByte(b1) + EscapeByte(b2), b3, rest, 3);
    assert Payload(e, 1) == 64 * (b0 - 0xF0) + (b1 - 0x80);
  }

  lemma BySixBits(cp: int)
    requires 0 <= cp
    ensures cp / 0x40 == 64 * (cp / 0x1000) + cp / 0x40 % 0x40
    ensures cp / 0x1000 == 64 * (cp / 0x4_0000) + cp / 0x1000 % 0x40
  {
    assert cp / 0x40 / 0x40 == cp / 0x1000;
    assert cp / 0x1000 / 0x40 == cp / 0x4_0000;
  }

  lemma PayloadOfFour(cp: int, rest: Str)
    requires 0x1_0000 <= cp < 0x11_0000
    ensures |Escape(cp)| == 12 && Payload(Escape(cp) + rest, 3) == cp
  {
    EscapeLength(cp);
    BySixBits(cp);
    FourBytes(0xF0 + cp / 0x4_0000, 0x80 + cp / 0x1000 % 0x40, 0x80 + cp / 0x40 % 0x40, 0x80 + cp % 0x40, rest);
  }

  lemma EscapeDecodes(cp: int, rest: Str)
    requires 0 <= cp < 0x11_0000
    ensures Decoded(Escape(cp) + rest) == Units(cp) + Decoded(rest)
  {
    var e := Escape(cp) + rest;
    EscapeLength(cp);
    EscapeLead(cp, rest);
    assert e[|Escape(cp)|..] == rest;
    if cp < 0x80 {
      assert e == [] + EscapeByte(cp) + rest;
      ByteReadBack([], cp, rest, 0);
    } else if cp < 0x800 {
      PayloadOfTwo(cp, rest);
    } else if cp < 0x1_0000 {
      PayloadOfThree(cp, rest);
    } else {
      PayloadOfFour(cp, rest);
    }
  }

  lemma UnitsOfPair(high: CodeUnit, low: CodeUnit)
    requires IsHigh(high) && IsLow(low)
    ensures Units(CodePoint(high, low)) == [high, low]
  {}

  lemma FirstDecodes(s: Str, rest: Str)
    requires s != [] && EncodeFirst(s).Some?
    ensures Decoded(EncodeFirst(s).value + rest) == s[..CharUnits(s)] + Decoded(rest)
  {
    if StartsWithPair(s) {
      EscapeDecodes(CodePoint(s[0], s[1]), rest);
      UnitsOfPair(s[0], s[1]);
    } else if Unescaped(s[0]) {
      assert ([s[0]] + rest)[1..] == rest;
    } else {
      EscapeDecodes(s[0] as int, rest);
    }
  }

  lemma EncodedInTwo(s: Str)
    requires s != [] && EncodeUriComponent(s).Some?
    ensures EncodeFirst(s).Some? && EncodeUriComponent(s[CharUnits(s)..]).Some?
    ensures EncodeUriComponent(s).value == EncodeFirst(s).value + EncodeUriComponent(s[CharUnits(s)..]).value
  {}

  /** Whatever can be encoded, decoding gives it back: no two texts have the same encoding. */
  lemma {:induction false} DecodeInvertsEncode(s: Str)
    requires EncodeUriComponent(s).Some?
    ensures Decoded(EncodeUriComponent(s).value) == s
    decreases |s|
  {
    if s != [] {
      var n := CharUnits(s);
      EncodedInTwo(s);
      var rest := s[n..];
      DecodeInvertsEncode(rest);
      FirstDecodes(s, EncodeUriComponent(rest).value);
      assert s == s[..n] + rest;
    }
  }
}
