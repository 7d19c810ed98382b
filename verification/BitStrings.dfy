/** Bit strings, the numbers they denote and the bytes they fill. */
module BitStrings {

  import opened ByteStrings

  type Bits = seq<bool>

  function Value(bits: Bits): nat {
    if bits == [] then 0 else 2 * Value(bits[..|bits| - 1]) + if bits[|bits| - 1] then 1 else 0
  }

  /** The `width` low bits of `n`, most significant first. */
  function ToBits(n: nat, width: nat): (bits: Bits)
    ensures |bits| == width
  {
    if width == 0 then [] else ToBits(n / 2, width - 1) + [n % 2 == 1]
  }

  /** The whole bytes of a bit string; a last incomplete byte is dropped. */
  function Octets(bits: Bits): (bytes: Bytes)
    ensures 8 * |bytes| <= |bits| < 8 * |bytes| + 8
    decreases |bits|
  {
    if |bits| < 8 then []
    else
      ValueBound(bits[..8]);
      Pow2Constants();
      [Value(bits[..8]) as byte] + Octets(bits[8..])
  }

  function ByteBits(bytes: Bytes): (bits: Bits)
    ensures |bits| == 8 * |bytes|
  {
    if bytes == [] then [] else ByteBits(bytes[..|bytes| - 1]) + ToBits(bytes[|bytes| - 1] as nat, 8)
  }

  lemma Pow2Constants()
    ensures Pow2(0) == 1 && Pow2(1) == 2 && Pow2(2) == 4 && Pow2(3) == 8 && Pow2(4) == 16
    ensures Pow2(5) == 32 && Pow2(6) == 64 && Pow2(7) == 128 && Pow2(8) == 256
  {
    assert Pow2(2) == 4;
    assert Pow2(4) == 16;
    assert Pow2(6) == 64;
  }

  lemma {:induction false} ValueBound(bits: Bits)
    ensures Value(bits) < Pow2(|bits|)
    decreases |bits|
  {
    if bits != [] { ValueBound(bits[..|bits| - 1]); }
  }

  lemma Doubled(v: nat, p: nat)
    ensures v * (2 * p) == 2 * (v * p)
  {}

  lemma {:induction false} ValueConcat(a: Bits, b: Bits)
    ensures Value(a + b) == Value(a) * Pow2(|b|) + Value(b)
    decreases |b|
  {
    if b == [] {
      assert a + b == a;
    } else {
      var init := b[..|b| - 1];
      assert (a + b)[..|a + b| - 1] == a + init;
      ValueConcat(a, init);
      Doubled(Value(a), Pow2(|init|));
    }
  }

  lemma MultiplyOrder(a: int, b: int, p: nat)
    requires a < b
    ensures a * p + p <= b * p
  {
    assert b * p == a * p + p + (b - a - 1) * p;
  }

  lemma DivisionUnique(n: int, p: nat, q: int, r: int)
    requires n == q * p + r && 0 <= r < p
    ensures n / p == q && n % p == r
  {
    if q < n / p { MultiplyOrder(q, n / p, p); }
    if n / p < q { MultiplyOrder(n / p, q, p); }
  }

  lemma ModuloTwice(n: nat, p: nat)
    requires p > 0
    ensures n % (2 * p) == 2 * (n / 2 % p) + n % 2
  {
    var half := n / 2;
    var q, r := half / p, half % p;
    assert half == q * p + r;
    assert q * (2 * p) == 2 * (q * p);
    DivisionUnique(n, 2 * p, q, 2 * r + n % 2);
  }

  lemma {:induction false} ValueOfToBits(n: nat, width: nat)
    ensures Value(ToBits(n, width)) == n % Pow2(width)
    decreases width
  {
    if width > 0 {
      ValueOfToBits(n / 2, width - 1);
      assert ToBits(n, width)[..width - 1] == ToBits(n / 2, width - 1);
      ModuloTwice(n, Pow2(width - 1));
    }
  }

  lemma {:induction false} ToBitsOfValue(bits: Bits)
    ensures ToBits(Value(bits), |bits|) == bits
    decreases |bits|
  {
    if bits != [] {
      ToBitsOfValue(bits[..|bits| - 1]);
      assert bits == bits[..|bits| - 1] + [bits[|bits| - 1]];
    }
  }

  lemma {:induction false} OctetsConcat(a: Bits, k: nat, b: Bits)
    requires |a| == 8 * k
    ensures Octets(a + b) == Octets(a) + Octets(b)
    decreases k
  {
    if k == 0 {
      assert a + b == b;
    } else {
      assert (a + b)[..8] == a[..8] && (a + b)[8..] == a[8..] + b;
      OctetsConcat(a[8..], k - 1, b);
    }
  }

  lemma OctetsBeforeTail(a: Bits, k: nat, tail: Bits)
    requires |a| == 8 * k && |tail| < 8
    ensures Octets(a + tail) == Octets(a)
  {
    OctetsConcat(a, k, tail);
  }

  lemma OneOctet(octet: Bits)
    requires |octet| == 8
    ensures Value(octet) < 256 && Octets(octet) == [Value(octet) as byte]
  {
    ValueBound(octet);
    Pow2Constants();
    assert octet[..8] == octet;
  }

  lemma ByteOctet(b: byte)
    ensures Octets(ToBits(b as nat, 8)) == [b]
  {
    var octet := ToBits(b as nat, 8);
    assert Value(octet) == b as nat by {
      ValueOfToBits(b as nat, 8);
      Pow2Constants();
    }
    OneOctet(octet);
  }

  lemma {:induction false} OctetsInvertByteBits(bytes: Bytes)
    ensures Octets(ByteBits(bytes)) == bytes
    decreases |bytes|
  {
    if bytes != [] {
      var n := |bytes| - 1;
      OctetsInvertByteBits(bytes[..n]);
      ByteOctet(bytes[n]);
      OctetsConcat(ByteBits(bytes[..n]), n, ToBits(bytes[n] as nat, 8));
      assert bytes == bytes[..n] + [bytes[n]];
    }
  }
}
