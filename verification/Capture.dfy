/** The byte-capped capture of command output (packages/paratix/src/sshHelpers.ts), and the whole
    pipeline: masker first, capture behind it. */
module Capture {
  import opened Text
  import opened Redaction
  import opened StreamMasking
  import opened Preemption
  import opened RedactionPieces
  import opened StreamExactness
  import UriComponent

  /** "\n[output truncated]" */
  const TRUNCATION_MARKER: Str := [0x0A, 0x5B, 0x6F, 0x75, 0x74, 0x70, 0x75, 0x74, 0x20, 0x74,
                                   0x72, 0x75, 0x6E, 0x63, 0x61, 0x74, 0x65, 0x64, 0x5D]

  /** The UTF-8 length of the first character; a lone surrogate is encoded as U+FFFD. */
  function CharBytes(text: Str): nat
    requires text != []
  {
    if StartsWithPair(text) then 4
    else if text[0] < 0x80 then 1
    else if text[0] < 0x800 then 2
    else 3
  }

  function ByteLength(text: Str): nat
    decreases |text|
  {
    if text == [] then 0 else CharBytes(text) + ByteLength(text[CharUnits(text)..])
  }

  /** How many bytes a percent-encoded text spells. */
  function EncodedBytes(e: Str): nat
    decreases |e|
  {
    if e == [] then 0 else 1 + EncodedBytes(if e[0] == UriComponent.PERCENT && |e| >= 3 then e[3..] else e[1..])
  }

  lemma {:induction false} EscapesCounted(e: Str, n: nat, rest: Str)
    requires |e| == 3 * n && forall i: nat | i < n :: e[3 * i] == UriComponent.PERCENT
    ensures EncodedBytes(e + rest) == n + EncodedBytes(rest)
    decreases n
  {
    if n == 0 {
      assert e + rest == rest;
    } else {
      assert e[3 * 0] == UriComponent.PERCENT;
      assert (e + rest)[3..] == e[3..] + rest;
      forall i: nat | i < n - 1 ensures e[3..][3 * i] == UriComponent.PERCENT {
        assert e[3..][3 * i] == e[3 * (i + 1)];
      }
      EscapesCounted(e[3..], n - 1, rest);
    }
  }

  lemma EscapeCounted(cp: int, rest: Str)
    requires 0 <= cp < 0x11_0000
    ensures EncodedBytes(UriComponent.Escape(cp) + rest)
         == (if cp < 0x80 then 1 else if cp < 0x800 then 2 else if cp < 0x1_0000 then 3 else 4) + EncodedBytes(rest)
  {
    var e := UriComponent.Escape(cp);
    EscapesCounted(e, |e| / 3, rest);
  }

  /** The byte length is that of the UTF-8 encoding, wherever the text has one. */
  lemma {:induction false} ByteLengthIsUtf8(text: Str)
    requires UriComponent.EncodeUriComponent(text).Some?
    ensures ByteLength(text) == EncodedBytes(UriComponent.EncodeUriComponent(text).value)
    decreases |text|
  {
    if text != [] {
      var rest := UriComponent.EncodeUriComponent(text[CharUnits(text)..]).value;
      ByteLengthIsUtf8(text[CharUnits(text)..]);
      if StartsWithPair(text) {
        EscapeCounted(UriComponent.CodePoint(text[0], text[1]), rest);
      } else if UriComponent.Unescaped(text[0]) {
        assert ([text[0]] + rest)[1..] == rest;
      } else {
        EscapeCounted(text[0] as int, rest);
      }
    }
  }

  /** `n` units are a whole number of characters. */
  predicate WholeChars(text: Str, n: nat)
    requires n <= |text|
    decreases |text|
  {
    n == 0 || (CharUnits(text) <= n && WholeChars(text[CharUnits(text)..], n - CharUnits(text)))
  }

  /** Units of the longest whole-character prefix of at most `maxBytes` bytes. */
  function FitUnits(text: Str, maxBytes: int): (n: nat)
    ensures n <= |text|
    decreases |text|
  {
    if text == [] || CharBytes(text) > maxBytes then 0
    else CharUnits(text) + FitUnits(text[CharUnits(text)..], maxBytes - CharBytes(text))
  }

  lemma {:induction false} FitIsLongest(text: Str, maxBytes: nat, n: nat)
    requires n <= |text| && WholeChars(text, n)
    ensures WholeChars(text, FitUnits(text, maxBytes))
    ensures ByteLength(text[..FitUnits(text, maxBytes)]) <= maxBytes
    ensures n <= FitUnits(text, maxBytes) <==> ByteLength(text[..n]) <= maxBytes
    decreases |text|
  {
    if text != [] {
      var k := CharUnits(text);
      var rest := text[k..];
      PrefixBytes(text, n);
      if CharBytes(text) <= maxBytes {
        FitIsLongest(rest, maxBytes - CharBytes(text), if n == 0 then 0 else n - k);
        PrefixBytes(text, FitUnits(text, maxBytes));
      }
    }
  }

  lemma PrefixBytes(text: Str, n: nat)
    requires text != [] && n <= |text| && WholeChars(text, n)
    ensures n == 0 ==> ByteLength(text[..n]) == 0
    ensures n > 0 ==> ByteLength(text[..n]) == CharBytes(text) + ByteLength(text[CharUnits(text)..][..n - CharUnits(text)])
  {
    if n > 0 {
      var k := CharUnits(text);
      assert text[..n][k..] == text[k..][..n - k];
      assert CharUnits(text[..n]) == k && CharBytes(text[..n]) == CharBytes(text);
    }
  }

  method FitUtf8Prefix(text: Str, maxBytes: nat) returns (prefix: Str)
    ensures prefix == text[..FitUnits(text, maxBytes)]
  {
    var bytes, sliceEnd := 0, 0;
    while sliceEnd < |text|
      invariant 0 <= sliceEnd <= |text| && bytes <= maxBytes
      invariant sliceEnd + FitUnits(text[sliceEnd..], maxBytes - bytes) == FitUnits(text, maxBytes)
      decreases |text| - sliceEnd
    {
      var rest := text[sliceEnd..];
      var charBytes := CharBytes(rest);
      if bytes + charBytes > maxBytes { break; }
      assert text[sliceEnd + CharUnits(rest)..] == rest[CharUnits(rest)..];
      bytes := bytes + charBytes;
      sliceEnd := sliceEnd + CharUnits(rest);
    }
    prefix := text[..sliceEnd];
  }

  // ----- The capture

  datatype CaptureState = CaptureState(text: Str, byteLength: nat, truncated: bool)

  function Append(maxBytes: nat, st: CaptureState, chunk: Str): CaptureState {
    if st.truncated then st
    else
      var remaining := maxBytes - st.byteLength;
      if ByteLength(chunk) <= remaining then
        CaptureState(st.text + chunk, st.byteLength + ByteLength(chunk), false)
      else
        var prefix := if remaining > 0 then chunk[..FitUnits(chunk, remaining)] else [];
        CaptureState(st.text + prefix + TRUNCATION_MARKER, st.byteLength + ByteLength(prefix), true)
  }

  class CapturedOutput {
    const maxBytes: nat
    var text: Str
    var byteLength: nat
    var truncated: bool

    function State(): CaptureState reads this { CaptureState(text, byteLength, truncated) }

    constructor (maxBytes: nat)
      ensures this.maxBytes == maxBytes && State() == CaptureState([], 0, false)
    {
      this.maxBytes := maxBytes;
      text, byteLength, truncated := [], 0, false;
    }

    method AppendChunk(chunk: Str)
      modifies this
      ensures State() == Append(maxBytes, old(State()), chunk)
    {
      if truncated { return; }
      var chunkBytes := ByteLength(chunk);
      var remainingBytes := maxBytes - byteLength;
      if chunkBytes <= remainingBytes {
        text := text + chunk;
        byteLength := byteLength + chunkBytes;
        return;
      }
      if remainingBytes > 0 {
        var prefix := FitUtf8Prefix(chunk, remainingBytes);
        text := text + prefix;
        byteLength := byteLength + ByteLength(prefix);
      } else {
        assert text + [] == text;
      }
      text := text + TRUNCATION_MARKER;
      truncated := true;
    }
  }

  function CaptureAll(maxBytes: nat, chunks: seq<Str>): CaptureState {
    if chunks == [] then CaptureState([], 0, false)
    else Append(maxBytes, CaptureAll(maxBytes, chunks[..|chunks| - 1]), chunks[|chunks| - 1])
  }

  /** The capped form of a whole text, and whether it was cut. */
  function Capped(maxBytes: nat, text: Str): (Str, bool) {
    if ByteLength(text) <= maxBytes then (text, false)
    else (text[..FitUnits(text, maxBytes)] + TRUNCATION_MARKER, true)
  }

  /** No surrogate pair is split between two chunks. */
  ghost predicate PairsIntact(chunks: seq<Str>) {
    chunks == []
    || (PairsIntact(chunks[..|chunks| - 1])
        && !SplitsPair(Concat(chunks[..|chunks| - 1]), chunks[|chunks| - 1]))
  }

  /** Two code units of a pair cost two bytes more apart than together. */
  lemma {:induction false} ByteLengthConcat(a: Str, b: Str)
    ensures ByteLength(a + b) == ByteLength(a) + ByteLength(b) - (if SplitsPair(a, b) then 2 else 0)
    decreases |a|
  {
    if a == [] {
      assert a + b == b;
    } else if |a| == 1 && SplitsPair(a, b) {
      assert (a + b)[2..] == b[1..];
      assert ByteLength(a + b) == 4 + ByteLength(b[1..]);
      assert ByteLength(a) == 3 + ByteLength(a[1..]);
    } else {
      var k := CharUnits(a);
      assert CharUnits(a + b) == k && CharBytes(a + b) == CharBytes(a);
      assert (a + b)[k..] == a[k..] + b;
      ByteLengthConcat(a[k..], b);
    }
  }

  lemma FirstCharConcat(a: Str, b: Str)
    requires a != [] && !SplitsPair(a, b)
    ensures CharUnits(a + b) == CharUnits(a) && CharBytes(a + b) == CharBytes(a)
    ensures (a + b)[CharUnits(a)..] == a[CharUnits(a)..] + b
    ensures !SplitsPair(a[CharUnits(a)..], b)
  {}

  lemma {:induction false} FitConcat(a: Str, b: Str, maxBytes: nat)
    requires !SplitsPair(a, b)
    ensures ByteLength(a) <= maxBytes ==> FitUnits(a + b, maxBytes) == |a| + FitUnits(b, maxBytes - ByteLength(a))
    ensures ByteLength(a) > maxBytes ==> FitUnits(a + b, maxBytes) == FitUnits(a, maxBytes)
    decreases |a|
  {
    if a == [] {
      assert a + b == b;
    } else {
      FirstCharConcat(a, b);
      if CharBytes(a) <= maxBytes { FitConcat(a[CharUnits(a)..], b, maxBytes - CharBytes(a)); }
    }
  }

  ghost function TotalBytes(chunks: seq<Str>): nat {
    if chunks == [] then 0 else TotalBytes(chunks[..|chunks| - 1]) + ByteLength(chunks[|chunks| - 1])
  }

  lemma {:induction false} TotalIsSum(chunks: seq<Str>)
    ensures TotalBytes(chunks) >= ByteLength(Concat(chunks))
    ensures TotalBytes(chunks) == ByteLength(Concat(chunks)) <==> PairsIntact(chunks)
  {
    if chunks != [] {
      var init, last := chunks[..|chunks| - 1], chunks[|chunks| - 1];
      TotalIsSum(init);
      assert chunks == init + [last];
      ConcatSnoc(init, last);
      ByteLengthConcat(Concat(init), last);
    }
  }

  /** The flag tells whether the chunks, measured one by one, exceed the cap. */
  lemma {:induction false} TruncatedIffOver(maxBytes: nat, chunks: seq<Str>)
    ensures var st := CaptureAll(maxBytes, chunks);
            && (st.truncated <==> TotalBytes(chunks) > maxBytes)
            && (!st.truncated ==> st.byteLength == TotalBytes(chunks))
  {
    if chunks != [] { TruncatedIffOver(maxBytes, chunks[..|chunks| - 1]); }
  }

  lemma AppendKeepsCapped(maxBytes: nat, st: CaptureState, whole: Str, last: Str)
    requires !SplitsPair(whole, last) && (st.text, st.truncated) == Capped(maxBytes, whole)
    requires !st.truncated ==> st.byteLength == ByteLength(whole)
    ensures var st' := Append(maxBytes, st, last);
            (st'.text, st'.truncated) == Capped(maxBytes, whole + last)
  {
    ByteLengthConcat(whole, last);
    if ByteLength(whole + last) > maxBytes { CutInConcat(whole, last, maxBytes); }
  }

  lemma {:induction false} CaptureIsCapped(maxBytes: nat, chunks: seq<Str>)
    requires PairsIntact(chunks)
    ensures var st := CaptureAll(maxBytes, chunks);
            (st.text, st.truncated) == Capped(maxBytes, Concat(chunks))
  {
    if chunks != [] {
      var init, last := chunks[..|chunks| - 1], chunks[|chunks| - 1];
      CaptureIsCapped(maxBytes, init);
      TruncatedIffOver(maxBytes, init);
      TotalIsSum(init);
      assert chunks == init + [last];
      ConcatSnoc(init, last);
      AppendKeepsCapped(maxBytes, CaptureAll(maxBytes, init), Concat(init), last);
    }
  }

  lemma CutInConcat(a: Str, b: Str, maxBytes: nat)
    requires !SplitsPair(a, b) && ByteLength(a + b) > maxBytes
    ensures (a + b)[..FitUnits(a + b, maxBytes)]
         == if ByteLength(a) <= maxBytes then a + b[..FitUnits(b, maxBytes - ByteLength(a))]
            else a[..FitUnits(a, maxBytes)]
  {
    FitConcat(a, b, maxBytes);
  }

  /** The capture is the capped form of the whole text for every cap exactly when no chunk boundary
      splits a surrogate pair. */
  lemma CaptureExact(chunks: seq<Str>)
    ensures PairsIntact(chunks)
       <==> forall maxBytes: nat ::
              var st := CaptureAll(maxBytes, chunks);
              (st.text, st.truncated) == Capped(maxBytes, Concat(chunks))
  {
    if PairsIntact(chunks) {
      forall maxBytes: nat
        ensures var st := CaptureAll(maxBytes, chunks);
                (st.text, st.truncated) == Capped(maxBytes, Concat(chunks))
      {
        CaptureIsCapped(maxBytes, chunks);
      }
    } else {
      var maxBytes := ByteLength(Concat(chunks));
      TotalIsSum(chunks);
      TruncatedIffOver(maxBytes, chunks);
      assert CaptureAll(maxBytes, chunks).truncated != Capped(maxBytes, Concat(chunks)).1;
    }
  }

  // ----- The pipeline

  ghost predicate Bmp(text: Str) {
    forall u <- text :: !IsHigh(u) && !IsLow(u)
  }

  lemma {:induction false} BmpPairsIntact(chunks: seq<Str>)
    requires Bmp(Concat(chunks))
    ensures PairsIntact(chunks)
  {
    if chunks != [] {
      var init, last := chunks[..|chunks| - 1], chunks[|chunks| - 1];
      assert chunks == init + [last];
      ConcatSnoc(init, last);
      assert Bmp(Concat(init)) by {
        forall u <- Concat(init) ensures u in Concat(chunks) {}
      }
      BmpPairsIntact(init);
      if last != [] { assert last[0] in Concat(chunks); }
    }
  }

  lemma {:induction false} ReplaceAllBmp(text: Str, v: Str, red: Str)
    requires Bmp(text) && Bmp(red) && v != []
    ensures Bmp(ReplaceAll(text, v, red))
    decreases |text|
  {
    if text != [] {
      if v <= text {
        assert Bmp(text[|v|..]) by { forall u <- text[|v|..] ensures u in text {} }
        ReplaceAllBmp(text[|v|..], v, red);
      } else {
        assert Bmp(text[1..]) by { forall u <- text[1..] ensures u in text {} }
        assert text[0] in text;
        ReplaceAllBmp(text[1..], v, red);
      }
    }
  }

  lemma {:induction false} MaskBmp(variants: seq<Str>, red: Str, text: Str)
    requires Bmp(text) && Bmp(red) && NoneEmpty(variants)
    ensures Bmp(Mask(variants, red, text))
  {
    if variants != [] {
      ReplaceAllBmp(text, variants[0], red);
      MaskBmp(variants[1..], red, ReplaceAll(text, variants[0], red));
    }
  }

  lemma BmpConcat(a: Str, b: Str)
    ensures Bmp(a + b) <==> Bmp(a) && Bmp(b)
  {
    if Bmp(a + b) {
      forall u <- a ensures !IsHigh(u) && !IsLow(u) { assert u in a + b; }
      forall u <- b ensures !IsHigh(u) && !IsLow(u) { assert u in a + b; }
    }
  }

  lemma PushBmp(variants: seq<Str>, st: MaskerState, chunk: Str)
    requires NoneEmpty(variants) && (Overlap(variants) == 0 ==> st.pending == []) && Bmp(st.All()) && Bmp(chunk)
    ensures Bmp(Push(variants, st, chunk).All())
    ensures Overlap(variants) == 0 ==> Push(variants, st, chunk).pending == []
  {
    var pending := st.pending + chunk;
    var masked := Mask(variants, REDACTED, pending);
    BmpConcat(st.Written(), st.pending);
    BmpConcat(st.pending, chunk);
    MaskBmp(variants, REDACTED, pending);
    BmpConcat(st.Written(), pending);
    BmpConcat(st.Written(), masked);
    PushBranches(variants, st, chunk);
    if Push(variants, st, chunk).writes != st.writes { SplitKeepsAll(st, masked, |masked| - Overlap(variants)); }
  }

  lemma {:induction false} PushedBmp(variants: seq<Str>, chunks: seq<Str>)
    requires NoneEmpty(variants) && Bmp(Concat(chunks))
    ensures Bmp(Pushed(variants, chunks).All())
    ensures Overlap(variants) == 0 ==> Pushed(variants, chunks).pending == []
    decreases |chunks|
  {
    if chunks != [] {
      var init, last := chunks[..|chunks| - 1], chunks[|chunks| - 1];
      assert chunks == init + [last];
      ConcatSnoc(init, last);
      BmpConcat(Concat(init), last);
      PushedBmp(variants, init);
      PushBmp(variants, Pushed(variants, init), last);
    }
  }

  /** What a session writes for a text without surrogates has none. */
  lemma SessionBmp(variants: seq<Str>, chunks: seq<Str>)
    requires NoneEmpty(variants) && Bmp(Concat(chunks))
    ensures Bmp(Session(variants, chunks).Written())
  {
    var st := Pushed(variants, chunks);
    PushedBmp(variants, chunks);
    BmpConcat(st.Written(), st.pending);
    MaskBmp(variants, REDACTED, st.pending);
    FlushWrites(variants, st);
    BmpConcat(st.Written(), Mask(variants, REDACTED, st.pending));
  }

  /** Masker and capture: what the capture holds behind the masker. */
  function Pipeline(variants: seq<Str>, maxBytes: nat, chunks: seq<Str>): (Str, bool)
    requires NoneEmpty(variants)
  {
    var st := CaptureAll(maxBytes, Session(variants, chunks).writes);
    (st.text, st.truncated)
  }

  /** End to end, for every chunking of a text without surrogates: the capture holds the capped form of all
      that the session writes; and for clash-free variants that is a redaction of the text with no variant
      left in it. */
  lemma PipelineRedacts(variants: seq<Str>, maxBytes: nat, chunks: seq<Str>)
    requires NoneEmpty(variants) && Bmp(Concat(chunks))
    ensures Pipeline(variants, maxBytes, chunks) == Capped(maxBytes, Session(variants, chunks).Written())
    ensures AllClashFree(variants, REDACTED) ==>
              IsRedaction(variants, REDACTED, Concat(chunks), Session(variants, chunks).Written())
    ensures AllClashFree(variants, REDACTED) ==>
              forall k | 0 <= k < |variants| :: !Contains(variants[k], Session(variants, chunks).Written())
  {
    SessionBmp(variants, chunks);
    BmpPairsIntact(Session(variants, chunks).writes);
    CaptureIsCapped(maxBytes, Session(variants, chunks).writes);
    if AllClashFree(variants, REDACTED) { StreamRedacts(variants, chunks); }
  }

  /** For every limit and every chunking of a text without surrogates, the capture holds the capped form of
      the text masked at once. */
  ghost predicate PipelineLikeBatch(variants: seq<Str>)
    requires NoneEmpty(variants)
  {
    forall maxBytes: nat, chunks: seq<Str> | Bmp(Concat(chunks)) ::
      Pipeline(variants, maxBytes, chunks) == Capped(maxBytes, Mask(variants, REDACTED, Concat(chunks)))
  }

  lemma PipelineShows(variants: seq<Str>, chunks: seq<Str>)
    requires NoneEmpty(variants) && Bmp(Concat(chunks))
    requires Session(variants, chunks).Written() != Mask(variants, REDACTED, Concat(chunks))
    ensures !PipelineLikeBatch(variants)
  {
    var written, whole := Session(variants, chunks).Written(), Mask(variants, REDACTED, Concat(chunks));
    var maxBytes := ByteLength(written) + ByteLength(whole);
    PipelineRedacts(variants, maxBytes, chunks);
    assert Pipeline(variants, maxBytes, chunks) != Capped(maxBytes, whole);
  }

  lemma {:induction false} PaddingBmp(n: nat)
    ensures Bmp(Padding(n))
  {
    if n > 0 {
      PaddingBmp(n - 1);
      BmpConcat(REDACTED, Padding(n - 1));
    }
  }

  lemma CutBmp(variants: seq<Str>, text: Str, more: Str)
    requires Bmp(text) && Bmp(more)
    ensures Bmp(Concat(PaddedCut(variants, text, more)))
  {
    var p := Padding(Overlap(variants) + 1);
    PaddingBmp(Overlap(variants) + 1);
    BmpConcat(p, text);
    BmpConcat(p + text, more);
    assert [p + text, more][1..] == [more] && [more][1..] == [];
    assert Concat([more]) == more + Concat([more][1..]);
  }

  lemma PreemptedPipeline(variants: seq<Str>)
    requires AllClashFree(variants, REDACTED) && Ordered(variants) && !NoPreemption(variants)
    requires forall i | 0 <= i < |variants| :: Bmp(variants[i])
    ensures !PipelineLikeBatch(variants)
  {
    var i, j, k, text := PreemptionShows(variants, REDACTED);
    var u := variants[i];
    assert u == u[..k] + u[k..];
    BmpConcat(u[..k], u[k..]);
    CutBmp(variants, text, u[k..]);
    BoundaryShows(variants, text, u[k..]);
    PipelineShows(variants, PaddedCut(variants, text, u[k..]));
  }

  /** For variants without surrogates, the pipeline is the capped batch result for all limits and chunkings
      if and only if no variant can preempt an earlier one. */
  lemma PipelineLikeBatchExactly(variants: seq<Str>)
    requires AllClashFree(variants, REDACTED) && Ordered(variants)
    requires forall i | 0 <= i < |variants| :: Bmp(variants[i])
    ensures PipelineLikeBatch(variants) <==> NoPreemption(variants)
  {
    if NoPreemption(variants) {
      LawsHold(variants, REDACTED);
      forall maxBytes: nat, chunks: seq<Str> | Bmp(Concat(chunks))
        ensures Pipeline(variants, maxBytes, chunks) == Capped(maxBytes, Mask(variants, REDACTED, Concat(chunks)))
      {
        PipelineRedacts(variants, maxBytes, chunks);
        StreamRefinesBatch(variants, chunks);
      }
    } else {
      PreemptedPipeline(variants);
    }
  }

  /** Feeding every write of the masker to the class gives the same captured text. */
  method CapturePipeline(variants: seq<Str>, maxBytes: nat, chunks: seq<Str>) returns (text: Str, truncated: bool)
    requires NoneEmpty(variants) && Bmp(Concat(chunks))
    ensures (text, truncated) == Capped(maxBytes, Session(variants, chunks).Written())
    ensures AllClashFree(variants, REDACTED) && NoPreemption(variants) ==>
              (text, truncated) == Capped(maxBytes, Mask(variants, REDACTED, Concat(chunks)))
  {
    var writes := RunSession(variants, chunks);
    var output := new CapturedOutput(maxBytes);
    var i := 0;
    while i < |writes|
      invariant 0 <= i <= |writes| && output.maxBytes == maxBytes
      invariant output.State() == CaptureAll(maxBytes, writes[..i])
    {
      assert writes[..i + 1][..i] == writes[..i];
      output.AppendChunk(writes[i]);
      i := i + 1;
    }
    assert writes[..i] == writes;
    PipelineRedacts(variants, maxBytes, chunks);
    if AllClashFree(variants, REDACTED) && NoPreemption(variants) {
      LawsHold(variants, REDACTED);
      StreamRefinesBatch(variants, chunks);
    }
    text, truncated := output.text, output.truncated;
  }
}
