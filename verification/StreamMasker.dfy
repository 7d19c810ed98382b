/** The sliding-window masker for live output (packages/paratix/src/sshHelpers.ts): it never writes a
    clash-free variant, however the text is cut into chunks, and where masking a front first never shows it
    writes exactly what masking the whole text at once gives. */
module StreamMasking {
  import opened Text
  import opened Redaction

  function MaxLength(variants: seq<Str>): (max: nat)
    ensures forall i | 0 <= i < |variants| :: |variants[i]| <= max
  {
    if variants == [] then 0
    else
      var rest := MaxLength(variants[1..]);
      assert forall i | 1 <= i < |variants| :: variants[i] == variants[1..][i - 1];
      if |variants[0]| > rest then |variants[0]| else rest
  }

  function Overlap(variants: seq<Str>): nat {
    if MaxLength(variants) == 0 then 0 else MaxLength(variants) - 1
  }

  /** The window is one unit less than the longest variant, and there is none if no variant has two units. */
  lemma OverlapMeaning(variants: seq<Str>, longest: nat)
    requires forall i | 0 <= i < |variants| :: |variants[i]| <= longest
    requires longest > 1 ==> exists i | 0 <= i < |variants| :: |variants[i]| == longest
    ensures Overlap(variants) == if longest > 1 then longest - 1 else 0
  {
    if MaxLength(variants) > 0 { LongestIsThere(variants); }
  }

  lemma {:induction false} LongestIsThere(variants: seq<Str>)
    requires MaxLength(variants) > 0
    ensures exists i | 0 <= i < |variants| :: |variants[i]| == MaxLength(variants)
    decreases |variants|
  {
    if |variants[0]| <= MaxLength(variants[1..]) {
      LongestIsThere(variants[1..]);
      var i :| 0 <= i < |variants[1..]| && |variants[1..][i]| == MaxLength(variants[1..]);
      assert |variants[i + 1]| == MaxLength(variants);
    }
  }

  /** `pending` is the buffered window, `writes` the arguments of the write callback so far. */
  datatype MaskerState = MaskerState(pending: Str, writes: seq<Str>) {
    ghost function Written(): Str { Concat(writes) }

    /** Everything there is: what is written, and what is still buffered. */
    ghost function All(): Str { Written() + pending }
  }

  function Push(variants: seq<Str>, st: MaskerState, chunk: Str): MaskerState
    requires NoneEmpty(variants)
  {
    var overlap := Overlap(variants);
    if overlap == 0 then st.(writes := st.writes + [Mask(variants, REDACTED, chunk)])
    else
      var pending := st.pending + chunk;
      if |pending| <= overlap then st.(pending := pending)
      else
        var masked := Mask(variants, REDACTED, pending);
        if |masked| <= overlap then st.(pending := masked)
        else MaskerState(masked[|masked| - overlap..], st.writes + [masked[..|masked| - overlap]])
  }

  function Flush(variants: seq<Str>, st: MaskerState): MaskerState
    requires NoneEmpty(variants)
  {
    if st.pending == [] then st
    else MaskerState([], st.writes + [Mask(variants, REDACTED, st.pending)])
  }

  class StreamMasker {
    const variants: seq<Str>
    var pending: Str
    var writes: seq<Str>

    function State(): MaskerState reads this { MaskerState(pending, writes) }

    constructor (variants: seq<Str>)
      ensures this.variants == variants && State() == MaskerState([], [])
    {
      this.variants := variants;
      pending, writes := [], [];
    }

    method PushChunk(chunk: Str)
      requires NoneEmpty(variants)
      modifies this
      ensures State() == Push(variants, old(State()), chunk)
    {
      var overlap := Overlap(variants);
      if overlap == 0 {
        var written := MaskText(variants, chunk);
        writes := writes + [written];
        return;
      }
      pending := pending + chunk;
      if |pending| <= overlap { return; }
      var masked := MaskText(variants, pending);
      if |masked| <= overlap {
        pending := masked;
        return;
      }
      writes := writes + [masked[..|masked| - overlap]];
      pending := masked[|masked| - overlap..];
    }

    method FlushPending()
      requires NoneEmpty(variants)
      modifies this
      ensures State() == Flush(variants, old(State()))
    {
      if |pending| > 0 {
        var written := MaskText(variants, pending);
        writes := writes + [written];
        pending := [];
      }
    }
  }

  /** The state after `chunks`, before the flush. */
  function Pushed(variants: seq<Str>, chunks: seq<Str>): MaskerState
    requires NoneEmpty(variants)
  {
    if chunks == [] then MaskerState([], [])
    else Push(variants, Pushed(variants, chunks[..|chunks| - 1]), chunks[|chunks| - 1])
  }

  function Session(variants: seq<Str>, chunks: seq<Str>): MaskerState
    requires NoneEmpty(variants)
  {
    Flush(variants, Pushed(variants, chunks))
  }

  /** Driving the class over a list of chunks is a session. */
  method RunSession(variants: seq<Str>, chunks: seq<Str>) returns (writes: seq<Str>)
    requires NoneEmpty(variants)
    ensures writes == Session(variants, chunks).writes
  {
    var masker := new StreamMasker(variants);
    var i := 0;
    while i < |chunks|
      invariant 0 <= i <= |chunks| && masker.variants == variants
      invariant masker.State() == Pushed(variants, chunks[..i])
    {
      assert chunks[..i + 1][..i] == chunks[..i];
      masker.PushChunk(chunks[i]);
      i := i + 1;
    }
    assert chunks[..i] == chunks;
    masker.FlushPending();
    writes := masker.writes;
  }

  // ----- The window

  lemma SplitKeepsAll(st: MaskerState, masked: Str, cut: nat)
    requires cut <= |masked|
    ensures MaskerState(masked[cut..], st.writes + [masked[..cut]]).All() == st.Written() + masked
  {
    ConcatSnoc(st.writes, masked[..cut]);
    assert masked[..cut] + masked[cut..] == masked;
  }

  /** While the window is not full, pushing twice is pushing once. */
  lemma PushTwice(variants: seq<Str>, st: MaskerState, a: Str, b: Str)
    requires NoneEmpty(variants) && Overlap(variants) > 0 && |st.pending + a| <= Overlap(variants)
    ensures Push(variants, Push(variants, st, a), b) == Push(variants, st, a + b)
  {
    assert st.pending + a + b == st.pending + (a + b);
  }

  /** The window never holds more than it may, whatever the chunks. */
  lemma {:induction false} WindowBounded(variants: seq<Str>, chunks: seq<Str>)
    requires NoneEmpty(variants)
    ensures |Pushed(variants, chunks).pending| <= Overlap(variants)
    decreases |chunks|
  {
    if chunks != [] { WindowBounded(variants, chunks[..|chunks| - 1]); }
  }

  /** Before the window is full the text stays as it came. */
  lemma PushKeeps(variants: seq<Str>, st: MaskerState, chunk: Str)
    requires NoneEmpty(variants) && Overlap(variants) > 0 && |st.pending + chunk| <= Overlap(variants)
    ensures Push(variants, st, chunk).pending == st.pending + chunk
    ensures Push(variants, st, chunk).Written() == st.Written()
  {}

  /** Once it is full, as much of the masked text as fits stays in it, and the rest is written. */
  lemma PushFills(variants: seq<Str>, st: MaskerState, chunk: Str)
    requires NoneEmpty(variants) && |st.pending| <= Overlap(variants) < |st.pending + chunk|
    ensures var masked, st' := Mask(variants, REDACTED, st.pending + chunk), Push(variants, st, chunk);
            && IsSuffix(st'.pending, masked)
            && |st'.pending| == (if |masked| < Overlap(variants) then |masked| else Overlap(variants))
            && st'.All() == st.Written() + masked
  {
    var masked := Mask(variants, REDACTED, st.pending + chunk);
    if Overlap(variants) == 0 {
      assert st.pending + chunk == chunk;
      ConcatSnoc(st.writes, masked);
    } else if |masked| > Overlap(variants) {
      SplitKeepsAll(st, masked, |masked| - Overlap(variants));
    }
  }

  lemma {:induction false} PushedBehind(variants: seq<Str>, a: seq<Str>, b: seq<Str>, after: seq<Str>)
    requires NoneEmpty(variants) && Pushed(variants, a) == Pushed(variants, b)
    ensures Pushed(variants, a + after) == Pushed(variants, b + after)
    decreases |after|
  {
    if after == [] {
      assert a + [] == a && b + [] == b;
    } else {
      var init, last := after[..|after| - 1], after[|after| - 1];
      PushedBehind(variants, a, b, init);
      assert a + after == (a + init) + [last] && b + after == (b + init) + [last];
      PushedSnoc(variants, a + init, last);
      PushedSnoc(variants, b + init, last);
    }
  }

  lemma PushedSnoc(variants: seq<Str>, chunks: seq<Str>, last: Str)
    requires NoneEmpty(variants)
    ensures Pushed(variants, chunks + [last]) == Push(variants, Pushed(variants, chunks), last)
  {
    assert (chunks + [last])[..|chunks|] == chunks;
  }

  /** A chunk boundary that falls before the window is full shows in no session. */
  lemma BoundaryHidden(variants: seq<Str>, before: seq<Str>, a: Str, b: Str, after: seq<Str>)
    requires NoneEmpty(variants) && Overlap(variants) > 0
    requires |Pushed(variants, before).pending + a| <= Overlap(variants)
    ensures Session(variants, before + [a, b] + after) == Session(variants, before + [a + b] + after)
  {
    assert before + [a, b] == before + [a] + [b];
    PushedSnoc(variants, before, a);
    PushedSnoc(variants, before + [a], b);
    PushedSnoc(variants, before, a + b);
    PushTwice(variants, Pushed(variants, before), a, b);
    PushedBehind(variants, before + [a, b], before + [a + b], after);
  }

  // ----- Sealed prefixes: whatever follows, no variant starts in them

  ghost predicate Sealed(v: Str, n: nat, written: Str, pending: Str) {
    forall more: Str, i: int | 0 <= i < n :: !OccursAt(v, written + pending + more, i)
  }

  ghost predicate AllSealed(variants: seq<Str>, written: Str, pending: Str) {
    forall k | 0 <= k < |variants| :: Sealed(variants[k], |written|, written, pending)
  }

  lemma SealedAppend(v: Str, n: nat, written: Str, pending: Str, chunk: Str)
    requires Sealed(v, n, written, pending)
    ensures Sealed(v, n, written, pending + chunk)
  {
    forall more: Str, i | 0 <= i < n ensures !OccursAt(v, written + (pending + chunk) + more, i) {
      assert written + (pending + chunk) + more == written + pending + (chunk + more);
    }
  }

  lemma SealedShift(v: Str, n: nat, written: Str, first: Str, pending: Str)
    ensures Sealed(v, n, written + first, pending) <==> Sealed(v, n, written, first + pending)
  {
    forall more: Str
      ensures written + first + pending + more == written + (first + pending) + more
    {}
    assert (written + first) + pending == written + (first + pending);
  }

  /** Masking the pending part keeps the seal, also when the replacement makes it shorter. */
  lemma {:induction false} SealedPass(v: Str, n: nat, written: Str, pending: Str, w: Str)
    requires ClashFree(v, REDACTED) && w != [] && n <= |written|
    requires Sealed(v, n, written, pending)
    ensures Sealed(v, n, written, ReplaceAll(pending, w, REDACTED))
    decreases |pending|
  {
    if pending == [] {
    } else if w <= pending {
      var rest := ReplaceAll(pending[|w|..], w, REDACTED);
      forall more: Str, i | 0 <= i < n ensures !OccursAt(v, written + (REDACTED + rest) + more, i) {
        SealedBeforePlaceholder(v, n, written, pending, rest + more, i);
        assert written + (REDACTED + rest) + more == written + REDACTED + (rest + more);
      }
    } else {
      var first := [pending[0]];
      assert pending == first + pending[1..];
      SealedShift(v, n, written, first, pending[1..]);
      SealedPass(v, n, written + first, pending[1..], w);
      SealedShift(v, n, written, first, ReplaceAll(pending[1..], w, REDACTED));
    }
  }

  lemma SealedBeforePlaceholder(v: Str, n: nat, written: Str, pending: Str, more: Str, i: nat)
    requires ClashFree(v, REDACTED) && n <= |written| && i < n
    requires Sealed(v, n, written, pending)
    ensures !OccursAt(v, written + REDACTED + more, i)
  {
    if OccursAt(v, written + REDACTED + more, i) { OccursInWritten(v, written, pending, more, i); }
  }

  lemma OccursInWritten(v: Str, written: Str, pending: Str, more: Str, i: nat)
    requires ClashFree(v, REDACTED) && i < |written| && OccursAt(v, written + REDACTED + more, i)
    ensures OccursAt(v, written + pending + [], i)
  {
    Apart(v, REDACTED, written, more, i);
    assert (written + pending + [])[i..i + |v|] == (written + REDACTED + more)[i..i + |v|];
  }

  lemma {:induction false} SealedMask(v: Str, n: nat, written: Str, pending: Str, variants: seq<Str>)
    requires ClashFree(v, REDACTED) && NoneEmpty(variants) && n <= |written|
    requires Sealed(v, n, written, pending)
    ensures Sealed(v, n, written, Mask(variants, REDACTED, pending))
    decreases |variants|
  {
    if variants != [] {
      SealedPass(v, n, written, pending, variants[0]);
      SealedMask(v, n, written, ReplaceAll(pending, variants[0], REDACTED), variants[1..]);
    }
  }

  /** Writing a clean text except for its last `keep` units seals what was written. */
  lemma SealedSplit(v: Str, written: Str, masked: Str, keep: nat)
    requires v != [] && |v| <= keep + 1 && keep <= |masked|
    requires Sealed(v, |written|, written, masked) && !Contains(v, masked)
    ensures var cut := |masked| - keep;
            Sealed(v, |written| + cut, written + masked[..cut], masked[cut..])
  {
    var cut := |masked| - keep;
    var w, p := written + masked[..cut], masked[cut..];
    assert w + p == written + masked;
    forall more: Str, i | 0 <= i < |written| + cut ensures !OccursAt(v, w + p + more, i) {
      assert w + p + more == written + masked + more;
      if |written| <= i {
        OccursInMiddleIf(v, written, masked, more, i);
      }
    }
  }

  lemma OccursInMiddleIf(v: Str, before: Str, middle: Str, after: Str, i: int)
    requires |before| <= i && i + |v| <= |before| + |middle| && !Contains(v, middle)
    ensures !OccursAt(v, before + middle + after, i)
  {
    OccursInMiddle(v, before, middle, after, i);
  }

  /** A sealed prefix is left alone by the masker. */
  lemma {:induction false} MaskUnderSealed(variants: seq<Str>, before: Str, text: Str)
    requires AllClashFree(variants, REDACTED) && AllSealed(variants, before, text)
    ensures Mask(variants, REDACTED, before + text) == before + Mask(variants, REDACTED, text)
  {
    if variants != [] {
      var v, rest := variants[0], variants[1..];
      assert Sealed(v, |before|, before, text);
      assert before + text + [] == before + text;
      PassUnderPrefix(v, REDACTED, before, text);
      forall k | 0 <= k < |rest| ensures Sealed(rest[k], |before|, before, ReplaceAll(text, v, REDACTED)) {
        assert rest[k] == variants[k + 1];
        SealedPass(rest[k], |before|, before, text, v);
      }
      MaskUnderSealed(rest, before, ReplaceAll(text, v, REDACTED));
    }
  }

  // ----- Safety

  ghost predicate Safe(variants: seq<Str>, st: MaskerState) {
    && AllSealed(variants, st.Written(), st.pending)
    && (Overlap(variants) == 0 ==> st.pending == [])
  }

  /** Written once for all branches of a push: the buffer is kept as it is, or kept masked, or
      masked and written up to the last `overlap` units. */
  lemma PushBranches(variants: seq<Str>, st: MaskerState, chunk: Str)
    requires NoneEmpty(variants) && (Overlap(variants) == 0 ==> st.pending == [])
    ensures var pending := st.pending + chunk;
            var masked := Mask(variants, REDACTED, pending);
            var cut := |masked| - Overlap(variants);
            var st' := Push(variants, st, chunk);
            || (st' == MaskerState(pending, st.writes) && Overlap(variants) != 0)
            || (st' == MaskerState(masked, st.writes) && Overlap(variants) != 0)
            || (cut >= 0 && st' == MaskerState(masked[cut..], st.writes + [masked[..cut]]))
  {
    var masked := Mask(variants, REDACTED, st.pending + chunk);
    if Overlap(variants) == 0 {
      assert st.pending + chunk == chunk;
      assert masked[|masked|..] == [] && masked[..|masked|] == masked;
    }
  }

  lemma PushKeepsSafe(variants: seq<Str>, st: MaskerState, chunk: Str)
    requires AllClashFree(variants, REDACTED) && Safe(variants, st)
    ensures Safe(variants, Push(variants, st, chunk))
  {
    var overlap, w, pending := Overlap(variants), st.Written(), st.pending + chunk;
    var masked := Mask(variants, REDACTED, pending);
    var st' := Push(variants, st, chunk);
    PushBranches(variants, st, chunk);
    forall k | 0 <= k < |variants| ensures Sealed(variants[k], |st'.Written()|, st'.Written(), st'.pending) {
      var v := variants[k];
      SealedAppend(v, |w|, w, st.pending, chunk);
      SealedMask(v, |w|, w, pending, variants);
      if st'.writes != st.writes {
        MaskIsClean(variants, REDACTED, pending, v);
        SealedSplit(v, w, masked, overlap);
        ConcatSnoc(st.writes, masked[..|masked| - overlap]);
      }
    }
  }

  lemma {:induction false} PushedSafe(variants: seq<Str>, chunks: seq<Str>)
    requires AllClashFree(variants, REDACTED)
    ensures Safe(variants, Pushed(variants, chunks))
  {
    if chunks != [] {
      PushedSafe(variants, chunks[..|chunks| - 1]);
      PushKeepsSafe(variants, Pushed(variants, chunks[..|chunks| - 1]), chunks[|chunks| - 1]);
    }
  }

  lemma FlushWrites(variants: seq<Str>, st: MaskerState)
    requires NoneEmpty(variants)
    ensures Flush(variants, st).Written() == st.Written() + Mask(variants, REDACTED, st.pending)
  {
    MaskOfEmpty(variants, REDACTED);
    ConcatSnoc(st.writes, Mask(variants, REDACTED, st.pending));
  }

  /** Streaming is safe: no variant stands in what is written, for every chunking of every input. */
  lemma StreamIsClean(variants: seq<Str>, chunks: seq<Str>, v: Str)
    requires AllClashFree(variants, REDACTED) && v in variants
    ensures !Contains(v, Session(variants, chunks).Written())
  {
    PushedSafe(variants, chunks);
    var st := Pushed(variants, chunks);
    var w, p := st.Written(), Mask(variants, REDACTED, st.pending);
    var k :| 0 <= k < |variants| && variants[k] == v;
    SealedMask(v, |w|, w, st.pending, variants);
    MaskIsClean(variants, REDACTED, st.pending, v);
    FlushWrites(variants, st);
    assert w + p + [] == w + p;
    forall i | |w| <= i && i + |v| <= |w + p| ensures !OccursAt(v, w + p, i) {
      OccursInMiddleIf(v, w, p, [], i);
    }
  }

  // ----- Streaming refines batch

  /** However the input goes on, the rest of the stream completes the batch result. */
  ghost predicate Tracks(variants: seq<Str>, st: MaskerState, input: Str)
    requires NoneEmpty(variants)
  {
    forall more: Str :: st.Written() + Mask(variants, REDACTED, st.pending + more)
                     == Mask(variants, REDACTED, input + more)
  }

  lemma PushKeepsTracking(variants: seq<Str>, st: MaskerState, chunk: Str, input: Str)
    requires AllClashFree(variants, REDACTED) && Absorbs(variants, REDACTED)
    requires Safe(variants, st) && Tracks(variants, st, input)
    ensures Tracks(variants, Push(variants, st, chunk), input + chunk)
  {
    var st' := Push(variants, st, chunk);
    forall more: Str
      ensures st'.Written() + Mask(variants, REDACTED, st'.pending + more)
           == Mask(variants, REDACTED, input + chunk + more)
    {
      assert input + chunk + more == input + (chunk + more);
      assert st.Written() + Mask(variants, REDACTED, st.pending + (chunk + more))
          == Mask(variants, REDACTED, input + (chunk + more));
      PushTracks(variants, st, chunk, more);
    }
  }

  lemma AbsorbedAt(variants: seq<Str>, text: Str, more: Str)
    requires NoneEmpty(variants) && Absorbs(variants, REDACTED)
    ensures Mask(variants, REDACTED, Mask(variants, REDACTED, text) + more) == Mask(variants, REDACTED, text + more)
  {}

  lemma PushTracks(variants: seq<Str>, st: MaskerState, chunk: Str, more: Str)
    requires AllClashFree(variants, REDACTED) && Absorbs(variants, REDACTED) && Safe(variants, st)
    ensures Push(variants, st, chunk).Written() + Mask(variants, REDACTED, Push(variants, st, chunk).pending + more)
         == st.Written() + Mask(variants, REDACTED, st.pending + (chunk + more))
  {
    var pending := st.pending + chunk;
    PushBranches(variants, st, chunk);
    assert pending + more == st.pending + (chunk + more);
    AbsorbedAt(variants, pending, more);
    if Push(variants, st, chunk).writes != st.writes {
      TrackSplit(variants, st, Mask(variants, REDACTED, pending), pending, more);
    }
  }

  lemma TrackSplit(variants: seq<Str>, st: MaskerState, masked: Str, pending: Str, more: Str)
    requires AllClashFree(variants, REDACTED)
    requires masked == Mask(variants, REDACTED, pending) && Overlap(variants) <= |masked|
    ensures var cut := |masked| - Overlap(variants);
            Concat(st.writes + [masked[..cut]]) + Mask(variants, REDACTED, masked[cut..] + more)
            == st.Written() + Mask(variants, REDACTED, masked + more)
  {
    ConcatSnoc(st.writes, masked[..|masked| - Overlap(variants)]);
    WindowUntouched(variants, pending, Overlap(variants), more);
  }

  /** What stands before the window cannot be reached by a later replacement. */
  lemma CleanWindowSealed(v: Str, masked: Str, keep: nat, more: Str)
    requires !Contains(v, masked) && 0 < |v| <= keep + 1 && keep <= |masked|
    ensures Sealed(v, |masked| - keep, masked[..|masked| - keep], masked[|masked| - keep..] + more)
  {
    var cut := |masked| - keep;
    assert Sealed(v, 0, [], masked);
    SealedSplit(v, [], masked, keep);
    assert [] + masked[..cut] == masked[..cut];
    SealedAppend(v, cut, masked[..cut], masked[cut..], more);
  }

  lemma CleanTextWindow(variants: seq<Str>, masked: Str, keep: nat, more: Str)
    requires AllClashFree(variants, REDACTED) && keep == Overlap(variants) && keep <= |masked|
    requires forall k | 0 <= k < |variants| :: !Contains(variants[k], masked)
    ensures var cut := |masked| - keep;
            Mask(variants, REDACTED, masked + more) == masked[..cut] + Mask(variants, REDACTED, masked[cut..] + more)
  {
    var cut := |masked| - keep;
    var before, after := masked[..cut], masked[cut..] + more;
    forall k | 0 <= k < |variants| ensures Sealed(variants[k], |before|, before, after) {
      CleanWindowSealed(variants[k], masked, keep, more);
    }
    assert before + after == masked + more;
    MaskUnderSealed(variants, before, after);
  }

  lemma WindowUntouched(variants: seq<Str>, pending: Str, keep: nat, more: Str)
    requires AllClashFree(variants, REDACTED)
    requires keep == Overlap(variants) && keep <= |Mask(variants, REDACTED, pending)|
    ensures var masked := Mask(variants, REDACTED, pending);
            var cut := |masked| - keep;
            Mask(variants, REDACTED, masked + more) == masked[..cut] + Mask(variants, REDACTED, masked[cut..] + more)
  {
    forall k | 0 <= k < |variants| ensures !Contains(variants[k], Mask(variants, REDACTED, pending)) {
      MaskIsClean(variants, REDACTED, pending, variants[k]);
    }
    CleanTextWindow(variants, Mask(variants, REDACTED, pending), keep, more);
  }

  lemma {:induction false} PushedTracks(variants: seq<Str>, chunks: seq<Str>)
    requires AllClashFree(variants, REDACTED) && Absorbs(variants, REDACTED)
    ensures Tracks(variants, Pushed(variants, chunks), Concat(chunks))
  {
    if chunks == [] {
      forall more: Str ensures [] + Mask(variants, REDACTED, [] + more) == Mask(variants, REDACTED, [] + more) {}
    } else {
      var init, last := chunks[..|chunks| - 1], chunks[|chunks| - 1];
      PushedTracks(variants, init);
      PushedSafe(variants, init);
      PushKeepsTracking(variants, Pushed(variants, init), last, Concat(init));
      ConcatSnoc(init, last);
      assert chunks == init + [last];
    }
  }

  /** For every chunking, what is written in all is the whole text masked at once. */
  lemma StreamRefinesBatch(variants: seq<Str>, chunks: seq<Str>)
    requires AllClashFree(variants, REDACTED) && Absorbs(variants, REDACTED)
    ensures Session(variants, chunks).Written() == Mask(variants, REDACTED, Concat(chunks))
  {
    PushedTracks(variants, chunks);
    var st := Pushed(variants, chunks);
    assert st.pending + [] == st.pending && Concat(chunks) + [] == Concat(chunks);
    FlushWrites(variants, st);
  }

  // ----- The last push and the flush

  lemma CleanTail(variants: seq<Str>, before: Str, text: Str)
    requires forall k | 0 <= k < |variants| :: !Contains(variants[k], before + text)
    ensures forall k | 0 <= k < |variants| :: !Contains(variants[k], text)
  {
    forall k, i | 0 <= k < |variants| && OccursAt(variants[k], text, i)
      ensures OccursAt(variants[k], before + text, |before| + i)
    {
      assert (before + text)[|before| + i..|before| + i + |variants[k]|] == text[i..i + |variants[k]|];
    }
  }

  /** A push that fills the window masks the buffer and writes all but the window. */
  lemma PushSplits(variants: seq<Str>, st: MaskerState, chunk: Str)
    requires NoneEmpty(variants) && (Overlap(variants) == 0 ==> st.pending == [])
    requires |st.pending + chunk| > Overlap(variants)
    requires |Mask(variants, REDACTED, st.pending + chunk)| > Overlap(variants)
    ensures var masked := Mask(variants, REDACTED, st.pending + chunk);
            var cut := |masked| - Overlap(variants);
            Push(variants, st, chunk) == MaskerState(masked[cut..], st.writes + [masked[..cut]])
  {
    var masked := Mask(variants, REDACTED, st.pending + chunk);
    if Overlap(variants) == 0 {
      assert st.pending + chunk == chunk;
      assert masked[|masked|..] == [] && masked[..|masked|] == masked;
    }
  }

  /** Whatever was buffered, the last push and the flush together write what was left, masked. */
  lemma LastPush(variants: seq<Str>, st: MaskerState, chunk: Str)
    requires AllClashFree(variants, REDACTED) && (Overlap(variants) == 0 ==> st.pending == [])
    ensures Flush(variants, Push(variants, st, chunk)).Written()
         == st.Written() + Mask(variants, REDACTED, st.pending + chunk)
  {
    var masked := Mask(variants, REDACTED, st.pending + chunk);
    PushBranches(variants, st, chunk);
    FlushWrites(variants, Push(variants, st, chunk));
    MaskTwice(variants, REDACTED, st.pending + chunk);
    if Push(variants, st, chunk).writes != st.writes { LastSplit(variants, st, st.pending + chunk); }
  }

  lemma LastSplit(variants: seq<Str>, st: MaskerState, pending: Str)
    requires AllClashFree(variants, REDACTED) && Overlap(variants) <= |Mask(variants, REDACTED, pending)|
    ensures var masked := Mask(variants, REDACTED, pending);
            var cut := |masked| - Overlap(variants);
            Concat(st.writes + [masked[..cut]]) + Mask(variants, REDACTED, masked[cut..]) == st.Written() + masked
  {
    var masked := Mask(variants, REDACTED, pending);
    forall k | 0 <= k < |variants| ensures !Contains(variants[k], masked) {
      MaskIsClean(variants, REDACTED, pending, variants[k]);
    }
    CleanSplit(variants, st.writes, masked, |masked| - Overlap(variants));
  }

  lemma CleanSplit(variants: seq<Str>, writes: seq<Str>, masked: Str, cut: nat)
    requires cut <= |masked| && NoneEmpty(variants) && forall k | 0 <= k < |variants| :: !Contains(variants[k], masked)
    ensures Concat(writes + [masked[..cut]]) + Mask(variants, REDACTED, masked[cut..]) == Concat(writes) + masked
  {
    CleanEnd(variants, masked, cut);
    ConcatSnoc(writes, masked[..cut]);
    JoinedAgain(Concat(writes), masked, cut);
  }

  lemma CleanEnd(variants: seq<Str>, masked: Str, cut: nat)
    requires cut <= |masked| && NoneEmpty(variants) && forall k | 0 <= k < |variants| :: !Contains(variants[k], masked)
    ensures Mask(variants, REDACTED, masked[cut..]) == masked[cut..]
  {
    assert masked[..cut] + masked[cut..] == masked;
    CleanTail(variants, masked[..cut], masked[cut..]);
    MaskOfClean(variants, REDACTED, masked[cut..]);
  }

  lemma JoinedAgain(front: Str, text: Str, cut: nat)
    requires cut <= |text|
    ensures front + text[..cut] + text[cut..] == front + text
  {}

  lemma PushedTwo(variants: seq<Str>, first: Str, second: Str)
    requires NoneEmpty(variants)
    ensures Pushed(variants, [first, second])
         == Push(variants, Push(variants, MaskerState([], []), first), second)
  {
    var chunks := [first, second];
    assert chunks[..1] == [first] && [first][..0] == [];
    assert Pushed(variants, [first]) == Push(variants, Pushed(variants, [first][..0]), first);
  }

  // ----- Where the hypothesis comes from

  /** Sharing no code unit with the placeholder is enough to be clash-free. */
  lemma NoCommonUnit(v: Str, red: Str)
    requires v != [] && red != [] && forall c <- v :: c !in red
    ensures ClashFree(v, red)
  {
    forall i | OccursAt(v, red, i) ensures v[0] in red { assert red[i..i + |v|][0] == red[i]; }
    forall i | OccursAt(red, v, i) ensures red[0] in v { assert v[i..i + |red|][0] == v[i]; }
    forall n | 0 < n < |v| && n < |red| ensures red[|red| - n..] != v[..n] && red[..n] != v[|v| - n..] {
      assert v[0] in v && v[..n][0] == v[0] && red[|red| - n..][0] == red[|red| - n];
      assert v[|v| - n] in v && v[|v| - n..][0] == v[|v| - n] && red[..n][0] == red[0];
    }
  }
}
