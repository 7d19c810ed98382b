/** What the stream writes (packages/paratix/src/sshHelpers.ts), exactly: for every chunking a redaction of
    the input; and for all chunkings the batch result if and only if no variant preempts an earlier one. */
module StreamExactness {
  import opened Text
  import opened Redaction
  import opened StreamMasking
  import opened Preemption
  import opened RedactionPieces

  // ----- Every session redacts

  /** Masking the buffer is masking everything there is: nothing can be replaced in what is written. */
  lemma MaskedInContext(variants: seq<Str>, st: MaskerState, chunk: Str)
    requires AllClashFree(variants, REDACTED) && Safe(variants, st)
    ensures Mask(variants, REDACTED, st.All() + chunk) == st.Written() + Mask(variants, REDACTED, st.pending + chunk)
  {
    var w := st.Written();
    forall k | 0 <= k < |variants| ensures Sealed(variants[k], |w|, w, st.pending + chunk) {
      SealedAppend(variants[k], |w|, w, st.pending, chunk);
    }
    assert st.All() + chunk == w + (st.pending + chunk);
    MaskUnderSealed(variants, w, st.pending + chunk);
  }

  /** A push appends the chunk to all there is and masks it, or leaves it as it is. */
  lemma PushEffect(variants: seq<Str>, st: MaskerState, chunk: Str)
    requires AllClashFree(variants, REDACTED) && Safe(variants, st)
    ensures var st' := Push(variants, st, chunk);
            st'.All() == st.All() + chunk || st'.All() == Mask(variants, REDACTED, st.All() + chunk)
  {
    var masked := Mask(variants, REDACTED, st.pending + chunk);
    PushBranches(variants, st, chunk);
    MaskedInContext(variants, st, chunk);
    if Push(variants, st, chunk).writes != st.writes {
      SplitKeepsAll(st, masked, |masked| - Overlap(variants));
    }
  }

  lemma PushRedacts(variants: seq<Str>, st: MaskerState, chunk: Str, input: Str)
    requires AllClashFree(variants, REDACTED) && Safe(variants, st)
    requires IsRedaction(variants, REDACTED, input, st.All())
    ensures IsRedaction(variants, REDACTED, input + chunk, Push(variants, st, chunk).All())
  {
    RedactionGrows(variants, REDACTED, input, st.All(), chunk);
    MaskKeepsRedaction(variants, variants, REDACTED, input + chunk, st.All() + chunk);
    PushEffect(variants, st, chunk);
  }

  lemma NextRedacts(variants: seq<Str>, init: seq<Str>, last: Str)
    requires AllClashFree(variants, REDACTED)
    requires IsRedaction(variants, REDACTED, Concat(init), Pushed(variants, init).All())
    ensures IsRedaction(variants, REDACTED, Concat(init + [last]), Pushed(variants, init + [last]).All())
  {
    PushedSafe(variants, init);
    PushRedacts(variants, Pushed(variants, init), last, Concat(init));
    ConcatSnoc(init, last);
    assert (init + [last])[..|init|] == init;
  }

  lemma {:induction false} PushedRedacts(variants: seq<Str>, chunks: seq<Str>)
    requires AllClashFree(variants, REDACTED)
    ensures IsRedaction(variants, REDACTED, Concat(chunks), Pushed(variants, chunks).All())
    decreases |chunks|
  {
    if chunks == [] {
      RedactionOfItself(variants, REDACTED, []);
    } else {
      var init, last := chunks[..|chunks| - 1], chunks[|chunks| - 1];
      assert chunks == init + [last];
      PushedRedacts(variants, init);
      NextRedacts(variants, init, last);
    }
  }

  /** For every chunking of every input: what is written is the input with disjoint occurrences of variants
      replaced and nothing else changed, and none is left. */
  lemma StreamRedacts(variants: seq<Str>, chunks: seq<Str>)
    requires AllClashFree(variants, REDACTED)
    ensures IsRedaction(variants, REDACTED, Concat(chunks), Session(variants, chunks).Written())
    ensures forall k | 0 <= k < |variants| :: !Contains(variants[k], Session(variants, chunks).Written())
  {
    var st := Pushed(variants, chunks);
    PushedRedacts(variants, chunks);
    PushedSafe(variants, chunks);
    MaskKeepsRedaction(variants, variants, REDACTED, Concat(chunks), st.All());
    MaskedInContext(variants, st, []);
    assert st.pending + [] == st.pending && st.All() + [] == st.All();
    FlushWrites(variants, st);
    forall k | 0 <= k < |variants| ensures !Contains(variants[k], Session(variants, chunks).Written()) {
      StreamIsClean(variants, chunks, variants[k]);
    }
  }

  // ----- A chunk boundary anywhere

  /** Masked text, written except for the window. */
  function Split(variants: seq<Str>, masked: Str): MaskerState
    requires Overlap(variants) <= |masked|
  {
    MaskerState(masked[|masked| - Overlap(variants)..], [masked[..|masked| - Overlap(variants)]])
  }

  lemma SplitWritten(variants: seq<Str>, masked: Str)
    requires Overlap(variants) <= |masked|
    ensures Split(variants, masked).Written() == masked[..|masked| - Overlap(variants)]
  {
    var written := masked[..|masked| - Overlap(variants)];
    assert [written][1..] == [] && Concat([written]) == written + Concat([written][1..]);
  }

  /** A first push that fills the window. */
  lemma FirstPush(variants: seq<Str>, chunk: Str)
    requires NoneEmpty(variants) && |chunk| > Overlap(variants)
    requires |Mask(variants, REDACTED, chunk)| > Overlap(variants)
    ensures Push(variants, MaskerState([], []), chunk) == Split(variants, Mask(variants, REDACTED, chunk))
  {
    assert [] + chunk == chunk;
    PushSplits(variants, MaskerState([], []), chunk);
    var masked := Mask(variants, REDACTED, chunk);
    var written := masked[..|masked| - Overlap(variants)];
    assert [] + [written] == [written];
  }

  lemma SessionOfTwo(variants: seq<Str>, first: Str, second: Str)
    requires AllClashFree(variants, REDACTED) && |first| > Overlap(variants)
    requires |Mask(variants, REDACTED, first)| > Overlap(variants)
    ensures var st := Split(variants, Mask(variants, REDACTED, first));
            Session(variants, [first, second]).Written() == st.Written() + Mask(variants, REDACTED, st.pending + second)
  {
    FirstPush(variants, first);
    PushedTwo(variants, first, second);
    LastPush(variants, Split(variants, Mask(variants, REDACTED, first)), second);
  }

  /** A boundary behind a text that fills the window: the text is masked before the rest arrives. */
  lemma TwoChunks(variants: seq<Str>, first: Str, second: Str)
    requires AllClashFree(variants, REDACTED) && |first| > Overlap(variants)
    requires |Mask(variants, REDACTED, first)| > Overlap(variants)
    ensures Session(variants, [first, second]).Written()
         == Mask(variants, REDACTED, Mask(variants, REDACTED, first) + second)
  {
    SessionOfTwo(variants, first, second);
    SplitWritten(variants, Mask(variants, REDACTED, first));
    WindowUntouched(variants, first, Overlap(variants), second);
  }

  /** In front of any text, `p` is neither changed nor does it change what follows. */
  ghost predicate Inert(variants: seq<Str>, p: Str)
    requires NoneEmpty(variants)
  {
    forall text: Str :: Mask(variants, REDACTED, p + text) == p + Mask(variants, REDACTED, text)
  }

  /** `n` placeholders. */
  function Padding(n: nat): (p: Str)
    ensures |p| >= n
  {
    if n == 0 then [] else REDACTED + Padding(n - 1)
  }

  lemma InertConcat(variants: seq<Str>, p: Str, q: Str)
    requires NoneEmpty(variants) && Inert(variants, p) && Inert(variants, q)
    ensures Inert(variants, p + q)
  {
    forall text: Str
      ensures Mask(variants, REDACTED, p + q + text) == p + q + Mask(variants, REDACTED, text)
    {
      assert p + q + text == p + (q + text);
      assert Mask(variants, REDACTED, p + (q + text)) == p + Mask(variants, REDACTED, q + text);
    }
  }

  /** Placeholders fill the window and change nothing. */
  lemma {:induction false} PaddingIsInert(variants: seq<Str>, n: nat)
    requires AllClashFree(variants, REDACTED)
    ensures Inert(variants, Padding(n))
  {
    if n == 0 {
      forall text: Str ensures Mask(variants, REDACTED, [] + text) == [] + Mask(variants, REDACTED, text) {
        assert [] + text == text;
      }
    } else {
      forall text: Str
        ensures Mask(variants, REDACTED, REDACTED + text) == REDACTED + Mask(variants, REDACTED, text)
      {
        MaskBehindPlaceholder(variants, REDACTED, text);
      }
      PaddingIsInert(variants, n - 1);
      InertConcat(variants, REDACTED, Padding(n - 1));
    }
  }

  lemma InertTwice(variants: seq<Str>, p: Str, text: Str, more: Str)
    requires NoneEmpty(variants) && Inert(variants, p)
    ensures Mask(variants, REDACTED, Mask(variants, REDACTED, p + text) + more)
         == p + Mask(variants, REDACTED, Mask(variants, REDACTED, text) + more)
  {
    var masked := Mask(variants, REDACTED, text);
    assert p + masked + more == p + (masked + more);
  }

  /** Behind padding that fills the window, the stream masks the text up to the boundary before it sees
      the rest. */
  lemma PaddedSession(variants: seq<Str>, p: Str, text: Str, more: Str)
    requires AllClashFree(variants, REDACTED) && Inert(variants, p) && |p| > Overlap(variants)
    ensures Session(variants, [p + text, more]).Written()
         == p + Mask(variants, REDACTED, Mask(variants, REDACTED, text) + more)
  {
    assert Mask(variants, REDACTED, p + text) == p + Mask(variants, REDACTED, text);
    TwoChunks(variants, p + text, more);
    InertTwice(variants, p, text, more);
  }

  lemma PaddedBatch(variants: seq<Str>, p: Str, text: Str, more: Str)
    requires NoneEmpty(variants) && Inert(variants, p)
    ensures Mask(variants, REDACTED, Concat([p + text, more])) == p + Mask(variants, REDACTED, text + more)
  {
    assert [p + text, more][1..] == [more] && [more][1..] == [];
    assert Concat([more]) == more + Concat([more][1..]);
    assert Concat([p + text, more]) == p + (text + more);
  }

  // ----- When streaming is batch

  ghost predicate StreamsLikeBatch(variants: seq<Str>)
    requires NoneEmpty(variants)
  {
    forall chunks: seq<Str> :: Session(variants, chunks).Written() == Mask(variants, REDACTED, Concat(chunks))
  }

  /** Two chunks whose boundary falls between `text` and `more`, with a full window. */
  function PaddedCut(variants: seq<Str>, text: Str, more: Str): seq<Str> {
    [Padding(Overlap(variants) + 1) + text, more]
  }

  /** The boundary shows in the output exactly if masking the part before it shows. */
  lemma BoundaryShows(variants: seq<Str>, text: Str, more: Str)
    requires AllClashFree(variants, REDACTED)
    ensures var chunks := PaddedCut(variants, text, more);
            Session(variants, chunks).Written() == Mask(variants, REDACTED, Concat(chunks))
            <==> Mask(variants, REDACTED, Mask(variants, REDACTED, text) + more) == Mask(variants, REDACTED, text + more)
  {
    var p := Padding(Overlap(variants) + 1);
    PaddingIsInert(variants, Overlap(variants) + 1);
    PaddedSession(variants, p, text, more);
    PaddedBatch(variants, p, text, more);
    SamePrefix(p, Mask(variants, REDACTED, Mask(variants, REDACTED, text) + more), Mask(variants, REDACTED, text + more));
  }

  lemma SamePrefix(p: Str, a: Str, b: Str)
    ensures p + a == p + b <==> a == b
  {
    assert (p + a)[|p|..] == a && (p + b)[|p|..] == b;
  }

  lemma StreamsLikeBatchIffAbsorbs(variants: seq<Str>)
    requires AllClashFree(variants, REDACTED)
    ensures StreamsLikeBatch(variants) <==> Absorbs(variants, REDACTED)
  {
    if StreamsLikeBatch(variants) {
      forall text: Str, more: Str
        ensures Mask(variants, REDACTED, Mask(variants, REDACTED, text) + more) == Mask(variants, REDACTED, text + more)
      {
        BoundaryShows(variants, text, more);
      }
    }
    if Absorbs(variants, REDACTED) {
      forall chunks: seq<Str>
        ensures Session(variants, chunks).Written() == Mask(variants, REDACTED, Concat(chunks))
      {
        StreamRefinesBatch(variants, chunks);
      }
    }
  }

  /** Streaming gives the batch result for all chunkings of all inputs if and only if no variant of the list
      can be completed while an overlapping earlier one is still incomplete. */
  lemma StreamsLikeBatchExactly(variants: seq<Str>)
    requires AllClashFree(variants, REDACTED) && Ordered(variants)
    ensures StreamsLikeBatch(variants) <==> NoPreemption(variants)
  {
    StreamsLikeBatchIffAbsorbs(variants);
    LawsExactly(variants, REDACTED);
  }

  /** The same for two variants, in the terms of the two. */
  lemma TwoStreamLikeBatchExactly(u: Str, w: Str)
    requires ClashFree(u, REDACTED) && ClashFree(w, REDACTED) && |w| <= |u| && w != u
    ensures StreamsLikeBatch([u, w]) <==> NoPreempt(u, w)
  {
    var variants := [u, w];
    StreamsLikeBatchExactly(variants);
    if NoPreempt(u, w) {
      assert NoPreempt(variants[0], variants[1]);
    } else {
      assert !NoPreempt(variants[0], variants[1]);
    }
  }
}
