/** What a redaction of a text is, whatever the order in which its variants are replaced: occurrences of
    variants, no two of which share a unit, give way to placeholders, and every other unit stays. */
module RedactionPieces {
  import opened Text
  import opened Redaction

  /** A unit that stays, or an occurrence that is covered. */
  datatype Piece = Keep(unit: CodeUnit) | Cover(variant: Str)

  function Hidden(piece: Piece): Str {
    if piece.Keep? then [piece.unit] else piece.variant
  }

  function Shown(piece: Piece, red: Str): Str {
    if piece.Keep? then [piece.unit] else red
  }

  /** The text that the pieces were cut from. */
  function Source(pieces: seq<Piece>): Str {
    if pieces == [] then [] else Hidden(pieces[0]) + Source(pieces[1..])
  }

  function Output(pieces: seq<Piece>, red: Str): Str {
    if pieces == [] then [] else Shown(pieces[0], red) + Output(pieces[1..], red)
  }

  ghost predicate CoversOnly(pieces: seq<Piece>, variants: seq<Str>) {
    forall i | 0 <= i < |pieces| :: pieces[i].Cover? ==> pieces[i].variant in variants
  }

  ghost predicate IsRedaction(variants: seq<Str>, red: Str, text: Str, output: Str) {
    exists pieces: seq<Piece> ::
      CoversOnly(pieces, variants) && Source(pieces) == text && Output(pieces, red) == output
  }

  // ----- Pieces side by side

  lemma {:induction false} SourceConcat(a: seq<Piece>, b: seq<Piece>)
    ensures Source(a + b) == Source(a) + Source(b)
  {
    if a == [] {
      assert a + b == b;
    } else {
      assert (a + b)[1..] == a[1..] + b;
      SourceConcat(a[1..], b);
    }
  }

  lemma {:induction false} OutputConcat(a: seq<Piece>, b: seq<Piece>, red: Str)
    ensures Output(a + b, red) == Output(a, red) + Output(b, red)
  {
    if a == [] {
      assert a + b == b;
    } else {
      assert (a + b)[1..] == a[1..] + b;
      OutputConcat(a[1..], b, red);
    }
  }

  function Kept(text: Str): seq<Piece> {
    if text == [] then [] else [Keep(text[0])] + Kept(text[1..])
  }

  lemma {:induction false} KeptPieces(text: Str, red: Str)
    ensures Source(Kept(text)) == text && Output(Kept(text), red) == text
    ensures forall i | 0 <= i < |Kept(text)| :: Kept(text)[i].Keep?
  {
    if text != [] { KeptPieces(text[1..], red); }
  }

  /** A text that follows is kept as it is. */
  lemma RedactionGrows(variants: seq<Str>, red: Str, text: Str, output: Str, more: Str)
    requires IsRedaction(variants, red, text, output)
    ensures IsRedaction(variants, red, text + more, output + more)
  {
    var pieces :| CoversOnly(pieces, variants) && Source(pieces) == text && Output(pieces, red) == output;
    KeptPieces(more, red);
    SourceConcat(pieces, Kept(more));
    OutputConcat(pieces, Kept(more), red);
    assert CoversOnly(pieces + Kept(more), variants);
  }

  lemma RedactionOfItself(variants: seq<Str>, red: Str, text: Str)
    ensures IsRedaction(variants, red, text, text)
  {
    KeptPieces(text, red);
    assert CoversOnly(Kept(text), variants);
  }

  // ----- A pass over a redaction is a redaction of the same text

  /** Kept units are the same in both texts. */
  lemma {:induction false} KeptPrefix(pieces: seq<Piece>, red: Str, n: nat) returns (kept: Str)
    requires n <= |pieces| && forall i | 0 <= i < n :: pieces[i].Keep?
    ensures |kept| == n && Source(pieces) == kept + Source(pieces[n..])
    ensures Output(pieces, red) == kept + Output(pieces[n..], red)
    decreases n
  {
    if n == 0 {
      kept := [];
      assert pieces[0..] == pieces;
    } else {
      var more := KeptPrefix(pieces[1..], red, n - 1);
      kept := [pieces[0].unit] + more;
      assert pieces[1..][n - 1..] == pieces[n..];
    }
  }

  /** The pieces under an occurrence at the start are units that were kept. */
  lemma {:induction false} OccurrenceIsKept(v: Str, red: Str, pieces: seq<Piece>, n: nat)
    requires ClashFree(v, red) && red != [] && v <= Output(pieces, red) && n <= |v|
    ensures n <= |pieces| && forall i | 0 <= i < n :: pieces[i].Keep?
    decreases n
  {
    if n > 0 {
      OccurrenceIsKept(v, red, pieces, n - 1);
      var kept := KeptPrefix(pieces, red, n - 1);
      assert kept == Output(pieces, red)[..n - 1] == v[..n - 1];
      if n - 1 < |pieces| && pieces[n - 1].Cover? { CoverClashes(v, red, pieces, n - 1); }
    }
  }

  lemma CoverClashes(v: Str, red: Str, pieces: seq<Piece>, n: nat)
    requires v != [] && v <= Output(pieces, red) && n < |v| && n < |pieces| && pieces[n].Cover? && red != []
    requires Output(pieces, red) == v[..n] + Output(pieces[n..], red)
    ensures !ClashFree(v, red)
  {
    var rest := Output(pieces[n..][1..], red);
    assert Output(pieces, red) == v[..n] + red + rest;
    assert OccursAt(v, v[..n] + red + rest, 0);
    OverlapClashes(v, red, v[..n], rest, 0);
  }

  lemma PiecesCons(piece: Piece, rest: seq<Piece>, red: Str)
    ensures Source([piece] + rest) == Hidden(piece) + Source(rest)
    ensures Output([piece] + rest, red) == Shown(piece, red) + Output(rest, red)
  {
    assert ([piece] + rest)[1..] == rest;
  }

  lemma CoverOccurrence(v: Str, red: Str, pieces: seq<Piece>)
    requires ClashFree(v, red) && red != [] && v <= Output(pieces, red)
    ensures |v| <= |pieces| && Source(pieces) == v + Source(pieces[|v|..])
    ensures ReplaceAll(Output(pieces, red), v, red) == red + ReplaceAll(Output(pieces[|v|..], red), v, red)
  {
    OccurrenceIsKept(v, red, pieces, |v|);
    var kept := KeptPrefix(pieces, red, |v|);
    assert kept == Output(pieces, red)[..|v|] == v;
    ReplaceHere(v, Output(pieces[|v|..], red), red);
  }

  lemma KeepPiece(v: Str, red: Str, piece: Piece, rest: Str)
    requires ClashFree(v, red) && red != [] && !(v <= Shown(piece, red) + rest)
    ensures ReplaceAll(Shown(piece, red) + rest, v, red) == Shown(piece, red) + ReplaceAll(rest, v, red)
  {
    if piece.Keep? { ReplaceLater(piece.unit, rest, v, red); } else { PassBehindPlaceholder(v, red, rest); }
  }

  lemma {:induction false} PassRedacts(variants: seq<Str>, v: Str, red: Str, pieces: seq<Piece>)
      returns (covered: seq<Piece>)
    requires v in variants && ClashFree(v, red) && red != [] && CoversOnly(pieces, variants)
    ensures CoversOnly(covered, variants) && Source(covered) == Source(pieces)
    ensures Output(covered, red) == ReplaceAll(Output(pieces, red), v, red)
    decreases |pieces|
  {
    if pieces == [] {
      covered := [];
    } else {
      var here := v <= Output(pieces, red);
      if here { CoverOccurrence(v, red, pieces); } else { KeepPiece(v, red, pieces[0], Output(pieces[1..], red)); }
      var more := PassRedacts(variants, v, red, if here then pieces[|v|..] else pieces[1..]);
      var piece := if here then Cover(v) else pieces[0];
      PiecesCons(piece, more, red);
      covered := [piece] + more;
    }
  }

  lemma PassKeepsRedaction(variants: seq<Str>, v: Str, red: Str, text: Str, output: Str)
    requires v in variants && ClashFree(v, red) && red != [] && IsRedaction(variants, red, text, output)
    ensures IsRedaction(variants, red, text, ReplaceAll(output, v, red))
  {
    var pieces :| CoversOnly(pieces, variants) && Source(pieces) == text && Output(pieces, red) == output;
    var covered := PassRedacts(variants, v, red, pieces);
  }

  lemma {:induction false} MaskKeepsRedaction(variants: seq<Str>, list: seq<Str>, red: Str, text: Str, output: Str)
    requires AllClashFree(list, red) && red != [] && IsRedaction(variants, red, text, output)
    requires forall i | 0 <= i < |list| :: list[i] in variants
    ensures IsRedaction(variants, red, text, Mask(list, red, output))
    decreases |list|
  {
    if list != [] {
      PassKeepsRedaction(variants, list[0], red, text, output);
      MaskKeepsRedaction(variants, list[1..], red, text, ReplaceAll(output, list[0], red));
    }
  }

  /** Batch masking is a redaction. */
  lemma MaskIsRedaction(variants: seq<Str>, red: Str, text: Str)
    requires AllClashFree(variants, red) && red != []
    ensures IsRedaction(variants, red, text, Mask(variants, red, text))
  {
    RedactionOfItself(variants, red, text);
    MaskKeepsRedaction(variants, variants, red, text, text);
  }
}
