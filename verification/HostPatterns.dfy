/** OpenSSH host patterns (packages/paratix/src/knownHostPatterns.ts): the loop with one remembered
    star decides the declarative glob relation exactly for needles that contain no star. */
module HostPatterns {
  import opened Wrappers

  /** `*` matches any run of characters, `?` exactly one, everything else itself. */
  predicate Glob(pattern: string, text: string)
    decreases |pattern| + |text|
  {
    if pattern == "" then text == ""
    else if pattern[0] == '*' then Glob(pattern[1..], text) || (text != "" && Glob(pattern, text[1..]))
    else text != "" && (pattern[0] == '?' || pattern[0] == text[0]) && Glob(pattern[1..], text[1..])
  }

  /** The pattern matches some tail of the text that starts at `from` or later. */
  predicate GlobFrom(pattern: string, text: string, from: nat)
    requires from <= |text|
    decreases |text| - from
  {
    Glob(pattern, text[from..]) || (from < |text| && GlobFrom(pattern, text, from + 1))
  }

  lemma {:induction false} GlobFromSome(pattern: string, text: string, from: nat, k: nat)
    requires from <= k <= |text| && GlobFrom(pattern, text, k)
    ensures GlobFrom(pattern, text, from)
    decreases k - from
  {
    if from < k { GlobFromSome(pattern, text, from + 1, k); }
  }

  lemma {:induction false} GlobFromWitness(pattern: string, text: string, from: nat) returns (k: nat)
    requires from <= |text| && GlobFrom(pattern, text, from)
    ensures from <= k <= |text| && Glob(pattern, text[k..])
    decreases |text| - from
  {
    if Glob(pattern, text[from..]) { k := from; } else { k := GlobFromWitness(pattern, text, from + 1); }
  }

  lemma {:induction false} GlobFromTail(pattern: string, text: string, from: nat, n: nat)
    requires from + n <= |text|
    ensures GlobFrom(pattern, text[from..], n) == GlobFrom(pattern, text, from + n)
    decreases |text| - n
  {
    assert text[from..][n..] == text[from + n..];
    if from + n < |text| { GlobFromTail(pattern, text, from, n + 1); }
  }

  /** A star is any run: what follows it matches some tail, wherever that starts. */
  lemma {:induction false} StarIsAnyRun(after: string, text: string)
    ensures Glob("*" + after, text) == GlobFrom(after, text, 0)
    ensures Glob("*" + after, text) <==> exists k :: 0 <= k <= |text| && Glob(after, text[k..])
    decreases |text|
  {
    var p := "*" + after;
    assert p[1..] == after && text[0..] == text;
    if text != "" {
      StarIsAnyRun(after, text[1..]);
      GlobFromTail(after, text, 1, 0);
    }
    if GlobFrom(after, text, 0) { var k := GlobFromWitness(after, text, 0); }
    if k :| 0 <= k <= |text| && Glob(after, text[k..]) { GlobFromSome(after, text, 0, k); }
  }

  datatype MatchState =
    MatchState(needleIndex: nat, patternIndex: nat, starIndex: int, starNeedleIndex: nat)

  const START := MatchState(0, 0, -1, 0)

  predicate Valid(pattern: string, needle: string, st: MatchState) {
    && st.starNeedleIndex <= st.needleIndex <= |needle|
    && st.patternIndex <= |pattern|
    && -1 <= st.starIndex < st.patternIndex + 1
    && (st.starIndex >= 0 ==> st.starIndex < st.patternIndex && pattern[st.starIndex] == '*')
  }

  function OverCharacter(st: MatchState): MatchState {
    st.(needleIndex := st.needleIndex + 1, patternIndex := st.patternIndex + 1)
  }

  function OverStar(st: MatchState): MatchState {
    st.(patternIndex := st.patternIndex + 1, starIndex := st.patternIndex, starNeedleIndex := st.needleIndex)
  }

  function BackToStar(st: MatchState): MatchState
    requires st.starIndex >= 0
  {
    MatchState(st.starNeedleIndex + 1, st.starIndex + 1, st.starIndex, st.starNeedleIndex + 1)
  }

  function Advance(pattern: string, needle: string, st: MatchState): (next: Option<MatchState>)
    requires Valid(pattern, needle, st) && st.needleIndex < |needle|
    ensures next.Some? ==>
              && Valid(pattern, needle, next.value)
              && (next.value.starNeedleIndex > st.starNeedleIndex
                  || (next.value.starNeedleIndex == st.starNeedleIndex
                      && next.value.patternIndex > st.patternIndex))
  {
    var atEnd := st.patternIndex == |pattern|;
    if !atEnd && (pattern[st.patternIndex] == '?' || pattern[st.patternIndex] == needle[st.needleIndex]) then
      Some(OverCharacter(st))
    else if !atEnd && pattern[st.patternIndex] == '*' then
      Some(OverStar(st))
    else if st.starIndex == -1 then None
    else Some(BackToStar(st))
  }

  predicate OnlyStars(pattern: string) {
    forall i | 0 <= i < |pattern| :: pattern[i] == '*'
  }

  lemma OnlyStarsCons(pattern: string)
    requires pattern != ""
    ensures OnlyStars(pattern) <==> pattern[0] == '*' && OnlyStars(pattern[1..])
  {
    forall i | 1 <= i < |pattern| ensures pattern[i] == pattern[1..][i - 1] {}
  }

  /** What the loop returns when it goes on from `st`. */
  function RunFrom(pattern: string, needle: string, st: MatchState): bool
    requires Valid(pattern, needle, st)
    decreases |needle| - st.starNeedleIndex, |pattern| - st.patternIndex
  {
    if st.needleIndex < |needle| then
      match Advance(pattern, needle, st)
      case None => false
      case Some(next) => RunFrom(pattern, needle, next)
    else OnlyStars(pattern[st.patternIndex..])
  }

  method MatchesHostPattern(pattern: string, needle: string) returns (matched: bool)
    ensures matched == RunFrom(pattern, needle, START)
    ensures '*' !in needle ==> (matched <==> Glob(pattern, needle))
  {
    if '*' !in needle { RunIsGlob(pattern, needle); }
    var state := START;
    while state.needleIndex < |needle|
      invariant Valid(pattern, needle, state)
      invariant RunFrom(pattern, needle, state) == RunFrom(pattern, needle, START)
      decreases |needle| - state.starNeedleIndex, |pattern| - state.patternIndex
    {
      var nextState := Advance(pattern, needle, state);
      if nextState.None? { return false; }
      state := nextState.value;
    }
    var patternIndex := state.patternIndex;
    while patternIndex < |pattern| && pattern[patternIndex] == '*'
      invariant state.patternIndex <= patternIndex <= |pattern|
      invariant OnlyStars(pattern[patternIndex..]) == OnlyStars(pattern[state.patternIndex..])
    {
      assert pattern[patternIndex..][1..] == pattern[patternIndex + 1..];
      OnlyStarsCons(pattern[patternIndex..]);
      patternIndex := patternIndex + 1;
    }
    if patternIndex < |pattern| { assert pattern[patternIndex..][0] == pattern[patternIndex]; }
    matched := patternIndex == |pattern|;
  }

  // ----- The loop decides the relation

  predicate Fits(c: char, d: char) { c == '?' || c == d }

  predicate NoStar(text: string) {
    forall i | 0 <= i < |text| :: text[i] != '*'
  }

  /** A star-free segment matches position by position. */
  predicate SegmentFits(segment: string, text: string) {
    && |segment| <= |text|
    && (forall i | 0 <= i < |segment| :: segment[i] != '*' && Fits(segment[i], text[i]))
  }

  lemma {:induction false} GlobSegment(segment: string, rest: string, text: string)
    requires NoStar(segment)
    ensures Glob(segment + rest, text) <==> SegmentFits(segment, text) && Glob(rest, text[|segment|..])
    decreases |segment|
  {
    var p := segment + rest;
    if segment == "" {
      assert p == rest && text[0..] == text;
    } else {
      assert segment[0] in segment && p[0] == segment[0] && p[1..] == segment[1..] + rest;
      if text != "" {
        GlobSegment(segment[1..], rest, text[1..]);
        if |segment| <= |text| { assert text[1..][|segment| - 1..] == text[|segment|..]; }
        assert SegmentFits(segment, text) <==> Fits(segment[0], text[0]) && SegmentFits(segment[1..], text[1..]) by {
          if SegmentFits(segment[1..], text[1..]) && Fits(segment[0], text[0]) {
            forall i | 0 <= i < |segment| ensures segment[i] != '*' && Fits(segment[i], text[i]) {
              if i > 0 { assert segment[1..][i - 1] == segment[i] && text[1..][i - 1] == text[i]; }
            }
          }
        }
      }
    }
  }

  lemma {:induction false} GlobEmpty(pattern: string)
    ensures Glob(pattern, "") <==> OnlyStars(pattern)
    decreases |pattern|
  {
    if pattern != "" {
      GlobEmpty(pattern[1..]);
      OnlyStarsCons(pattern);
    }
  }

  /** Since the last star the pattern has none, and as much of the needle has been passed. */
  predicate SegmentBehind(pattern: string, needle: string, st: MatchState)
    requires Valid(pattern, needle, st)
  {
    && st.needleIndex == st.starNeedleIndex + (st.patternIndex - (st.starIndex + 1))
    && StarFree(pattern, st.starIndex + 1, st.patternIndex)
  }

  predicate StarFree(pattern: string, from: int, end: nat)
    requires 0 <= from && end <= |pattern|
  {
    forall i | from <= i < end :: pattern[i] != '*'
  }

  /** What a state stands for: the rest matches from here, or what follows the last star matches from a
      position not tried yet. */
  ghost predicate Promise(pattern: string, needle: string, st: MatchState)
    requires Valid(pattern, needle, st)
  {
    || Glob(pattern[st.patternIndex..], needle[st.needleIndex..])
    || (st.starIndex >= 0 && st.starNeedleIndex < |needle|
        && GlobFrom(pattern[st.starIndex + 1..], needle, st.starNeedleIndex + 1))
  }

  /** Matching one character extends the segment and keeps the promise. */
  lemma StepCharacter(pattern: string, needle: string, st: MatchState)
    requires Valid(pattern, needle, st) && SegmentBehind(pattern, needle, st)
    requires st.needleIndex < |needle| && needle[st.needleIndex] != '*'
    requires st.patternIndex < |pattern| && Fits(pattern[st.patternIndex], needle[st.needleIndex])
    ensures SegmentBehind(pattern, needle, OverCharacter(st))
    ensures Promise(pattern, needle, st) == Promise(pattern, needle, OverCharacter(st))
  {
    GlobCharacterAt(pattern, st.patternIndex, needle, st.needleIndex);
  }

  lemma GlobCharacterAt(pattern: string, pi: nat, needle: string, ni: nat)
    requires pi < |pattern| && ni < |needle| && pattern[pi] != '*' && Fits(pattern[pi], needle[ni])
    ensures Glob(pattern[pi..], needle[ni..]) == Glob(pattern[pi + 1..], needle[ni + 1..])
  {
    GlobCharacter(pattern[pi..], needle[ni..]);
    assert pattern[pi..][1..] == pattern[pi + 1..];
    assert needle[ni..][1..] == needle[ni + 1..];
  }

  lemma GlobCharacter(pattern: string, text: string)
    requires pattern != "" && text != "" && pattern[0] != '*' && Fits(pattern[0], text[0])
    ensures Glob(pattern, text) == Glob(pattern[1..], text[1..])
  {}

  /** A star-free segment, then a star: the segment must fit, and the rest may start anywhere after it. */
  lemma SegmentThenStar(segment: string, after: string, text: string)
    requires NoStar(segment)
    ensures Glob(segment + ("*" + after), text)
         == (SegmentFits(segment, text) && GlobFrom(after, text, |segment|))
  {
    GlobSegment(segment, "*" + after, text);
    if |segment| <= |text| {
      StarIsAnyRun(after, text[|segment|..]);
      GlobFromTail(after, text, |segment|, 0);
    }
  }

  /** A later start of a segment with a star behind it promises no more than the star does where the
      segment was matched first. */
  lemma LaterStartIsCovered(segment: string, after: string, needle: string, first: nat, end: nat)
    requires NoStar(segment) && end == first + |segment| && first < |needle| && end <= |needle|
    requires GlobFrom(segment + ("*" + after), needle, first + 1)
    ensures GlobFrom(after, needle, end)
  {
    var k := GlobFromWitness(segment + ("*" + after), needle, first + 1);
    SegmentThenStar(segment, after, needle[k..]);
    GlobFromTail(after, needle, k, |segment|);
    GlobFromSome(after, needle, end, k + |segment|);
  }

  lemma TailAtStar(pattern: string, from: nat, pi: nat)
    requires from <= pi < |pattern| && pattern[pi] == '*'
    ensures pattern[from..] == pattern[from..pi] + ("*" + pattern[pi + 1..])
  {}

  lemma OlderStartsCovered(pattern: string, p0: nat, pi: nat, needle: string, first: nat)
    requires p0 <= pi < |pattern| && pattern[pi] == '*' && StarFree(pattern, p0, pi)
    requires first < |needle| && first + (pi - p0) <= |needle|
    ensures GlobFrom(pattern[p0..], needle, first + 1) ==> GlobFrom(pattern[pi + 1..], needle, first + (pi - p0))
  {
    TailAtStar(pattern, p0, pi);
    if GlobFrom(pattern[p0..], needle, first + 1) {
      LaterStartIsCovered(pattern[p0..pi], pattern[pi + 1..], needle, first, first + (pi - p0));
    }
  }

  /** Taking a new star keeps the promise: everything before it has been matched as early as possible. */
  lemma StepStar(pattern: string, needle: string, st: MatchState)
    requires Valid(pattern, needle, st) && SegmentBehind(pattern, needle, st)
    requires st.patternIndex < |pattern| && pattern[st.patternIndex] == '*'
    ensures SegmentBehind(pattern, needle, OverStar(st))
    ensures Promise(pattern, needle, st) == Promise(pattern, needle, OverStar(st))
  {
    StarMatchesAnywhere(pattern, st.patternIndex, needle, st.needleIndex);
    if st.starNeedleIndex < |needle| {
      OlderStartsCovered(pattern, st.starIndex + 1, st.patternIndex, needle, st.starNeedleIndex);
    }
  }

  lemma StarMatchesAnywhere(pattern: string, pi: nat, needle: string, ni: nat)
    requires pi < |pattern| && pattern[pi] == '*' && ni <= |needle|
    ensures Glob(pattern[pi..], needle[ni..]) == GlobFrom(pattern[pi + 1..], needle, ni)
  {
    assert pattern[pi..] == "*" + pattern[pi + 1..];
    StarIsAnyRun(pattern[pi + 1..], needle[ni..]);
    GlobFromTail(pattern[pi + 1..], needle, ni, 0);
  }

  /** Neither a star nor a character that fits. */
  predicate Stuck(pattern: string, needle: string, st: MatchState)
    requires Valid(pattern, needle, st) && st.needleIndex < |needle|
  {
    st.patternIndex < |pattern| ==>
      pattern[st.patternIndex] != '*' && !Fits(pattern[st.patternIndex], needle[st.needleIndex])
  }

  /** Going back to the star gives up a position that cannot match, and keeps the promise of the others. */
  lemma StepBack(pattern: string, needle: string, st: MatchState)
    requires Valid(pattern, needle, st) && SegmentBehind(pattern, needle, st)
    requires st.needleIndex < |needle| && Stuck(pattern, needle, st)
    ensures st.starIndex >= 0 ==>
              SegmentBehind(pattern, needle, BackToStar(st))
              && Promise(pattern, needle, st) == Promise(pattern, needle, BackToStar(st))
    ensures st.starIndex == -1 ==> !Promise(pattern, needle, st)
  {
    var rest := pattern[st.patternIndex..];
    assert rest != "" ==> rest[0] == pattern[st.patternIndex];
    assert needle[st.needleIndex..][0] == needle[st.needleIndex];
    assert !Glob(rest, needle[st.needleIndex..]);
  }

  lemma TooLate(segment: string, rest: string, needle: string, first: nat)
    requires NoStar(segment) && first + |segment| == |needle| && first < |needle|
    ensures !GlobFrom(segment + rest, needle, first + 1)
  {
    if GlobFrom(segment + rest, needle, first + 1) {
      var k := GlobFromWitness(segment + rest, needle, first + 1);
      GlobSegment(segment, rest, needle[k..]);
    }
  }

  lemma TooLateAt(pattern: string, p0: nat, pi: nat, needle: string, first: nat)
    requires p0 <= pi <= |pattern| && StarFree(pattern, p0, pi)
    requires first < |needle| && first + (pi - p0) == |needle|
    ensures !GlobFrom(pattern[p0..], needle, first + 1)
  {
    assert pattern[p0..] == pattern[p0..pi] + pattern[pi..];
    TooLate(pattern[p0..pi], pattern[pi..], needle, first);
  }

  /** At the end of the needle a later start of the segment would be too late for it. */
  lemma AtNeedleEnd(pattern: string, needle: string, st: MatchState)
    requires Valid(pattern, needle, st) && SegmentBehind(pattern, needle, st) && st.needleIndex == |needle|
    ensures OnlyStars(pattern[st.patternIndex..]) == Promise(pattern, needle, st)
  {
    assert needle[st.needleIndex..] == "";
    GlobEmpty(pattern[st.patternIndex..]);
    if st.starNeedleIndex < |needle| {
      TooLateAt(pattern, st.starIndex + 1, st.patternIndex, needle, st.starNeedleIndex);
    }
  }

  lemma RunsOverCharacter(pattern: string, needle: string, st: MatchState)
    requires Valid(pattern, needle, st) && st.needleIndex < |needle|
    requires st.patternIndex < |pattern| && Fits(pattern[st.patternIndex], needle[st.needleIndex])
    ensures RunFrom(pattern, needle, st) == RunFrom(pattern, needle, OverCharacter(st))
  {}

  lemma RunsOverStar(pattern: string, needle: string, st: MatchState)
    requires Valid(pattern, needle, st) && st.needleIndex < |needle|
    requires st.patternIndex < |pattern| && !Fits(pattern[st.patternIndex], needle[st.needleIndex])
    requires pattern[st.patternIndex] == '*'
    ensures RunFrom(pattern, needle, st) == RunFrom(pattern, needle, OverStar(st))
  {}

  lemma RunsBack(pattern: string, needle: string, st: MatchState)
    requires Valid(pattern, needle, st) && st.needleIndex < |needle| && Stuck(pattern, needle, st)
    ensures RunFrom(pattern, needle, st) == (st.starIndex >= 0 && RunFrom(pattern, needle, BackToStar(st)))
  {}

  /** From every state that the loop reaches, its answer is the state's promise. */
  lemma {:induction false} RunKeepsPromise(pattern: string, needle: string, st: MatchState)
    requires Valid(pattern, needle, st) && SegmentBehind(pattern, needle, st) && NoStar(needle)
    ensures RunFrom(pattern, needle, st) == Promise(pattern, needle, st)
    decreases |needle| - st.starNeedleIndex, |pattern| - st.patternIndex, 1
  {
    if st.needleIndex == |needle| {
      AtNeedleEnd(pattern, needle, st);
    } else if st.patternIndex < |pattern| && Fits(pattern[st.patternIndex], needle[st.needleIndex]) {
      CharacterKeepsPromise(pattern, needle, st);
    } else if st.patternIndex < |pattern| && pattern[st.patternIndex] == '*' {
      StarKeepsPromise(pattern, needle, st);
    } else {
      StuckKeepsPromise(pattern, needle, st);
    }
  }

  lemma {:induction false} CharacterKeepsPromise(pattern: string, needle: string, st: MatchState)
    requires Valid(pattern, needle, st) && SegmentBehind(pattern, needle, st) && NoStar(needle)
    requires st.needleIndex < |needle| && st.patternIndex < |pattern|
    requires Fits(pattern[st.patternIndex], needle[st.needleIndex])
    ensures RunFrom(pattern, needle, st) == Promise(pattern, needle, st)
    decreases |needle| - st.starNeedleIndex, |pattern| - st.patternIndex, 0
  {
    StepCharacter(pattern, needle, st);
    RunsOverCharacter(pattern, needle, st);
    RunKeepsPromise(pattern, needle, OverCharacter(st));
  }

  lemma {:induction false} StarKeepsPromise(pattern: string, needle: string, st: MatchState)
    requires Valid(pattern, needle, st) && SegmentBehind(pattern, needle, st) && NoStar(needle)
    requires st.needleIndex < |needle| && st.patternIndex < |pattern| && pattern[st.patternIndex] == '*'
    requires !Fits(pattern[st.patternIndex], needle[st.needleIndex])
    ensures RunFrom(pattern, needle, st) == Promise(pattern, needle, st)
    decreases |needle| - st.starNeedleIndex, |pattern| - st.patternIndex, 0
  {
    StepStar(pattern, needle, st);
    RunsOverStar(pattern, needle, st);
    RunKeepsPromise(pattern, needle, OverStar(st));
  }

  lemma {:induction false} StuckKeepsPromise(pattern: string, needle: string, st: MatchState)
    requires Valid(pattern, needle, st) && SegmentBehind(pattern, needle, st) && NoStar(needle)
    requires st.needleIndex < |needle| && Stuck(pattern, needle, st)
    ensures RunFrom(pattern, needle, st) == Promise(pattern, needle, st)
    decreases |needle| - st.starNeedleIndex, |pattern| - st.patternIndex, 0
  {
    StepBack(pattern, needle, st);
    RunsBack(pattern, needle, st);
    if st.starIndex >= 0 { RunKeepsPromise(pattern, needle, BackToStar(st)); }
  }

  /** The matcher decides the glob relation for every needle without a star. */
  lemma RunIsGlob(pattern: string, needle: string)
    requires '*' !in needle
    ensures RunFrom(pattern, needle, START) == Glob(pattern, needle)
  {
    assert NoStar(needle);
    RunKeepsPromise(pattern, needle, START);
    assert pattern[0..] == pattern && needle[0..] == needle;
  }

  // ----- and for no other needle

  function PatternForStarredNeedle(needle: string, i: nat): string
    requires i < |needle| && needle[i] == '*'
  {
    needle[..i] + "*" + (if i + 1 == |needle| then "?" else "")
  }

  lemma {:induction false} LiteralRun(pattern: string, needle: string, j: nat)
    requires j <= |needle| && j <= |pattern| && pattern[..j] == needle[..j]
    ensures RunFrom(pattern, needle, START) == RunFrom(pattern, needle, MatchState(j, j, -1, 0))
  {
    if j > 0 {
      assert pattern[..j][..j - 1] == pattern[..j - 1] && needle[..j][..j - 1] == needle[..j - 1];
      assert pattern[j - 1] == pattern[..j][j - 1] == needle[j - 1];
      LiteralRun(pattern, needle, j - 1);
    }
  }

  lemma StarredNeedleGlobs(needle: string, i: nat)
    requires i < |needle| && needle[i] == '*' && '*' !in needle[..i]
    ensures Glob(PatternForStarredNeedle(needle, i), needle)
  {
    var prefix, after, rest := needle[..i], (if i + 1 == |needle| then "?" else ""), needle[i..];
    assert PatternForStarredNeedle(needle, i) == prefix + ("*" + after);
    SegmentThenStar(prefix, after, needle);
    if i + 1 == |needle| {
      assert rest[1..] == "" && after[1..] == "";
      GlobFromSome(after, needle, i, i);
    } else {
      assert needle[|needle|..] == "";
      GlobFromSome("", needle, i, |needle|);
    }
  }

  lemma StarredNeedleStuck(needle: string, i: nat)
    requires i < |needle| && needle[i] == '*'
    ensures !RunFrom(PatternForStarredNeedle(needle, i), needle, MatchState(i + 1, i + 1, -1, 0))
  {
    var p := PatternForStarredNeedle(needle, i);
    if i + 1 == |needle| {
      assert p[i + 1..][0] == '?';
    } else {
      RunsBack(p, needle, MatchState(i + 1, i + 1, -1, 0));
    }
  }

  lemma PatternPrefix(needle: string, i: nat)
    requires i < |needle| && needle[i] == '*'
    ensures |PatternForStarredNeedle(needle, i)| >= i + 1
    ensures PatternForStarredNeedle(needle, i)[..i + 1] == needle[..i + 1]
  {}

  lemma StarredNeedleRejected(needle: string, i: nat)
    requires i < |needle| && needle[i] == '*'
    ensures !RunFrom(PatternForStarredNeedle(needle, i), needle, START)
  {
    PatternPrefix(needle, i);
    LiteralRun(PatternForStarredNeedle(needle, i), needle, i + 1);
    StarredNeedleStuck(needle, i);
  }

  lemma StarredNeedleFails(needle: string, i: nat)
    requires i < |needle| && needle[i] == '*' && '*' !in needle[..i]
    ensures Glob(PatternForStarredNeedle(needle, i), needle)
    ensures !RunFrom(PatternForStarredNeedle(needle, i), needle, START)
  {
    StarredNeedleGlobs(needle, i);
    StarredNeedleRejected(needle, i);
  }

  /** The needles on which matcher and relation agree for all patterns are exactly those without a
      star; validated host labels contain none. */
  lemma AgreesExactlyWithoutStar(needle: string)
    ensures '*' !in needle <==> forall pattern :: RunFrom(pattern, needle, START) <==> Glob(pattern, needle)
  {
    if '*' !in needle {
      forall pattern ensures RunFrom(pattern, needle, START) <==> Glob(pattern, needle) {
        RunIsGlob(pattern, needle);
      }
    } else {
      var i := FirstStar(needle);
      StarredNeedleFails(needle, i);
    }
  }

  lemma {:induction false} FirstStar(needle: string) returns (i: nat)
    requires '*' in needle
    ensures i < |needle| && needle[i] == '*' && '*' !in needle[..i]
    decreases |needle|
  {
    if needle[0] == '*' {
      i := 0;
    } else {
      assert needle == [needle[0]] + needle[1..];
      var k := FirstStar(needle[1..]);
      i := k + 1;
      assert needle[..i] == [needle[0]] + needle[1..][..k];
    }
  }

  // ----- Pattern lists

  function LowerChar(c: char): char {
    if 'A' <= c <= 'Z' then (c as int + 32) as char else c
  }

  function ToLowerCase(s: string): string {
    seq(|s|, i requires 0 <= i < |s| => LowerChar(s[i]))
  }

  predicate IsHashed(pattern: string) { "|1|" <= pattern }

  /** One pattern of a list against the needle; hashed entries are decided by `hashMatches`. */
  predicate PatternMatches(hashMatches: (string, string) -> bool, pattern: string, needle: string) {
    if IsHashed(pattern) then hashMatches(pattern, needle)
    else Glob(ToLowerCase(pattern), ToLowerCase(needle))
  }

  predicate IsNegated(raw: string) { "!" <= raw }

  function Body(raw: string): string { if IsNegated(raw) then raw[1..] else raw }

  predicate Hit(hashMatches: (string, string) -> bool, raw: string, needle: string) {
    Body(raw) != "" && PatternMatches(hashMatches, Body(raw), needle)
  }

  /** Some positive pattern matches and no negated one does: the order of the list is irrelevant. */
  predicate ListMatches(hashMatches: (string, string) -> bool, patterns: seq<string>, needle: string) {
    && (exists raw <- patterns :: !IsNegated(raw) && Hit(hashMatches, raw, needle))
    && (forall raw <- patterns :: IsNegated(raw) ==> !Hit(hashMatches, raw, needle))
  }

  /** A negated pattern behind a list can only take matches away, and a lone `!` does nothing. */
  lemma NegatedBehind(hashMatches: (string, string) -> bool, patterns: seq<string>, pattern: string, needle: string)
    ensures ListMatches(hashMatches, patterns + ["!" + pattern], needle)
       <==> ListMatches(hashMatches, patterns, needle) && (pattern == "" || !PatternMatches(hashMatches, pattern, needle))
  {
    var raw := "!" + pattern;
    assert raw[0] == '!' && Body(raw) == pattern;
    HitsBehind(hashMatches, patterns, raw, needle);
  }

  /** A positive one can only add matches, and none that a negated one forbids. */
  lemma PositiveBehind(hashMatches: (string, string) -> bool, patterns: seq<string>, pattern: string, needle: string)
    requires pattern == "" || pattern[0] != '!'
    ensures ListMatches(hashMatches, patterns + [pattern], needle)
       <==> || ListMatches(hashMatches, patterns, needle)
            || (pattern != "" && PatternMatches(hashMatches, pattern, needle)
                && !SomeHit(hashMatches, patterns, needle, true))
  {
    HitsBehind(hashMatches, patterns, pattern, needle);
  }

  ghost predicate SomeHit(hashMatches: (string, string) -> bool, patterns: seq<string>, needle: string, negated: bool) {
    exists i | 0 <= i < |patterns| :: IsNegated(patterns[i]) == negated && Hit(hashMatches, patterns[i], needle)
  }

  lemma HitsBehind(hashMatches: (string, string) -> bool, patterns: seq<string>, raw: string, needle: string)
    ensures ListMatches(hashMatches, patterns, needle)
         == (SomeHit(hashMatches, patterns, needle, false) && !SomeHit(hashMatches, patterns, needle, true))
    ensures ListMatches(hashMatches, patterns + [raw], needle)
         == (SomeHit(hashMatches, patterns + [raw], needle, false) && !SomeHit(hashMatches, patterns + [raw], needle, true))
    ensures forall negated :: SomeHit(hashMatches, patterns + [raw], needle, negated)
                              == (SomeHit(hashMatches, patterns, needle, negated)
                                  || (IsNegated(raw) == negated && Hit(hashMatches, raw, needle)))
  {
    var all := patterns + [raw];
    assert all[|patterns|] == raw && forall i | 0 <= i < |patterns| :: all[i] == patterns[i];
  }

  method MatchesKnownHostPatternList(hashMatches: (string, string) -> bool, patterns: seq<string>, needle: string)
    returns (matched: bool)
    requires '*' !in needle
    ensures matched <==> ListMatches(hashMatches, patterns, needle)
  {
    var matchedPositivePattern := false;
    var lowered := ToLowerCase(needle);
    LowerKeepsStars(needle);
    for i := 0 to |patterns|
      invariant matchedPositivePattern <==>
                  exists raw <- patterns[..i] :: !IsNegated(raw) && Hit(hashMatches, raw, needle)
      invariant forall raw <- patterns[..i] :: IsNegated(raw) ==> !Hit(hashMatches, raw, needle)
    {
      assert patterns[..i + 1] == patterns[..i] + [patterns[i]];
      assert patterns[i] in patterns;
      var pattern := Body(patterns[i]);
      if |pattern| == 0 { continue; }
      var hit: bool;
      if IsHashed(pattern) {
        hit := hashMatches(pattern, needle);
      } else {
        hit := MatchesHostPattern(ToLowerCase(pattern), lowered);
      }
      if !hit { continue; }
      if IsNegated(patterns[i]) { return false; }
      matchedPositivePattern := true;
    }
    assert patterns[..|patterns|] == patterns;
    matched := matchedPositivePattern;
  }

  lemma LowerKeepsStars(s: string)
    ensures '*' in ToLowerCase(s) <==> '*' in s
  {
    forall i | 0 <= i < |s| ensures ToLowerCase(s)[i] == '*' <==> s[i] == '*' {}
    if '*' in s {
      var i :| 0 <= i < |s| && s[i] == '*';
      assert ToLowerCase(s)[i] == '*';
    }
  }

  /** The capitals of the basic Latin alphabet become the small letter at the same place in it, and no other
      character changes. */
  lemma LowerCaseExactly(s: string, i: nat)
    requires i < |s|
    ensures |ToLowerCase(s)| == |s|
    ensures s[i] < 'A' || s[i] > 'Z' ==> ToLowerCase(s)[i] == s[i]
    ensures 'A' <= s[i] <= 'Z' ==> 'a' <= ToLowerCase(s)[i] <= 'z'
    ensures 'A' <= s[i] <= 'Z' ==> ToLowerCase(s)[i] as int - 'a' as int == s[i] as int - 'A' as int
  {
    var c := s[i];
    assert ToLowerCase(s)[i] == LowerChar(c);
    if 'A' <= c <= 'Z' { assert LowerChar(c) as int == c as int + 32; }
  }
}
