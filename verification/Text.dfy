/** String search and replacement as JavaScript's `String.prototype.replaceAll` performs it,
    shared by the redaction, quoting and dotenv models. */
module Text {

  /** `pattern` stands in `text` at index `i`. */
  predicate OccursAt<T(==)>(pattern: seq<T>, text: seq<T>, i: int) {
    0 <= i && i + |pattern| <= |text| && text[i..i + |pattern|] == pattern
  }

  ghost predicate Contains<T>(pattern: seq<T>, text: seq<T>) {
    exists i :: OccursAt(pattern, text, i)
  }

  /** String.prototype.includes: the same, by search. */
  predicate Includes<T(==)>(text: seq<T>, pattern: seq<T>): (found: bool)
    ensures found <==> Contains(pattern, text)
  {
    exists i | 0 <= i <= |text| :: OccursAt(pattern, text, i)
  }

  predicate IsSuffix<T(==)>(tail: seq<T>, text: seq<T>) {
    |tail| <= |text| && text[|text| - |tail|..] == tail
  }

  /** Left to right, replacing every non-overlapping occurrence. */
  function ReplaceAll<T(==)>(text: seq<T>, pattern: seq<T>, replacement: seq<T>): seq<T>
    requires pattern != []
    decreases |text|
  {
    if text == [] then []
    else if pattern <= text then replacement + ReplaceAll(text[|pattern|..], pattern, replacement)
    else [text[0]] + ReplaceAll(text[1..], pattern, replacement)
  }

  function Concat<T>(parts: seq<seq<T>>): seq<T> {
    if parts == [] then [] else parts[0] + Concat(parts[1..])
  }

  lemma {:induction false} ConcatSnoc<T>(parts: seq<seq<T>>, last: seq<T>)
    ensures Concat(parts + [last]) == Concat(parts) + last
  {
    if parts == [] {
      assert [last][1..] == [];
    } else {
      ConcatSnoc(parts[1..], last);
      assert (parts + [last])[1..] == parts[1..] + [last];
    }
  }

  /** Where an occurrence in a concatenation lies entirely inside one part, it is one of that part. */
  lemma OccursInMiddle<T>(pattern: seq<T>, before: seq<T>, middle: seq<T>, after: seq<T>, i: int)
    requires |before| <= i && i + |pattern| <= |before| + |middle|
    ensures OccursAt(pattern, before + middle + after, i) <==> OccursAt(pattern, middle, i - |before|)
  {
    assert (before + middle + after)[i..i + |pattern|] == middle[i - |before|..i - |before| + |pattern|];
  }

  /** A text whose replacement is free of the replacement text was not changed. */
  lemma {:induction false} ReplaceAllUnchanged<T>(text: seq<T>, pattern: seq<T>, replacement: seq<T>)
    requires pattern != []
    ensures ReplaceAll(text, pattern, replacement) == text
         || Contains(replacement, ReplaceAll(text, pattern, replacement))
    decreases |text|
  {
    var r := ReplaceAll(text, pattern, replacement);
    if text == [] {
    } else if pattern <= text {
      assert OccursAt(replacement, r, 0);
    } else {
      ReplaceAllUnchanged(text[1..], pattern, replacement);
      var rest := ReplaceAll(text[1..], pattern, replacement);
      if rest != text[1..] {
        var i :| OccursAt(replacement, rest, i);
        assert r[i + 1..i + 1 + |replacement|] == rest[i..i + |replacement|];
        assert OccursAt(replacement, r, i + 1);
      }
    }
  }

  lemma ReplaceHere<T>(pattern: seq<T>, rest: seq<T>, replacement: seq<T>)
    requires pattern != []
    ensures ReplaceAll(pattern + rest, pattern, replacement) == replacement + ReplaceAll(rest, pattern, replacement)
  {
    assert (pattern + rest)[|pattern|..] == rest;
  }

  lemma ReplaceLater<T>(first: T, rest: seq<T>, pattern: seq<T>, replacement: seq<T>)
    requires pattern != [] && !(pattern <= [first] + rest)
    ensures ReplaceAll([first] + rest, pattern, replacement) == [first] + ReplaceAll(rest, pattern, replacement)
  {
    assert ([first] + rest)[1..] == rest;
  }

  lemma ReplacePasses<T>(first: T, rest: seq<T>, pattern: seq<T>, replacement: seq<T>)
    requires pattern != [] && pattern[0] != first
    ensures ReplaceAll([first] + rest, pattern, replacement) == [first] + ReplaceAll(rest, pattern, replacement)
  {
    assert ([first] + rest)[0] == first;
    ReplaceLater(first, rest, pattern, replacement);
  }

  /** The digits of a number as text, no leading zero. */
  function Decimal(n: nat): string {
    if n < 10 then [Digit(n)] else Decimal(n / 10) + [Digit(n % 10)]
  }

  function Digit(d: nat): char
    requires d < 10
  {
    ('0' as int + d) as char
  }

  /** String.prototype.split with a one-character separator. */
  function SplitAt(text: string, sep: char): (parts: seq<string>)
    ensures parts != []
  {
    if text == "" then [""]
    else
      var rest := SplitAt(text[1..], sep);
      if text[0] == sep then [""] + rest else [[text[0]] + rest[0]] + rest[1..]
  }

  /** String.prototype.trimEnd; the white-space table is a parameter. */
  function TrimEnd(text: string, isSpace: char -> bool): string {
    if text != "" && isSpace(text[|text| - 1]) then TrimEnd(text[..|text| - 1], isSpace) else text
  }
}
