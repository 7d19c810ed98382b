/** The known_hosts trust store (packages/paratix/src/knownHosts.ts): its parser, and the line that an
    accepted key appends. */
module KnownHosts {
  import opened ByteStrings
  import opened Text
  import opened Wrappers

  type Key = Bytes

  datatype Entry = Entry(algo: string, host: string, hostPatterns: seq<string>, key: Key, marker: Option<string>)

  /** What the platform provides: the Unicode white-space table, the base64 codec, the salted hash of
      hashed entries, and the algorithm name inside a key blob (None for an unsupported blob). */
  datatype Platform = Platform(isSpace: char -> bool, encode: Key -> string, decode: string -> Key,
                               hashMatches: (string, string) -> bool, algoOf: Key -> Option<string>)

  predicate Base64Char(c: char) {
    'A' <= c <= 'Z' || 'a' <= c <= 'z' || '0' <= c <= '9' || c == '+' || c == '/'
  }

  function LeadingBase64(s: string): (n: nat)
    ensures n <= |s| && forall i :: 0 <= i < n ==> Base64Char(s[i])
  {
    if s == "" || !Base64Char(s[0]) then 0 else 1 + LeadingBase64(s[1..])
  }

  /** One or more alphabet characters, then any number of `=`. */
  predicate StrictBase64(s: string) {
    var n := LeadingBase64(s);
    n >= 1 && forall i | n <= i < |s| :: s[i] == '='
  }

  /** `n` alphabet characters, then nothing but `=`. */
  predicate PaddedFrom(s: string, n: nat)
    requires n <= |s|
  {
    (forall i | 0 <= i < n :: Base64Char(s[i])) && (forall i | n <= i < |s| :: s[i] == '=')
  }

  lemma {:induction false} PaddedIsLeading(s: string, n: nat)
    requires n <= |s| && PaddedFrom(s, n)
    ensures LeadingBase64(s) == n
    decreases n
  {
    if n > 0 {
      assert Base64Char(s[0]);
      PaddedIsLeading(s[1..], n - 1);
    }
  }

  lemma StrictBase64Exactly(s: string)
    ensures StrictBase64(s) <==> exists n | 1 <= n <= |s| :: PaddedFrom(s, n)
  {
    assert StrictBase64(s) ==> PaddedFrom(s, LeadingBase64(s));
    forall n | 1 <= n <= |s| && PaddedFrom(s, n) ensures LeadingBase64(s) == n { PaddedIsLeading(s, n); }
  }

  ghost predicate Lawful(p: Platform) {
    && p.isSpace(' ') && p.isSpace('\n')
    && (forall c: char :: '!' <= c <= '~' ==> !p.isSpace(c))
    && (forall k: Key :: k != [] ==> StrictBase64(p.encode(k)) && p.decode(p.encode(k)) == k)
    && (forall k: Key :: p.algoOf(k).Some? ==> k != [] && p.algoOf(k).value != "")
  }

  // ----- The parser

  function TrimStart(text: string, isSpace: char -> bool): string {
    if text != "" && isSpace(text[0]) then TrimStart(text[1..], isSpace) else text
  }

  function Trim(text: string, isSpace: char -> bool): string {
    TrimEnd(TrimStart(text, isSpace), isSpace)
  }

  /** Characters before the first white space. */
  function WordLength(text: string, isSpace: char -> bool): (n: nat)
    ensures n <= |text| && (n < |text| ==> isSpace(text[n]))
  {
    if text == "" || isSpace(text[0]) then 0 else 1 + WordLength(text[1..], isSpace)
  }

  lemma {:induction false} TrimStartShrinks(text: string, isSpace: char -> bool)
    ensures |TrimStart(text, isSpace)| <= |text|
    ensures text != "" && isSpace(text[0]) ==> |TrimStart(text, isSpace)| < |text|
  {
    if text != "" && isSpace(text[0]) { TrimStartShrinks(text[1..], isSpace); }
  }

  /** The pieces between runs of white space. */
  function Fields(text: string, isSpace: char -> bool): seq<string>
    decreases |text|
  {
    var n := WordLength(text, isSpace);
    if n == |text| then [text]
    else
      TrimStartShrinks(text[n..], isSpace);
      [text[..n]] + Fields(TrimStart(text[n..], isSpace), isSpace)
  }

  predicate StartsWith(text: string, c: char) {
    text != "" && text[0] == c
  }

  function ParseLine(p: Platform, line: string): seq<Entry> {
    var parts := Fields(line, p.isSpace);
    var offset := if parts != [] && StartsWith(parts[0], '@') then 1 else 0;
    if |parts| < 3 + offset then []
    else if !StrictBase64(parts[offset + 2]) then []
    else
      var hosts := SplitAt(parts[offset], ',');
      var marker := if offset == 1 then Some(parts[0]) else None;
      EntriesFor(hosts, hosts, parts[offset + 1], p.decode(parts[offset + 2]), marker)
  }

  function EntriesFor(hosts: seq<string>, patterns: seq<string>, algo: string, key: Key, marker: Option<string>)
    : seq<Entry>
  {
    if hosts == [] then []
    else [Entry(algo, hosts[0], patterns, key, marker)] + EntriesFor(hosts[1..], patterns, algo, key, marker)
  }

  function ParseRaw(p: Platform, raw: string): seq<Entry> {
    var line := Trim(raw, p.isSpace);
    if line == "" || StartsWith(line, '#') then [] else ParseLine(p, line)
  }

  function ParseLines(p: Platform, lines: seq<string>): seq<Entry> {
    if lines == [] then [] else ParseRaw(p, lines[0]) + ParseLines(p, lines[1..])
  }

  function Parse(p: Platform, content: string): seq<Entry> {
    ParseLines(p, SplitAt(content, '\n'))
  }

  lemma ParseLinesFrom(p: Platform, lines: seq<string>, i: nat)
    requires i < |lines|
    ensures ParseLines(p, lines[i..]) == ParseRaw(p, lines[i]) + ParseLines(p, lines[i + 1..])
  {
    var tail := lines[i..];
    assert tail[0] == lines[i] && tail[1..] == lines[i + 1..];
  }

  method ParseKnownHosts(p: Platform, content: string) returns (entries: seq<Entry>)
    ensures entries == Parse(p, content)
  {
    entries := [];
    var lines := SplitAt(content, '\n');
    assert lines[0..] == lines;
    ghost var rest := ParseLines(p, lines);
    for i := 0 to |lines|
      invariant rest == ParseLines(p, lines[i..])
      invariant entries + rest == Parse(p, content)
    {
      ParseLinesFrom(p, lines, i);
      var found := EntriesOfLine(p, lines[i]);
      rest := ParseLines(p, lines[i + 1..]);
      Associative(entries, found, rest);
      entries := entries + found;
    }
    assert rest == [];
  }

  lemma Associative<T>(a: seq<T>, b: seq<T>, c: seq<T>)
    ensures a + (b + c) == (a + b) + c
  {}

  method EntriesOfLine(p: Platform, raw: string) returns (found: seq<Entry>)
    ensures found == ParseRaw(p, raw)
  {
    var line := Trim(raw, p.isSpace);
    if line == "" || StartsWith(line, '#') { return []; }
    found := ParseLine(p, line);
  }

  // ----- What an appended line adds

  /** An empty store, or one whose last line is ended. */
  predicate Terminated(content: string) {
    content == "" || content[|content| - 1] == '\n'
  }

  function Prepended(c: char, parts: seq<string>, sep: char): seq<string>
    requires parts != []
  {
    if c == sep then [""] + parts else [[c] + parts[0]] + parts[1..]
  }

  lemma SplitAtCons(c: char, text: string, sep: char)
    ensures SplitAt([c] + text, sep) == Prepended(c, SplitAt(text, sep), sep)
  {
    assert ([c] + text)[1..] == text;
  }

  lemma PrependedConcat(c: char, a: seq<string>, b: seq<string>, sep: char)
    requires a != []
    ensures Prepended(c, a + b, sep) == Prepended(c, a, sep) + b
  {
    assert (a + b)[1..] == a[1..] + b && (a + b)[0] == a[0];
  }

  lemma {:induction false} SplitAtSeparator(a: string, b: string, sep: char)
    ensures SplitAt(a + ([sep] + b), sep) == SplitAt(a, sep) + SplitAt(b, sep)
    decreases |a|
  {
    if a == "" {
      assert a + ([sep] + b) == [sep] + b;
      SplitAtCons(sep, b, sep);
    } else {
      var c, rest := a[0], a[1..];
      assert a == [c] + rest && a + ([sep] + b) == [c] + (rest + ([sep] + b));
      SplitAtSeparator(rest, b, sep);
      SplitAtCons(c, rest, sep);
      SplitAtCons(c, rest + ([sep] + b), sep);
      PrependedConcat(c, SplitAt(rest, sep), SplitAt(b, sep), sep);
    }
  }

  lemma {:induction false} SplitAtNothing(a: string, sep: char)
    requires sep !in a
    ensures SplitAt(a, sep) == [a]
    decreases |a|
  {
    if a != "" {
      SplitAtNothing(a[1..], sep);
      assert a == [a[0]] + a[1..];
    }
  }

  lemma {:induction false} ParseLinesConcat(p: Platform, a: seq<string>, b: seq<string>)
    ensures ParseLines(p, a + b) == ParseLines(p, a) + ParseLines(p, b)
    decreases |a|
  {
    if a == [] {
      assert a + b == b;
    } else {
      assert (a + b)[1..] == a[1..] + b;
      ParseLinesConcat(p, a[1..], b);
    }
  }

  lemma NothingToParse(p: Platform)
    ensures ParseRaw(p, "") == [] && ParseLines(p, [""]) == [] && Parse(p, "") == []
  {
    assert ParseRaw(p, "") == [];
  }

  /** A line end closes what stands before it. */
  lemma ParseAfterLineEnd(p: Platform, a: string, more: string)
    ensures Parse(p, a + (['\n'] + more)) == ParseLines(p, SplitAt(a, '\n')) + Parse(p, more)
  {
    SplitAtSeparator(a, more, '\n');
    ParseLinesConcat(p, SplitAt(a, '\n'), SplitAt(more, '\n'));
  }

  lemma LineEndParts(content: string, more: string)
    requires content != "" && content[|content| - 1] == '\n'
    ensures var a := content[..|content| - 1];
            content + more == a + (['\n'] + more) && content == a + (['\n'] + "")
  {}

  /** Behind a terminated store, a text is parsed on its own. */
  lemma ParseConcat(p: Platform, content: string, more: string)
    requires Terminated(content)
    ensures Parse(p, content + more) == Parse(p, content) + Parse(p, more)
  {
    NothingToParse(p);
    if content == "" {
      assert content + more == more;
    } else {
      LineEndParts(content, more);
      ParseTerminated(p, content[..|content| - 1], more);
    }
  }

  lemma ParseTerminated(p: Platform, a: string, more: string)
    ensures Parse(p, a + (['\n'] + more)) == Parse(p, a + (['\n'] + "")) + Parse(p, more)
  {
    NothingToParse(p);
    ParseAfterLineEnd(p, a, more);
    ParseAfterLineEnd(p, a, "");
    var front := ParseLines(p, SplitAt(a, '\n'));
    assert front + [] == front;
  }

  predicate Solid(s: string, isSpace: char -> bool) {
    s != "" && forall i | 0 <= i < |s| :: !isSpace(s[i])
  }

  lemma {:induction false} WordLengthSolid(s: string, rest: string, isSpace: char -> bool)
    requires Solid(s, isSpace) && (rest == "" || isSpace(rest[0]))
    ensures WordLength(s + rest, isSpace) == |s|
    decreases |s|
  {
    assert (s + rest)[1..] == s[1..] + rest;
    if |s| > 1 { WordLengthSolid(s[1..], rest, isSpace); }
  }

  lemma FieldsSolid(s: string, isSpace: char -> bool)
    requires Solid(s, isSpace)
    ensures Fields(s, isSpace) == [s]
  {
    WordLengthSolid(s, "", isSpace);
    assert s + "" == s;
  }

  lemma FieldsCons(s: string, rest: string, isSpace: char -> bool)
    requires Solid(s, isSpace) && isSpace(' ') && rest != "" && !isSpace(rest[0])
    ensures Fields(s + " " + rest, isSpace) == [s] + Fields(rest, isSpace)
  {
    assert s + " " + rest == s + (" " + rest);
    WordLengthSolid(s, " " + rest, isSpace);
    TrimOneBlank(rest, isSpace);
    FieldsSplit(s, " " + rest, isSpace);
  }

  lemma TrimOneBlank(rest: string, isSpace: char -> bool)
    requires isSpace(' ') && rest != "" && !isSpace(rest[0])
    ensures TrimStart(" " + rest, isSpace) == rest
  {
    assert (" " + rest)[1..] == rest;
  }

  lemma FieldsSplit(s: string, tail: string, isSpace: char -> bool)
    requires tail != "" && WordLength(s + tail, isSpace) == |s|
    ensures Fields(s + tail, isSpace) == [s] + Fields(TrimStart(tail, isSpace), isSpace)
  {
    assert (s + tail)[..|s|] == s && (s + tail)[|s|..] == tail;
  }

  function LineText(p: Platform, needle: string, algo: string, key: Key): string {
    needle + " " + algo + " " + p.encode(key)
  }

  predicate IsComment(needle: string) { StartsWith(needle, '#') }

  predicate IsMarker(needle: string) { StartsWith(needle, '@') }

  lemma EncodedIsSolid(p: Platform, key: Key)
    requires Lawful(p) && key != []
    ensures Solid(p.encode(key), p.isSpace) && '\n' !in p.encode(key)
  {
    var s := p.encode(key);
    forall i | 0 <= i < |s| ensures !p.isSpace(s[i]) && s[i] != '\n' { assert Base64Char(s[i]) || s[i] == '='; }
  }

  lemma LineFields(p: Platform, needle: string, algo: string, key: Key)
    requires Lawful(p) && Solid(needle, p.isSpace) && Solid(algo, p.isSpace) && key != []
    ensures Fields(LineText(p, needle, algo, key), p.isSpace) == [needle, algo, p.encode(key)]
  {
    EncodedIsSolid(p, key);
    var rest := algo + " " + p.encode(key);
    assert LineText(p, needle, algo, key) == needle + " " + rest;
    FieldsCons(needle, rest, p.isSpace);
    FieldsCons(algo, p.encode(key), p.isSpace);
    FieldsSolid(p.encode(key), p.isSpace);
  }

  lemma LineIsTrimmed(p: Platform, needle: string, algo: string, key: Key)
    requires Lawful(p) && Solid(needle, p.isSpace) && Solid(algo, p.isSpace) && key != []
    ensures Trim(LineText(p, needle, algo, key), p.isSpace) == LineText(p, needle, algo, key)
    ensures '\n' !in LineText(p, needle, algo, key)
  {
    EncodedIsSolid(p, key);
    var line, encoded := LineText(p, needle, algo, key), p.encode(key);
    assert line[0] == needle[0] && line[|line| - 1] == encoded[|encoded| - 1];
    assert '\n' !in needle && '\n' !in algo;
  }

  lemma OneEntry(needle: string, algo: string, key: Key)
    requires ',' !in needle
    ensures EntriesFor(SplitAt(needle, ','), SplitAt(needle, ','), algo, key, None)
         == [Entry(algo, needle, [needle], key, None)]
  {
    SplitAtNothing(needle, ',');
    assert [needle][1..] == [];
  }

  lemma LineEntries(p: Platform, needle: string, algo: string, key: Key)
    requires Lawful(p) && Solid(needle, p.isSpace) && Solid(algo, p.isSpace) && key != [] && ',' !in needle
    ensures ParseRaw(p, LineText(p, needle, algo, key))
         == if IsComment(needle) || IsMarker(needle) then [] else [Entry(algo, needle, [needle], key, None)]
  {
    LineIsTrimmed(p, needle, algo, key);
    LineFields(p, needle, algo, key);
    OneEntry(needle, algo, key);
    assert LineText(p, needle, algo, key)[0] == needle[0];
  }

  /** A label that starts with `#` makes the line a comment, one that starts with `@` makes it a marked
      line with a field too few; every other line parses to its own entry. */
  lemma LineParses(p: Platform, needle: string, algo: string, key: Key)
    requires Lawful(p) && Solid(needle, p.isSpace) && Solid(algo, p.isSpace) && key != [] && ',' !in needle
    ensures Parse(p, LineText(p, needle, algo, key) + "\n")
         == if IsComment(needle) || IsMarker(needle) then [] else [Entry(algo, needle, [needle], key, None)]
  {
    var line := LineText(p, needle, algo, key);
    LineIsTrimmed(p, needle, algo, key);
    LineEntries(p, needle, algo, key);
    NothingToParse(p);
    assert line + "\n" == line + (['\n'] + "");
    ParseAfterLineEnd(p, line, "");
    SplitAtNothing(line, '\n');
    assert ParseLines(p, [line]) == ParseRaw(p, line);
  }

  // ----- Lines in general

  function JoinCommas(hosts: seq<string>): string
    requires hosts != []
  {
    if |hosts| == 1 then hosts[0] else hosts[0] + "," + JoinCommas(hosts[1..])
  }

  lemma {:induction false} SplitJoined(hosts: seq<string>)
    requires hosts != [] && forall i | 0 <= i < |hosts| :: ',' !in hosts[i]
    ensures SplitAt(JoinCommas(hosts), ',') == hosts
    decreases |hosts|
  {
    if |hosts| == 1 {
      SplitAtNothing(hosts[0], ',');
    } else {
      var rest := JoinCommas(hosts[1..]);
      SplitJoined(hosts[1..]);
      SplitAtSeparator(hosts[0], rest, ',');
      SplitAtNothing(hosts[0], ',');
      assert hosts[0] + "," + rest == hosts[0] + ([','] + rest);
      assert hosts == [hosts[0]] + hosts[1..];
    }
  }

  lemma {:induction false} EntriesOneByOne(hosts: seq<string>, patterns: seq<string>, algo: string, key: Key,
                                           marker: Option<string>)
    ensures var entries := EntriesFor(hosts, patterns, algo, key, marker);
            && |entries| == |hosts|
            && forall i | 0 <= i < |hosts| :: entries[i] == Entry(algo, hosts[i], patterns, key, marker)
  {
    if hosts != [] { EntriesOneByOne(hosts[1..], patterns, algo, key, marker); }
  }

  /** The fields that the parser sees, whichever way they are spaced. */
  lemma FieldsParse(p: Platform, line: string, marker: Option<string>, label0: string, algo: string, key: Key)
    requires Lawful(p) && key != [] && (if marker.Some? then IsMarker(marker.value) else !IsMarker(label0))
    requires Fields(line, p.isSpace)
          == (if marker.Some? then [marker.value] else []) + [label0, algo, p.encode(key)]
    ensures ParseLine(p, line) == EntriesFor(SplitAt(label0, ','), SplitAt(label0, ','), algo, key, marker)
  {}

  /** A line with a marker, or without one, and a list of hosts: one entry for every host, each with the whole
      list as its patterns and with the marker. */
  lemma ListLineParses(p: Platform, marker: Option<string>, hosts: seq<string>, algo: string, key: Key)
    requires Lawful(p) && hosts != [] && key != [] && Solid(algo, p.isSpace)
    requires marker.Some? ==> Solid(marker.value, p.isSpace) && IsMarker(marker.value)
    requires forall i | 0 <= i < |hosts| :: ',' !in hosts[i]
    requires Solid(JoinCommas(hosts), p.isSpace) && (marker.None? ==> !IsMarker(JoinCommas(hosts)))
    ensures var entries := ParseLine(p, (if marker.Some? then marker.value + " " else "")
                                        + LineText(p, JoinCommas(hosts), algo, key));
            && |entries| == |hosts|
            && forall i | 0 <= i < |hosts| :: entries[i] == Entry(algo, hosts[i], hosts, key, marker)
  {
    var label0 := JoinCommas(hosts);
    var text := LineText(p, label0, algo, key);
    var line := (if marker.Some? then marker.value + " " else "") + text;
    MarkedFields(p, marker, label0, algo, key);
    FieldsParse(p, line, marker, label0, algo, key);
    SplitJoined(hosts);
    EntriesOneByOne(hosts, hosts, algo, key, marker);
  }

  lemma MarkedFields(p: Platform, marker: Option<string>, label0: string, algo: string, key: Key)
    requires Lawful(p) && Solid(label0, p.isSpace) && Solid(algo, p.isSpace) && key != []
    requires marker.Some? ==> Solid(marker.value, p.isSpace)
    ensures Fields((if marker.Some? then marker.value + " " else "") + LineText(p, label0, algo, key), p.isSpace)
         == (if marker.Some? then [marker.value] else []) + [label0, algo, p.encode(key)]
  {
    var text := LineText(p, label0, algo, key);
    LineFields(p, label0, algo, key);
    if marker.Some? {
      assert text[0] == label0[0];
      FieldsCons(marker.value, text, p.isSpace);
    } else {
      assert "" + text == text && [] + [label0, algo, p.encode(key)] == [label0, algo, p.encode(key)];
    }
  }
}
