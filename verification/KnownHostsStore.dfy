/** Accepting a host key into the trust store (packages/paratix/src/knownHosts.ts): the read, the check and
    the append that run while the store's lock is held. */
module KnownHostsStore {
  import opened Text
  import opened HostPatterns
  import opened KnownHosts
  import opened Wrappers

  // ----- One acceptance

  /** validateHostLabel finds nothing to object to. */
  predicate ValidHost(p: Platform, host: string) {
    host != "" && forall i | 0 <= i < |host| ::
      host[i] > 0x1f as char && host[i] != 0x7f as char && !p.isSpace(host[i])
      && host[i] != '*' && host[i] != ',' && host[i] != '?' && host[i] != '!'
  }

  const DEFAULT_SSH_PORT := 22

  function Bracketed(host: string, port: nat): string { "[" + host + "]:" + Decimal(port) }

  function FormatHostNeedle(host: string, port: nat): string {
    if port == DEFAULT_SSH_PORT then host else Bracketed(host, port)
  }

  datatype Request = Request(host: string, port: nat, key: Key)

  datatype Outcome = Invalid | AlreadyTrusted | Mismatch | Appended | StoreFailure

  /** The checks before the lock is taken. */
  predicate Acceptable(p: Platform, r: Request) {
    && ValidHost(p, r.host)
    && p.algoOf(r.key).Some?
    && Solid(FormatHostNeedle(r.host, r.port), p.isSpace)
    && Solid(p.algoOf(r.key).value, p.isSpace)
    && Solid(p.encode(r.key), p.isSpace)
  }

  predicate Matches(p: Platform, e: Entry, needle: string) {
    e.marker == None && ListMatches(p.hashMatches, e.hostPatterns, needle)
  }

  predicate Trusted(p: Platform, entries: seq<Entry>, needle: string, algo: string, key: Key) {
    exists i | 0 <= i < |entries| :: Matches(p, entries[i], needle) && entries[i].algo == algo && entries[i].key == key
  }

  predicate Conflicting(p: Platform, entries: seq<Entry>, needle: string, key: Key) {
    exists i | 0 <= i < |entries| :: Matches(p, entries[i], needle) && entries[i].key != key
  }

  function Decide(p: Platform, entries: seq<Entry>, r: Request): Outcome
    requires Acceptable(p, r)
  {
    var needle := FormatHostNeedle(r.host, r.port);
    if Trusted(p, entries, needle, p.algoOf(r.key).value, r.key) then AlreadyTrusted
    else if Conflicting(p, entries, needle, r.key) then Mismatch
    else Appended
  }

  /** An unmarked entry that matches the label has the algorithm and the key of the request. */
  ghost predicate HasKey(p: Platform, entries: seq<Entry>, r: Request)
    requires Acceptable(p, r)
  {
    exists e <- entries ::
      && e.marker == None && ListMatches(p.hashMatches, e.hostPatterns, FormatHostNeedle(r.host, r.port))
      && e.algo == p.algoOf(r.key).value && e.key == r.key
  }

  /** An unmarked entry that matches the label has another key. */
  ghost predicate HasOtherKey(p: Platform, entries: seq<Entry>, r: Request) {
    exists e <- entries ::
      e.marker == None && ListMatches(p.hashMatches, e.hostPatterns, FormatHostNeedle(r.host, r.port)) && e.key != r.key
  }

  /** Trusted if the key is there, a mismatch if only another one is, and new otherwise. */
  lemma DecideMeaning(p: Platform, entries: seq<Entry>, r: Request)
    requires Acceptable(p, r)
    ensures Decide(p, entries, r) == AlreadyTrusted <==> HasKey(p, entries, r)
    ensures Decide(p, entries, r) == Mismatch <==> !HasKey(p, entries, r) && HasOtherKey(p, entries, r)
    ensures Decide(p, entries, r) == Appended <==> !HasKey(p, entries, r) && !HasOtherKey(p, entries, r)
  {
    var needle := FormatHostNeedle(r.host, r.port);
    if HasKey(p, entries, r) {
      var e :| e in entries && Matches(p, e, needle) && e.algo == p.algoOf(r.key).value && e.key == r.key;
      var i :| 0 <= i < |entries| && entries[i] == e;
      assert Trusted(p, entries, needle, p.algoOf(r.key).value, r.key);
    }
    if HasOtherKey(p, entries, r) {
      var e :| e in entries && Matches(p, e, needle) && e.key != r.key;
      var i :| 0 <= i < |entries| && entries[i] == e;
      assert Conflicting(p, entries, needle, r.key);
    }
  }

  function NewLine(p: Platform, r: Request): string
    requires Acceptable(p, r)
  {
    LineText(p, FormatHostNeedle(r.host, r.port), p.algoOf(r.key).value, r.key) + "\n"
  }

  function NewEntry(p: Platform, r: Request): Entry
    requires Acceptable(p, r)
  {
    var needle := FormatHostNeedle(r.host, r.port);
    Entry(p.algoOf(r.key).value, needle, [needle], r.key, None)
  }

  // ----- The store under its lock

  class TrustStore {
    const platform: Platform
    var content: string

    constructor (platform: Platform, content: string)
      ensures this.platform == platform && this.content == content
    {
      this.platform := platform;
      this.content := content;
    }

    /** One acceptance, while the lock is held. */
    method AppendHostKey(r: Request) returns (outcome: Outcome)
      modifies this
      ensures !Acceptable(platform, r) ==> outcome == Invalid && content == old(content)
      ensures Acceptable(platform, r) ==>
                && outcome == Decide(platform, Parse(platform, old(content)), r)
                && content == old(content) + if outcome == Appended then NewLine(platform, r) else ""
      ensures Acceptable(platform, r) ==>
                && (outcome == AlreadyTrusted <==> HasKey(platform, Parse(platform, old(content)), r))
                && (outcome == Mismatch <==>
                      !HasKey(platform, Parse(platform, old(content)), r)
                      && HasOtherKey(platform, Parse(platform, old(content)), r))
                && (outcome == Appended <==>
                      !HasKey(platform, Parse(platform, old(content)), r)
                      && !HasOtherKey(platform, Parse(platform, old(content)), r))
    {
      if !Acceptable(platform, r) { return Invalid; }
      DecideMeaning(platform, Parse(platform, content), r);
      var needle, algo := FormatHostNeedle(r.host, r.port), platform.algoOf(r.key).value;
      var entries := ParseKnownHosts(platform, content);
      assert content + "" == content;
      if Trusted(platform, entries, needle, algo, r.key) { return AlreadyTrusted; }
      if Conflicting(platform, entries, needle, r.key) { return Mismatch; }
      content := content + NewLine(platform, r);
      outcome := Appended;
    }
  }

  // ----- What the new line adds to the parsed store

  lemma {:induction false} DecimalCharacters(n: nat)
    ensures forall i :: 0 <= i < |Decimal(n)| ==> '0' <= Decimal(n)[i] <= '9'
  {
    if n >= 10 { DecimalCharacters(n / 10); }
  }

  /** Nothing in the label means anything to the pattern matcher or the list parser. */
  predicate PlainChar(c: char) { c != '*' && c != '?' && c != '!' && c != ',' }

  lemma NeedleIsPlain(p: Platform, r: Request)
    requires Lawful(p) && Acceptable(p, r)
    ensures forall i :: 0 <= i < |FormatHostNeedle(r.host, r.port)| ==> PlainChar(FormatHostNeedle(r.host, r.port)[i])
  {
    DecimalCharacters(r.port);
    forall i | 0 <= i < |r.host| ensures PlainChar(r.host[i]) {}
  }

  lemma {:induction false} DecimalsTellApart(m: nat, n: nat)
    requires Decimal(m) == Decimal(n)
    ensures m == n
    decreases m
  {
    var a, b := Decimal(m), Decimal(n);
    assert a[|a| - 1] == Digit(m % 10) && b[|b| - 1] == Digit(n % 10);
    if m >= 10 && n >= 10 {
      assert a[..|a| - 1] == Decimal(m / 10) && b[..|b| - 1] == Decimal(n / 10);
      DecimalsTellApart(m / 10, n / 10);
    } else {
      assert Decimal(m / 10) != [] && Decimal(n / 10) != [];
    }
  }

  /** A label with a port ends in a colon and digits. */
  lemma DigitsBehindColon(host: string, port: nat, k: nat)
    requires |host| + 2 < k < |Bracketed(host, port)|
    ensures Bracketed(host, port)[k] != ':'
  {
    DecimalCharacters(port);
    assert Bracketed(host, port)[k] == Decimal(port)[k - |host| - 3];
  }

  lemma ColonTellsLength(h1: string, p1: nat, h2: string, p2: nat)
    requires |h1| < |h2|
    ensures Bracketed(h1, p1) != Bracketed(h2, p2)
  {
    var a, b, k := Bracketed(h1, p1), Bracketed(h2, p2), |h2| + 2;
    assert b[k] == ':';
    if k < |a| { DigitsBehindColon(h1, p1, k); }
  }

  lemma BracketedTellApart(h1: string, p1: nat, h2: string, p2: nat)
    requires Bracketed(h1, p1) == Bracketed(h2, p2)
    ensures h1 == h2 && p1 == p2
  {
    if |h1| < |h2| { ColonTellsLength(h1, p1, h2, p2); }
    if |h2| < |h1| { ColonTellsLength(h2, p2, h1, p1); }
    var a, i := Bracketed(h1, p1), |h1| + 3;
    assert h1 == a[1..i - 2] == h2;
    assert Decimal(p1) == a[i..] == Decimal(p2);
    DecimalsTellApart(p1, p2);
  }

  /** The host alone stands for its default port. Labels tell hosts and ports apart, unless a host on the
      default port is itself spelt like the label of another one. */
  lemma LabelsTellApart(h1: string, p1: nat, h2: string, p2: nat)
    ensures FormatHostNeedle(h1, 22) == h1
    ensures FormatHostNeedle(h1, p1) == FormatHostNeedle(h2, p2)
       <==> || (h1 == h2 && p1 == p2)
            || (p1 == 22 && p2 != 22 && h1 == "[" + h2 + "]:" + Decimal(p2))
            || (p2 == 22 && p1 != 22 && h2 == "[" + h1 + "]:" + Decimal(p1))
  {
    if p1 != 22 && p2 != 22 && FormatHostNeedle(h1, p1) == FormatHostNeedle(h2, p2) { BracketedTellApart(h1, p1, h2, p2); }
  }

  /** Of the checks in front of the lock, the one on the host and the one on the key decide: a valid host
      makes a label without white space, and so does the codec. */
  lemma AcceptableExactly(p: Platform, r: Request)
    requires Lawful(p)
    ensures Acceptable(p, r) <==>
              && r.host != ""
              && (forall i | 0 <= i < |r.host| ::
                    var c := r.host[i];
                    ' ' <= c && c as int != 127 && !p.isSpace(c) && PlainChar(c))
              && p.algoOf(r.key).Some? && Solid(p.algoOf(r.key).value, p.isSpace)
  {
    DecimalCharacters(r.port);
    if p.algoOf(r.key).Some? {
      assert StrictBase64(p.encode(r.key));
      Base64Solid(p, p.encode(r.key));
    }
    if ValidHost(p, r.host) { LabelSolid(p, r); }
  }

  lemma LabelSolid(p: Platform, r: Request)
    requires Lawful(p) && ValidHost(p, r.host)
    ensures Solid(FormatHostNeedle(r.host, r.port), p.isSpace)
  {
    DecimalCharacters(r.port);
    var needle := FormatHostNeedle(r.host, r.port);
    if r.port != DEFAULT_SSH_PORT {
      forall i | 0 <= i < |needle| ensures !p.isSpace(needle[i]) {
        if 1 <= i < |r.host| + 1 { assert needle[i] == r.host[i - 1]; }
        else if i > |r.host| + 2 { assert needle[i] == Decimal(r.port)[i - |r.host| - 3]; }
      }
    }
  }

  lemma Base64Solid(p: Platform, s: string)
    requires Lawful(p) && StrictBase64(s)
    ensures Solid(s, p.isSpace)
  {
    forall i | 0 <= i < |s| ensures '!' <= s[i] <= '~' { if i < LeadingBase64(s) { assert Base64Char(s[i]); } }
  }

  /** The store parses to what it was, and the new entry unless the label reads as a comment or a marker. */
  lemma AppendParses(p: Platform, content: string, r: Request)
    requires Lawful(p) && Acceptable(p, r) && Terminated(content)
    ensures var needle := FormatHostNeedle(r.host, r.port);
            Parse(p, content + NewLine(p, r))
            == Parse(p, content) + if IsComment(needle) || IsMarker(needle) then [] else [NewEntry(p, r)]
    ensures Terminated(content + NewLine(p, r))
  {
    var needle, line := FormatHostNeedle(r.host, r.port), NewLine(p, r);
    NeedleIsPlain(p, r);
    assert ',' !in needle;
    ParseConcat(p, content, line);
    LineParses(p, needle, p.algoOf(r.key).value, r.key);
    assert (content + line)[|content + line| - 1] == line[|line| - 1] == '\n';
  }

  // ----- Labels, equal but for case

  lemma {:induction false} GlobLiteral(pattern: string, text: string)
    requires forall i :: 0 <= i < |pattern| ==> pattern[i] != '*' && pattern[i] != '?'
    ensures Glob(pattern, text) == (pattern == text)
    decreases |pattern|
  {
    if pattern != "" && text != "" {
      GlobLiteral(pattern[1..], text[1..]);
      assert pattern == [pattern[0]] + pattern[1..] && text == [text[0]] + text[1..];
    }
  }

  /** A single plain label as pattern matches the labels that differ from it in case only. */
  lemma PlainLabelMatches(p: Platform, label0: string, needle: string)
    requires label0 != "" && !IsHashed(label0) && forall i :: 0 <= i < |label0| ==> PlainChar(label0[i])
    ensures ListMatches(p.hashMatches, [label0], needle) <==> ToLowerCase(label0) == ToLowerCase(needle)
  {
    assert label0[0] != '!';
    var lowered := ToLowerCase(label0);
    forall i | 0 <= i < |lowered| ensures lowered[i] != '*' && lowered[i] != '?' { assert PlainChar(label0[i]); }
    GlobLiteral(lowered, ToLowerCase(needle));
    assert label0 in [label0];
  }

  predicate Unhashed(e: Entry) {
    forall i | 0 <= i < |e.hostPatterns| :: !IsHashed(Body(e.hostPatterns[i]))
  }

  /** Plain patterns do not see the case of the label. */
  lemma CaseBlind(p: Platform, e: Entry, a: string, b: string)
    requires Unhashed(e) && ToLowerCase(a) == ToLowerCase(b)
    ensures Matches(p, e, a) <==> Matches(p, e, b)
  {
    forall raw | raw in e.hostPatterns
      ensures Hit(p.hashMatches, raw, a) == Hit(p.hashMatches, raw, b)
    {
      var i :| 0 <= i < |e.hostPatterns| && e.hostPatterns[i] == raw;
      assert !IsHashed(Body(e.hostPatterns[i]));
    }
  }

  // ----- One key per label, no duplicates

  /** All unmarked, unhashed entries that match a label carry one key. */
  ghost predicate OneKeyPerLabel(p: Platform, entries: seq<Entry>) {
    forall i, j, needle: string ::
      0 <= i < |entries| && 0 <= j < |entries| && Unhashed(entries[i]) && Unhashed(entries[j])
      && Matches(p, entries[i], needle) && Matches(p, entries[j], needle)
      ==> entries[i].key == entries[j].key
  }

  /** A line as an acceptance writes it. */
  predicate Own(e: Entry) {
    e.marker == None && e.hostPatterns == [e.host] && !IsHashed(e.host)
    && e.host != "" && forall i | 0 <= i < |e.host| :: PlainChar(e.host[i])
  }

  ghost predicate NoDuplicates(entries: seq<Entry>) {
    forall i, j | 0 <= i < j < |entries| :: !(Own(entries[i]) && entries[i] == entries[j])
  }

  ghost predicate Good(p: Platform, entries: seq<Entry>) {
    OneKeyPerLabel(p, entries) && NoDuplicates(entries)
  }

  lemma OwnMatchesItself(p: Platform, e: Entry)
    requires Own(e)
    ensures Matches(p, e, e.host)
  {
    PlainLabelMatches(p, e.host, e.host);
  }

  /** The new entry agrees with every old one that matches a label it matches itself. */
  lemma NewEntryAgrees(p: Platform, entries: seq<Entry>, r: Request, i: nat, needle: string)
    requires Lawful(p) && Acceptable(p, r) && Decide(p, entries, r) == Appended
    requires i < |entries| && Unhashed(entries[i]) && Unhashed(NewEntry(p, r))
    requires Matches(p, entries[i], needle) && Matches(p, NewEntry(p, r), needle)
    ensures entries[i].key == r.key
  {
    var own := FormatHostNeedle(r.host, r.port);
    NeedleIsPlain(p, r);
    assert own[0] != '!';
    assert !IsHashed(Body(NewEntry(p, r).hostPatterns[0]));
    PlainLabelMatches(p, own, needle);
    CaseBlind(p, entries[i], own, needle);
  }

  lemma AppendKeepsOneKey(p: Platform, entries: seq<Entry>, r: Request)
    requires Lawful(p) && Acceptable(p, r) && Decide(p, entries, r) == Appended && OneKeyPerLabel(p, entries)
    ensures OneKeyPerLabel(p, entries + [NewEntry(p, r)])
  {
    var entries' := entries + [NewEntry(p, r)];
    forall i, j, needle: string |
      0 <= i < |entries'| && 0 <= j < |entries'| && Unhashed(entries'[i]) && Unhashed(entries'[j])
      && Matches(p, entries'[i], needle) && Matches(p, entries'[j], needle)
      ensures entries'[i].key == entries'[j].key
    {
      if i < |entries| && j == |entries| { NewEntryAgrees(p, entries, r, i, needle); }
      if j < |entries| && i == |entries| { NewEntryAgrees(p, entries, r, j, needle); }
    }
  }

  lemma AppendKeepsNoDuplicates(p: Platform, entries: seq<Entry>, r: Request)
    requires Acceptable(p, r) && Decide(p, entries, r) == Appended && NoDuplicates(entries)
    ensures NoDuplicates(entries + [NewEntry(p, r)])
  {
    forall i | 0 <= i < |entries| ensures !(Own(entries[i]) && entries[i] == NewEntry(p, r)) {
      if Own(entries[i]) { OwnMatchesItself(p, entries[i]); }
    }
  }

  // ----- Accepting twice

  /** An accepted key is found again exactly when its label is neither a comment, nor a marker, nor taken
      for a hash: then, and only then, a second acceptance of the same key leaves the store as it is. */
  lemma SecondAcceptance(p: Platform, content: string, r: Request)
    requires Lawful(p) && Acceptable(p, r) && Terminated(content)
    requires Decide(p, Parse(p, content), r) == Appended
    requires var needle := FormatHostNeedle(r.host, r.port); !p.hashMatches(needle, needle)
    ensures var needle := FormatHostNeedle(r.host, r.port);
            Decide(p, Parse(p, content + NewLine(p, r)), r)
            == if IsComment(needle) || IsMarker(needle) || IsHashed(needle) then Appended else AlreadyTrusted
  {
    var needle, entries, e := FormatHostNeedle(r.host, r.port), Parse(p, content), NewEntry(p, r);
    AppendParses(p, content, r);
    NeedleIsPlain(p, r);
    assert needle[0] != '!';
    if IsComment(needle) || IsMarker(needle) {
      assert entries + [] == entries;
    } else {
      var entries' := entries + [e];
      assert Parse(p, content + NewLine(p, r)) == entries';
      if IsHashed(needle) {
        assert !Matches(p, e, needle);
      } else {
        PlainLabelMatches(p, needle, needle);
        assert Matches(p, entries'[|entries|], needle);
      }
    }
  }
}
