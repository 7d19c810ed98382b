/** Rendering a tokenized template (packages/paratix/src/template.ts): the simple renderer as reference,
    and the phased one, which reads per-access values after all others and once per key. */
module TemplateRender {
  import opened Template
  import ShellQuoting
  import opened Wrappers

  /** The environment and what modifiers call into. `ordinary` resolves a name whose value does not change
      between reads, None when that throws; a per-access value may differ at every read, so it depends on
      the per-access keys read before; `decode` is `b64decode`; `inherited` is what calling a property that
      every JavaScript object inherits does (None when there is none or it throws). */
  datatype World = World(
    defined: string -> bool,
    perAccess: string -> bool,
    ordinary: string -> Option<string>,
    late: (seq<string>, string) -> Option<string>,
    decode: (string, string) -> Option<string>,
    inherited: (string, string, string) -> Option<string>)

  ghost predicate Sane(w: World) {
    forall name :: (w.perAccess(name) || w.ordinary(name).Some?) ==> w.defined(name)
  }

  // ----- Modifiers

  predicate Known(name: string) {
    name == "b64decode" || name == "raw" || name == "shell"
  }

  /** The lookup `modifiers[name]` and the call; it also finds what the registry object inherits. */
  function Transform(w: World, name: string, value: string, varName: string): Option<string> {
    if name == "raw" then Some(value)
    else if name == "shell" then Some(ShellQuoting.ShellQuote(value))
    else if name == "b64decode" then w.decode(value, varName)
    else w.inherited(name, value, varName)
  }

  function Applied(w: World, value: string, names: seq<string>, varName: string): Option<string>
    decreases |names|
  {
    if names == [] then Some(value)
    else
      var r := Transform(w, names[0], value, varName);
      if r.None? then None else Applied(w, r.value, names[1..], varName)
  }

  method ApplyModifiers(w: World, value: string, names: seq<string>, varName: string) returns (r: Option<string>)
    ensures r == Applied(w, value, names, varName)
  {
    var current := value;
    for i := 0 to |names|
      invariant Applied(w, current, names[i..], varName) == Applied(w, value, names, varName)
    {
      assert names[i..][0] == names[i] && names[i..][1..] == names[i + 1..];
      var next := Transform(w, names[i], current, varName);
      if next.None? { return None; }
      current := next.value;
    }
    r := Some(current);
  }

  // ----- The simple renderer

  type Valuation = string -> Option<string>

  function Slot(w: World, v: Valuation, t: Token): Option<string>
    requires t.Placeholder?
  {
    var value := v(t.varName);
    if value.None? then None else Applied(w, value.value, t.modifiers, t.varName)
  }

  function Segment(w: World, v: Valuation, t: Token): Option<string> {
    match t
    case Escaped => Some("{{")
    case Literal(text) => Some(text)
    case Placeholder(_, _) => Slot(w, v, t)
  }

  /** Every segment in turn; None as soon as one has no value. */
  function Rendered(w: World, v: Valuation, tokens: seq<Token>): Option<string> {
    if tokens == [] then Some("")
    else
      var front := Rendered(w, v, tokens[..|tokens| - 1]);
      var last := Segment(w, v, tokens[|tokens| - 1]);
      if front.None? || last.None? then None else Some(front.value + last.value)
  }

  // ----- The phased renderer

  function Placeholders(tokens: seq<Token>): (r: seq<Token>)
    ensures forall i :: 0 <= i < |r| ==> r[i].Placeholder?
  {
    if tokens == [] then []
    else
      var last := tokens[|tokens| - 1];
      Placeholders(tokens[..|tokens| - 1]) + if last.Placeholder? then [last] else []
  }

  /** The per-access names in order of first appearance. */
  function LateKeys(w: World, slots: seq<Token>): (keys: seq<string>)
    requires forall i :: 0 <= i < |slots| ==> slots[i].Placeholder?
    ensures forall i, j :: 0 <= i < j < |keys| ==> keys[i] != keys[j]
    ensures forall k :: k in keys ==> w.perAccess(k)
    ensures forall i :: 0 <= i < |slots| && w.perAccess(slots[i].varName) ==> slots[i].varName in keys
  {
    if slots == [] then []
    else
      var n := |slots| - 1;
      var before, name := LateKeys(w, slots[..n]), slots[n].varName;
      assert slots == slots[..n] + [slots[n]];
      if w.perAccess(name) && name !in before then before + [name] else before
  }

  function Position(keys: seq<string>, name: string): (i: nat)
    ensures i <= |keys| && (name in keys ==> i < |keys| && keys[i] == name)
  {
    if keys == [] || keys[0] == name then 0 else 1 + Position(keys[1..], name)
  }

  lemma {:induction false} PositionUnique(keys: seq<string>, i: nat)
    requires i < |keys| && forall a, b :: 0 <= a < b < |keys| ==> keys[a] != keys[b]
    ensures Position(keys, keys[i]) == i
    decreases |keys|
  {
    if i > 0 { PositionUnique(keys[1..], i - 1); }
  }

  /** Ordinary names as they are, a per-access key as it is read after the keys in front of it. */
  function ValueOf(w: World, keys: seq<string>, name: string): Option<string> {
    if w.perAccess(name) then
      (var i := Position(keys, name); if i < |keys| then w.late(keys[..i], name) else None)
    else w.ordinary(name)
  }

  function ValuationOf(w: World, keys: seq<string>): Valuation {
    name => ValueOf(w, keys, name)
  }

  predicate AllKnown(names: seq<string>) {
    forall i | 0 <= i < |names| :: Known(names[i])
  }

  predicate Validated(w: World, slots: seq<Token>)
    requires forall i :: 0 <= i < |slots| ==> slots[i].Placeholder?
  {
    forall i | 0 <= i < |slots| :: w.defined(slots[i].varName) && AllKnown(slots[i].modifiers)
  }

  function Blank(n: nat): (r: seq<Option<string>>)
    ensures |r| == n && forall i :: 0 <= i < n ==> r[i] == None
  {
    seq(n, _ => None)
  }

  /** The slots are filled so far by exactly those whose name is ordinary or one of the first `k` keys. */
  ghost predicate Filled(w: World, slots: seq<Token>, keys: seq<string>, k: nat, values: seq<Option<string>>)
    requires (forall i :: 0 <= i < |slots| ==> slots[i].Placeholder?) && k <= |keys| && |values| == |slots|
  {
    forall i :: 0 <= i < |slots| ==>
      if !w.perAccess(slots[i].varName) || slots[i].varName in keys[..k]
      then values[i].Some? && values[i] == Slot(w, ValuationOf(w, keys), slots[i])
      else values[i] == None
  }

  /** Ordinary slots first. The source runs them concurrently; none depends on another. */
  method FillOrdinary(w: World, slots: seq<Token>, keys: seq<string>) returns (values: Option<seq<Option<string>>>)
    requires forall i :: 0 <= i < |slots| ==> slots[i].Placeholder?
    ensures values.Some? ==> |values.value| == |slots| && Filled(w, slots, keys, 0, values.value)
    ensures values.None? ==> exists i :: 0 <= i < |slots| && Slot(w, ValuationOf(w, keys), slots[i]) == None
  {
    var filled := Blank(|slots|);
    for i := 0 to |slots|
      invariant |filled| == |slots|
      invariant forall j :: i <= j < |slots| ==> filled[j] == None
      invariant forall j :: 0 <= j < i ==>
                  if !w.perAccess(slots[j].varName)
                  then filled[j].Some? && filled[j] == Slot(w, ValuationOf(w, keys), slots[j])
                  else filled[j] == None
    {
      if w.perAccess(slots[i].varName) { continue; }
      var value := w.ordinary(slots[i].varName);
      if value.None? {
        assert Slot(w, ValuationOf(w, keys), slots[i]) == None;
        return None;
      }
      var r := ApplyModifiers(w, value.value, slots[i].modifiers, slots[i].varName);
      assert r == Slot(w, ValuationOf(w, keys), slots[i]);
      if r.None? { return None; }
      assert filled[i] == None;
      filled := filled[i := r];
    }
    values := Some(filled);
  }

  /** All slots of one per-access key, from one value read. */
  method FillKey(w: World, slots: seq<Token>, keys: seq<string>, k: nat, value: string, before: seq<Option<string>>)
    returns (values: Option<seq<Option<string>>>)
    requires forall i :: 0 <= i < |slots| ==> slots[i].Placeholder?
    requires k < |keys| && (forall a, b :: 0 <= a < b < |keys| ==> keys[a] != keys[b]) && w.perAccess(keys[k])
    requires w.late(keys[..k], keys[k]) == Some(value)
    requires |before| == |slots| && Filled(w, slots, keys, k, before)
    ensures values.Some? ==> |values.value| == |slots| && Filled(w, slots, keys, k + 1, values.value)
    ensures values.None? ==> exists i :: 0 <= i < |slots| && Slot(w, ValuationOf(w, keys), slots[i]) == None
  {
    PositionUnique(keys, k);
    assert keys[..k + 1] == keys[..k] + [keys[k]];
    assert keys[k] !in keys[..k];
    var filled := before;
    for i := 0 to |slots|
      invariant |filled| == |slots|
      invariant forall j :: i <= j < |slots| ==> filled[j] == before[j]
      invariant forall j :: 0 <= j < i ==>
                  if slots[j].varName == keys[k]
                  then filled[j].Some? && filled[j] == Slot(w, ValuationOf(w, keys), slots[j])
                  else filled[j] == before[j]
    {
      if slots[i].varName == keys[k] {
        var r := ApplyModifiers(w, value, slots[i].modifiers, slots[i].varName);
        assert r == Slot(w, ValuationOf(w, keys), slots[i]);
        if r.None? { return None; }
        assert filled[i] == None;
        filled := filled[i := r];
      }
    }
    values := Some(filled);
  }

  /** What happened: the values of all slots, or a failure; and the per-access keys read, in order. */
  method ResolvePhasedPlaceholders(w: World, slots: seq<Token>, keys: seq<string>)
    returns (values: Option<seq<string>>, lateReads: seq<string>)
    requires forall i :: 0 <= i < |slots| ==> slots[i].Placeholder?
    requires keys == LateKeys(w, slots)
    ensures lateReads <= keys && (values.Some? ==> lateReads == keys)
    ensures !Validated(w, slots) ==> values.None? && lateReads == []
    ensures (exists i :: 0 <= i < |slots| && !w.perAccess(slots[i].varName)
                         && Slot(w, ValuationOf(w, keys), slots[i]) == None) ==> lateReads == []
    ensures values.Some? ==>
              |values.value| == |slots|
              && forall i :: 0 <= i < |slots| ==> Slot(w, ValuationOf(w, keys), slots[i]) == Some(values.value[i])
    ensures values.None? && Validated(w, slots) ==>
              exists i :: 0 <= i < |slots| && Slot(w, ValuationOf(w, keys), slots[i]) == None
  {
    lateReads := [];
    if !Validated(w, slots) { return None, []; }
    var ordinary := FillOrdinary(w, slots, keys);
    if ordinary.None? { return None, []; }
    var filled := ordinary.value;
    assert forall i :: 0 <= i < |slots| && !w.perAccess(slots[i].varName) ==> Slot(w, ValuationOf(w, keys), slots[i]).Some?;
    for k := 0 to |keys|
      invariant |filled| == |slots| && Filled(w, slots, keys, k, filled)
      invariant lateReads == keys[..k]
    {
      var value := w.late(lateReads, keys[k]);
      lateReads := lateReads + [keys[k]];
      assert keys[..k + 1] == keys[..k] + [keys[k]];
      if value.None? {
        UnreadKeyHasSlot(w, slots, keys, k);
        return None, lateReads;
      }
      var next := FillKey(w, slots, keys, k, value.value, filled);
      if next.None? { return None, lateReads; }
      filled := next.value;
    }
    assert keys[..|keys|] == keys;
    values := Some(seq(|slots|, i requires 0 <= i < |slots| => filled[i].value));
  }

  lemma {:induction false} KeysHaveSlots(w: World, slots: seq<Token>, key: string)
    requires forall i :: 0 <= i < |slots| ==> slots[i].Placeholder?
    requires key in LateKeys(w, slots)
    ensures exists i :: 0 <= i < |slots| && slots[i].varName == key
    decreases |slots|
  {
    var n := |slots| - 1;
    if slots[n].varName != key {
      KeysHaveSlots(w, slots[..n], key);
      var i :| 0 <= i < n && slots[..n][i].varName == key;
      assert slots[i].varName == key;
    }
  }

  lemma UnreadKeyHasSlot(w: World, slots: seq<Token>, keys: seq<string>, k: nat)
    requires forall i :: 0 <= i < |slots| ==> slots[i].Placeholder?
    requires keys == LateKeys(w, slots) && k < |keys| && w.late(keys[..k], keys[k]) == None
    ensures exists i :: 0 <= i < |slots| && Slot(w, ValuationOf(w, keys), slots[i]) == None
  {
    KeysHaveSlots(w, slots, keys[k]);
    PositionUnique(keys, k);
    var i :| 0 <= i < |slots| && slots[i].varName == keys[k];
    assert Slot(w, ValuationOf(w, keys), slots[i]) == None;
  }

  // ----- The whole renderer

  lemma {:induction false} PlaceholdersPrefix(tokens: seq<Token>, i: nat)
    requires i <= |tokens|
    ensures Placeholders(tokens[..i]) <= Placeholders(tokens)
    ensures i < |tokens| && tokens[i].Placeholder? ==>
              |Placeholders(tokens[..i])| < |Placeholders(tokens)|
              && Placeholders(tokens)[|Placeholders(tokens[..i])|] == tokens[i]
    decreases |tokens|
  {
    if i < |tokens| {
      var init := tokens[..|tokens| - 1];
      assert init[..i] == tokens[..i];
      PlaceholdersPrefix(init, i);
    } else {
      assert tokens[..i] == tokens;
    }
  }

  ghost predicate AllValued(w: World, v: Valuation, slots: seq<Token>)
    requires forall i :: 0 <= i < |slots| ==> slots[i].Placeholder?
  {
    forall i | 0 <= i < |slots| :: Slot(w, v, slots[i]).Some?
  }

  lemma AllValuedSnoc(w: World, v: Valuation, slots: seq<Token>, last: Token)
    requires last.Placeholder? && forall i :: 0 <= i < |slots| ==> slots[i].Placeholder?
    ensures AllValued(w, v, slots + [last]) == (AllValued(w, v, slots) && Slot(w, v, last).Some?)
  {
    var more := slots + [last];
    assert more[|slots|] == last;
    assert forall i :: 0 <= i < |slots| ==> more[i] == slots[i];
  }

  /** Rendering succeeds exactly when every slot has a value. */
  lemma {:induction false} SlotsDecide(w: World, v: Valuation, tokens: seq<Token>)
    ensures Rendered(w, v, tokens).Some? == AllValued(w, v, Placeholders(tokens))
    decreases |tokens|
  {
    if tokens != [] {
      var init, last := tokens[..|tokens| - 1], tokens[|tokens| - 1];
      SlotsDecide(w, v, init);
      if last.Placeholder? { AllValuedSnoc(w, v, Placeholders(init), last); }
      else { assert Placeholders(tokens) == Placeholders(init); }
    }
  }

  predicate AllExplicit(tokens: seq<Token>) {
    forall i | 0 <= i < |tokens| :: tokens[i].Placeholder? ==> tokens[i].modifiers != []
  }

  predicate OwnModifiers(slots: seq<Token>)
    requires forall i :: 0 <= i < |slots| ==> slots[i].Placeholder?
  {
    forall i | 0 <= i < |slots| :: AllKnown(slots[i].modifiers)
  }

  lemma InvalidHasNoValue(w: World, slots: seq<Token>, keys: seq<string>)
    requires Sane(w) && forall i :: 0 <= i < |slots| ==> slots[i].Placeholder?
    requires !Validated(w, slots) && OwnModifiers(slots)
    ensures exists i :: 0 <= i < |slots| && Slot(w, ValuationOf(w, keys), slots[i]) == None
  {
    var i :| 0 <= i < |slots| && !w.defined(slots[i].varName);
    assert Slot(w, ValuationOf(w, keys), slots[i]) == None;
  }

  /** With per-access values: all of them, or none; and none only where the reference has none either, or
      where a modifier is not one of the registry's own. */
  method ResolveTemplatePlaceholders(w: World, slots: seq<Token>, keys: seq<string>)
    returns (values: Option<seq<string>>, lateReads: seq<string>)
    requires Sane(w) && forall i :: 0 <= i < |slots| ==> slots[i].Placeholder?
    requires keys == LateKeys(w, slots)
    ensures values.Some? ==> |values.value| == |slots| && lateReads == keys
    ensures values.Some? && keys != [] ==> OwnModifiers(slots) && forall i :: 0 <= i < |slots| ==>
              Slot(w, ValuationOf(w, keys), slots[i]) == Some(values.value[i])
    ensures values.Some? && keys == [] ==> forall i :: 0 <= i < |slots| ==>
              ValueOf(w, keys, slots[i].varName) == Some(values.value[i])
    ensures values.None? ==>
              || (keys != [] && !OwnModifiers(slots))
              || exists i :: 0 <= i < |slots| && Slot(w, ValuationOf(w, keys), slots[i]) == None
  {
    if keys != [] {
      values, lateReads := ResolvePhasedPlaceholders(w, slots, keys);
      if !Validated(w, slots) && OwnModifiers(slots) { InvalidHasNoValue(w, slots, keys); }
      return;
    }
    lateReads := [];
    var resolved: seq<string> := [];
    for i := 0 to |slots|
      invariant |resolved| == i
      invariant forall j :: 0 <= j < i ==> ValueOf(w, keys, slots[j].varName) == Some(resolved[j])
    {
      assert !w.perAccess(slots[i].varName);
      var value := w.ordinary(slots[i].varName);
      if value.None? {
        assert Slot(w, ValuationOf(w, keys), slots[i]) == None;
        return None, [];
      }
      resolved := resolved + [value.value];
    }
    values := Some(resolved);
  }

  /** The concatenation: `values` are finished when `phased`, and still to be transformed otherwise. */
  method Concatenate(w: World, tokens: seq<Token>, keys: seq<string>, values: seq<string>, phased: bool)
    returns (output: Option<string>)
    requires |values| == |Placeholders(tokens)|
    requires phased ==> forall i :: 0 <= i < |values| ==>
               Slot(w, ValuationOf(w, keys), Placeholders(tokens)[i]) == Some(values[i])
    requires !phased ==> forall i :: 0 <= i < |values| ==>
               ValueOf(w, keys, Placeholders(tokens)[i].varName) == Some(values[i])
    ensures output == Rendered(w, ValuationOf(w, keys), tokens)
  {
    var v, text, placeholderIndex := ValuationOf(w, keys), "", 0;
    for i := 0 to |tokens|
      invariant placeholderIndex == |Placeholders(tokens[..i])|
      invariant Rendered(w, v, tokens[..i]) == Some(text)
    {
      PlaceholdersPrefix(tokens, i);
      assert tokens[..i + 1][..i] == tokens[..i];
      if tokens[i].Placeholder? {
        var resolved := Some(values[placeholderIndex]);
        if !phased { resolved := ApplyModifiers(w, values[placeholderIndex], tokens[i].modifiers, tokens[i].varName); }
        assert resolved == Slot(w, v, tokens[i]);
        if resolved.None? {
          NoneStays(w, v, tokens, i + 1);
          return None;
        }
        text := text + resolved.value;
        placeholderIndex := placeholderIndex + 1;
      } else {
        text := text + (if tokens[i].Literal? then tokens[i].text else "{{");
      }
    }
    assert tokens[..|tokens|] == tokens;
    output := Some(text);
  }

  lemma {:induction false} NoneStays(w: World, v: Valuation, tokens: seq<Token>, n: nat)
    requires n <= |tokens| && Rendered(w, v, tokens[..n]) == None
    ensures Rendered(w, v, tokens) == None
    decreases |tokens|
  {
    if n == |tokens| {
      assert tokens[..n] == tokens;
    } else {
      assert tokens[..|tokens| - 1][..n] == tokens[..n];
      NoneStays(w, v, tokens[..|tokens| - 1], n);
    }
  }

  /** Rendering gives what the simple renderer gives under one valuation: every ordinary name as it is, and
      every per-access key as it was read, once, in order of first appearance. It succeeds exactly when the
      template is accepted, every placeholder names a modifier where that is demanded, and the simple
      renderer succeeds; only a template with per-access values must also keep to the registry's own
      modifiers, which the simple path does not check. */
  method RenderTemplate(w: World, template: string, strict: bool) returns (r: Outcome<string>, lateReads: seq<string>)
    requires Sane(w)
    ensures var scanned := Scan(template, "", strict);
            if scanned.Failed? || (strict && exists t <- scanned.value :: t.Placeholder? && t.modifiers == [])
            then r == Failed && lateReads == []
            else
              var slots := Placeholders(scanned.value);
              var keys := LateKeys(w, slots);
              var reference := Rendered(w, ValuationOf(w, keys), scanned.value);
              if reference.Some? && (keys != [] ==> OwnModifiers(slots))
              then r == Ok(reference.value) && lateReads == keys
              else r == Failed
  {
    var tokenizer := new TemplateTokenizer(template, strict);
    assert template[0..] == template;
    ghost var scanned := Scan(template, "", strict);
    assert tokenizer.Remaining() == scanned by {
      if scanned.Ok? { assert [] + scanned.value == scanned.value; }
    }
    var ok := tokenizer.Tokenize();
    if !ok { return Failed, []; }
    var tokens := tokenizer.tokens;
    if strict && !AllExplicit(tokens) { return Failed, []; }
    var slots := Placeholders(tokens);
    var keys := LateKeys(w, slots);
    SlotsDecide(w, ValuationOf(w, keys), tokens);
    var values: Option<seq<string>>;
    values, lateReads := ResolveTemplatePlaceholders(w, slots, keys);
    if values.None? { return Failed, lateReads; }
    var output := Concatenate(w, tokens, keys, values.value, keys != []);
    r := if output.Some? then Ok(output.value) else Failed;
  }

  /** The whole table of own modifiers is known, so a name outside it makes the two paths part: the simple
      renderer calls what the registry object inherits, the phased one rejects the template. */
  lemma InheritedModifierSplitsPaths(w: World, name: string, modifier: string, value: string, text: string)
    requires !Known(modifier) && w.inherited(modifier, value, name) == Some(text)
    requires w.ordinary(name) == Some(value) && !w.perAccess(name)
    ensures Rendered(w, ValuationOf(w, []), [Placeholder(name, [modifier])]) == Some(text)
    ensures !Validated(w, [Placeholder(name, [modifier])])
  {
    var t := Placeholder(name, [modifier]);
    assert [t][..0] == [];
    assert [modifier][1..] == [];
    assert Applied(w, value, [modifier], name) == Applied(w, text, [], name);
    assert Slot(w, ValuationOf(w, []), t) == Some(text);
    assert "" + text == text;
    assert !AllKnown([modifier]) by { assert [modifier][0] == modifier; }
    assert !AllKnown([t][0].modifiers);
  }

  // ----- What the modifiers mean

  /** `raw` changes nothing; `shell` makes the value one protected word of a command line, unless it holds a
      NUL, which no command line can. */
  lemma ModifierMeaning(w: World, value: string, varName: string)
    ensures Transform(w, "raw", value, varName) == Some(value)
    ensures Transform(w, "shell", value, varName).Some?
    ensures var words := ShellQuoting.Words(Transform(w, "shell", value, varName).value);
            (words == ShellQuoting.Complete([ShellQuoting.Protected(value)])) <==> ShellQuoting.NUL !in value
    ensures Transform(w, "b64decode", value, varName) == w.decode(value, varName)
  {
    ShellQuoting.QuoteIsOneWord(value);
  }
}
