/** The host-key binding of one connection over all its handshakes (packages/paratix/src/ssh.ts): what is
    pinned, what was verified last, and which leaf keys a reconnect admits. */
module HostKeyBinding {
  import opened ByteStrings
  import opened Wrappers

  type Key = Bytes

  /** What the verifier recorded about a key it accepted. */
  datatype Evidence = Evidence(certificate: bool, explicitPins: bool)

  predicate IsCertificateOnly(evidence: Option<Evidence>) {
    evidence.Some? && evidence.value.certificate && !evidence.value.explicitPins
  }

  /** The key a handshake presents: with host-key checking off nothing judges it, otherwise the verifier
      accepts it or not and records evidence. */
  datatype Offer =
    | Unjudged(key: Key)
    | Judged(key: Key, accepted: bool, evidence: Option<Evidence>)

  function EvidenceOf(offer: Offer): Option<Evidence> {
    if offer.Judged? then offer.evidence else None
  }

  // ----- The objects

  datatype Binding = Binding(pinned: Option<Key>, verified: Option<Key>, evidence: Option<Evidence>)

  datatype Candidate = Candidate(pinned: Option<Key>, verified: Option<Key>)

  datatype Verdict = Accepted | Refused | KeyChanged

  /** The key that a reconnect must present, if any. */
  function Required(b: Binding, certificateOnly: bool): Option<Key> {
    if b.pinned.Some? then b.pinned
    else if certificateOnly && IsCertificateOnly(b.evidence) then None
    else b.verified
  }

  predicate Admits(b: Binding, key: Key, certificateOnly: bool) {
    var required := Required(b, certificateOnly);
    required.Some? ==> required.value == key
  }

  function OrElse(first: Option<Key>, second: Key): Option<Key> {
    if first.Some? then first else Some(second)
  }

  /** The host verifier of an attempt: what the attempt remembers, and what the transport is told. */
  function Verify(b: Binding, c: Candidate, offer: Offer): (Candidate, Verdict) {
    if offer.Judged? && !offer.accepted then (c, Refused)
    else
      var c1 := if offer.Judged? then c.(verified := OrElse(c.verified, offer.key)) else c;
      var certificateOnly := IsCertificateOnly(EvidenceOf(offer));
      if !Admits(b, offer.key, certificateOnly) then (c1, KeyChanged)
      else if certificateOnly then (c1, Accepted)
      else (c1.(pinned := OrElse(c1.pinned, offer.key)), Accepted)
  }

  function Commit(b: Binding, c: Candidate, evidence: Option<Evidence>): Binding {
    Binding(if c.pinned.Some? then OrElse(b.pinned, c.pinned.value) else b.pinned, c.verified, evidence)
  }

  class Connection {
    var pinnedHostKey: Option<Key>
    var verifiedHostKey: Option<Key>
    var hostVerificationEvidence: Option<Evidence>

    function State(): Binding
      reads this
    {
      Binding(pinnedHostKey, verifiedHostKey, hostVerificationEvidence)
    }

    constructor ()
      ensures State() == UNBOUND
    {
      pinnedHostKey, verifiedHostKey, hostVerificationEvidence := None, None, None;
    }

    method AssertReconnectHostKey(key: Key, certificateOnly: bool) returns (ok: bool)
      ensures ok == Admits(State(), key, certificateOnly)
    {
      var previousCertificateOnly := IsCertificateOnly(hostVerificationEvidence);
      var reconnectKey := pinnedHostKey;
      if reconnectKey.None? {
        reconnectKey := if certificateOnly && previousCertificateOnly then None else verifiedHostKey;
      }
      ok := reconnectKey.None? || reconnectKey.value == key;
    }
  }

  class HostKeyAttempt {
    const connection: Connection
    var acceptedPinnedHostKey: Option<Key>
    var acceptedVerifiedHostKey: Option<Key>

    function State(): Candidate
      reads this
    {
      Candidate(acceptedPinnedHostKey, acceptedVerifiedHostKey)
    }

    constructor (connection: Connection)
      ensures this.connection == connection && State() == Candidate(None, None)
    {
      this.connection := connection;
      acceptedPinnedHostKey, acceptedVerifiedHostKey := None, None;
    }

    /** Touches the attempt only: the connection's binding is outside its frame. */
    method HostVerifier(offer: Offer) returns (verdict: Verdict)
      modifies this
      ensures (State(), verdict) == Verify(connection.State(), old(State()), offer)
    {
      if offer.Judged? {
        if !offer.accepted { return Refused; }
        if acceptedVerifiedHostKey.None? { acceptedVerifiedHostKey := Some(offer.key); }
      }
      var certificateOnly := IsCertificateOnly(EvidenceOf(offer));
      var ok := connection.AssertReconnectHostKey(offer.key, certificateOnly);
      if !ok { return KeyChanged; }
      if !certificateOnly && acceptedPinnedHostKey.None? { acceptedPinnedHostKey := Some(offer.key); }
      verdict := Accepted;
    }

    method CommitAttempt(evidence: Option<Evidence>)
      modifies connection
      ensures connection.State() == Commit(old(connection.State()), State(), evidence)
    {
      connection.verifiedHostKey := acceptedVerifiedHostKey;
      connection.hostVerificationEvidence := evidence;
      if acceptedPinnedHostKey.Some? && connection.pinnedHostKey.None? {
        connection.pinnedHostKey := acceptedPinnedHostKey;
      }
    }
  }

  // ----- Sequences of handshakes

  const UNBOUND := Binding(None, None, None)

  /** One handshake: the offer, and whether everything behind the host key went well too. */
  datatype Handshake = Handshake(offer: Offer, completes: bool)

  predicate Commits(b: Binding, h: Handshake) {
    Verify(b, Candidate(None, None), h.offer).1 == Accepted && h.completes
  }

  function AfterHandshake(b: Binding, h: Handshake): Binding {
    if Commits(b, h) then Commit(b, Verify(b, Candidate(None, None), h.offer).0, EvidenceOf(h.offer)) else b
  }

  function After(handshakes: seq<Handshake>): Binding {
    if handshakes == [] then UNBOUND
    else AfterHandshake(After(handshakes[..|handshakes| - 1]), handshakes[|handshakes| - 1])
  }

  /** The offers of the handshakes that committed, in order. */
  function Committed(handshakes: seq<Handshake>): seq<Offer> {
    if handshakes == [] then []
    else
      var init, last := handshakes[..|handshakes| - 1], handshakes[|handshakes| - 1];
      Committed(init) + if Commits(After(init), last) then [last.offer] else []
  }

  predicate CertificateOnly(offer: Offer) {
    IsCertificateOnly(EvidenceOf(offer))
  }

  /** How the binding reflects the committed offers. */
  ghost predicate Reflects(b: Binding, offers: seq<Offer>) {
    && (b.pinned.None? ==> forall i :: 0 <= i < |offers| ==> CertificateOnly(offers[i]))
    && (b.pinned.Some? ==> offers != [] && offers[|offers| - 1].key == b.pinned.value)
    && (offers == [] ==> b == UNBOUND)
    && (offers != [] && b.pinned.None? ==> b.verified == Some(offers[|offers| - 1].key))
    && (offers != [] ==> b.evidence == EvidenceOf(offers[|offers| - 1]))
  }

  lemma {:induction false} BindingReflects(handshakes: seq<Handshake>)
    ensures Reflects(After(handshakes), Committed(handshakes))
    decreases |handshakes|
  {
    if handshakes != [] {
      var init, last := handshakes[..|handshakes| - 1], handshakes[|handshakes| - 1];
      BindingReflects(init);
    }
  }

  /** A pin is never moved or dropped, and a handshake that does not commit leaves the binding alone. */
  lemma PinStays(b: Binding, h: Handshake)
    ensures b.pinned.Some? ==> AfterHandshake(b, h).pinned == b.pinned
    ensures b.pinned.Some? && Commits(b, h) ==> h.offer.key == b.pinned.value
    ensures !Commits(b, h) ==> AfterHandshake(b, h) == b
  {}

  lemma {:induction false} PinStaysOverRuns(handshakes: seq<Handshake>, n: nat)
    requires n <= |handshakes| && After(handshakes[..n]).pinned.Some?
    ensures After(handshakes).pinned == After(handshakes[..n]).pinned
    ensures forall i :: |Committed(handshakes[..n])| <= i < |Committed(handshakes)| ==>
                          Committed(handshakes)[i].key == After(handshakes).pinned.value
    ensures Committed(handshakes[..n]) <= Committed(handshakes)
    decreases |handshakes|
  {
    if n == |handshakes| {
      assert handshakes[..n] == handshakes;
    } else {
      var init, last := handshakes[..|handshakes| - 1], handshakes[|handshakes| - 1];
      assert init[..n] == handshakes[..n];
      PinStaysOverRuns(init, n);
      PinStays(After(init), last);
    }
  }

  /** Two consecutive committed leaves differ only if both, and all before them, rest on a certificate
      authority alone. */
  lemma {:induction false} LeafChangesOnlyUnderCertificates(handshakes: seq<Handshake>, i: nat)
    requires i + 1 < |Committed(handshakes)|
    requires Committed(handshakes)[i].key != Committed(handshakes)[i + 1].key
    ensures forall j :: 0 <= j <= i + 1 ==> CertificateOnly(Committed(handshakes)[j])
    decreases |handshakes|
  {
    var init, last := handshakes[..|handshakes| - 1], handshakes[|handshakes| - 1];
    var before := Committed(init);
    if i + 1 < |before| {
      LeafChangesOnlyUnderCertificates(init, i);
    } else {
      assert Committed(handshakes) == before + [last.offer];
      BindingReflects(init);
      LastLeafChange(After(init), before, last);
    }
  }

  lemma LastLeafChange(b: Binding, before: seq<Offer>, h: Handshake)
    requires Reflects(b, before) && before != [] && Commits(b, h)
    requires before[|before| - 1].key != h.offer.key
    ensures CertificateOnly(h.offer) && forall j :: 0 <= j < |before| ==> CertificateOnly(before[j])
  {}

  // ----- Who is let in

  /** The verifier refuses exactly what was judged and not accepted; anything else is let in unless the
      connection holds a key for it that is another one: the pinned key if there is one, else the key
      verified last, which does not bind between two handshakes that rest on certificates alone. */
  lemma VerdictExactly(b: Binding, c: Candidate, offer: Offer)
    ensures var certificates := IsCertificateOnly(EvidenceOf(offer)) && IsCertificateOnly(b.evidence);
            Verify(b, c, offer).1
            == if offer.Judged? && !offer.accepted then Refused
               else if b.pinned.Some? then (if b.pinned.value == offer.key then Accepted else KeyChanged)
               else if b.verified.Some? && !certificates then
                 (if b.verified.value == offer.key then Accepted else KeyChanged)
               else Accepted
  {}

  /** So a connection that has not been bound yet lets every accepted key in, and a bound one its own key. */
  lemma AcceptedWhenItShould(b: Binding, c: Candidate, offer: Offer)
    requires offer.Judged? ==> offer.accepted
    requires b == UNBOUND || b.pinned == Some(offer.key) || (b.pinned.None? && b.verified == Some(offer.key))
    ensures Verify(b, c, offer).1 == Accepted
  {
    VerdictExactly(b, c, offer);
  }
}
