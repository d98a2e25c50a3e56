/** The hash-linked audit log, its two verifiers, and what the links are worth.

    The hash is a parameter. Nothing here assumes that it is injective: a
    binding result says "the logs are equal, or two of their own events have
    different payloads and one hash". */
module AuditLog {
  import opened Models
  import opened Text

  /** Everything that is hashed: an audit event without its `event_hash`. */
  datatype Payload = Payload(
    eventId: string, requestId: string, subjectId: string, operation: string, resource: string,
    status: DecisionStatus, reason: Reason, timestamp: string, previousHash: string,
    metadata: Metadata)

  datatype AuditEvent = AuditEvent(payload: Payload, eventHash: string)

  type Hash = Payload -> string

  const GENESIS_HASH: string := Zeros(64)

  function EventId(n: nat): string {
    "evt-" + ZeroPadded(8, n)
  }

  /** The hash that event `i` must carry as `previous_hash`. */
  function HashBefore(events: seq<AuditEvent>, i: nat): string
    requires i <= |events|
  {
    if i == 0 then GENESIS_HASH else events[i - 1].eventHash
  }

  function LastHash(events: seq<AuditEvent>): string {
    HashBefore(events, |events|)
  }

  /** The caller's part of an event. */
  datatype Entry = Entry(
    requestId: string, subjectId: string, operation: string, resource: string,
    status: DecisionStatus, reason: Reason, metadata: Metadata)

  function NextEvent(hash: Hash, events: seq<AuditEvent>, entry: Entry, timestamp: string): AuditEvent {
    var payload := Payload(
      EventId(|events| + 1), entry.requestId, entry.subjectId, entry.operation, entry.resource,
      entry.status, entry.reason, timestamp, LastHash(events), entry.metadata);
    AuditEvent(payload, hash(payload))
  }

  /** An identifier is "evt-" and the position in at least eight digits. */
  lemma EventIdText(n: nat)
    ensures |EventId(n)| >= 12 && EventId(n)[..4] == "evt-"
    ensures AllDigits(EventId(n)[4..]) && ParseDecimal(EventId(n)[4..]) == n
    ensures |EventId(n)| == 12 <==> n < 1_0000_0000
  {
    hide Decimal;
    ZeroPaddedRoundTrip(8, n);
    assert EventId(n)[4..] == ZeroPadded(8, n);
    assert Pow10(8) == 1_0000_0000;
    DecimalLength(n, 8);
  }

  /** The next event says what it was given and when, carries the next number, the
      hash of the event before it, or 64 zeros when it is the first, and its own hash. */
  lemma NextEventExactly(hash: Hash, events: seq<AuditEvent>, entry: Entry, timestamp: string)
    ensures var event := NextEvent(hash, events, entry, timestamp);
            var p := event.payload;
            && p.requestId == entry.requestId && p.subjectId == entry.subjectId
            && p.operation == entry.operation && p.resource == entry.resource
            && p.status == entry.status && p.reason == entry.reason && p.metadata == entry.metadata
            && p.timestamp == timestamp && event.eventHash == hash(p)
            && |p.eventId| >= 12 && p.eventId[..4] == "evt-" && AllDigits(p.eventId[4..])
            && ParseDecimal(p.eventId[4..]) == |events| + 1
            && (events != [] ==> p.previousHash == events[|events| - 1].eventHash)
            && (events == [] ==> |p.previousHash| == 64 && forall i :: 0 <= i < 64 ==> p.previousHash[i] == '0')
  {
    EventIdText(|events| + 1);
  }

  /** Event `i` carries the hash of the event before it. */
  predicate Linked(events: seq<AuditEvent>, i: nat)
    requires i < |events|
  {
    events[i].payload.previousHash == HashBefore(events, i)
  }

  predicate Sealed(hash: Hash, event: AuditEvent) {
    hash(event.payload) == event.eventHash
  }

  predicate Intact(hash: Hash, events: seq<AuditEvent>, i: nat)
    requires i < |events|
  {
    Linked(events, i) && Sealed(hash, events[i])
  }

  /** The chain is whole: every event is linked and sealed. */
  ghost predicate ChainValid(hash: Hash, events: seq<AuditEvent>) {
    forall i :: 0 <= i < |events| ==> Intact(hash, events, i)
  }

  predicate NumberedAt(events: seq<AuditEvent>, i: nat)
    requires i < |events|
  {
    events[i].payload.eventId == EventId(i + 1)
  }

  /** Every event carries the identifier of its position. */
  ghost predicate Numbered(events: seq<AuditEvent>) {
    forall i :: 0 <= i < |events| ==> NumberedAt(events, i)
  }

  /** Appending keeps the chain whole and the numbering. */
  lemma AppendKeepsChain(hash: Hash, events: seq<AuditEvent>, entry: Entry, timestamp: string)
    requires ChainValid(hash, events) && Numbered(events)
    ensures ChainValid(hash, events + [NextEvent(hash, events, entry, timestamp)])
    ensures Numbered(events + [NextEvent(hash, events, entry, timestamp)])
  {
    var longer := events + [NextEvent(hash, events, entry, timestamp)];
    forall i | 0 <= i < |longer|
      ensures Intact(hash, longer, i) && NumberedAt(longer, i)
    {
      if i < |events| {
        assert Intact(hash, events, i) && NumberedAt(events, i);
      }
    }
  }

  lemma PrefixIsValid(hash: Hash, events: seq<AuditEvent>, k: nat)
    requires ChainValid(hash, events) && k <= |events|
    ensures ChainValid(hash, events[..k])
  {
    forall i | 0 <= i < k
      ensures Intact(hash, events[..k], i)
    {
      assert Intact(hash, events, i);
    }
  }

  // ---- the two verifiers ----

  datatype ReplayReport = ReplayReport(valid: bool, eventCount: nat, reason: string)

  const CHAIN_VERIFIED := "audit chain verified"
  const LINK_MISMATCH := "previous hash mismatch"
  const SEAL_MISMATCH := "event hash mismatch"

  /** The report on a log: it is valid exactly when the chain is, and an invalid
      one names the first event, counted from one, that is not intact, and which
      of its two checks failed. */
  ghost predicate IsReportOn(report: ReplayReport, hash: Hash, events: seq<AuditEvent>) {
    && (report.valid <==> ChainValid(hash, events))
    && (report.valid ==> report == ReplayReport(true, |events|, CHAIN_VERIFIED))
    && (!report.valid ==>
          && 1 <= report.eventCount <= |events|
          && ChainValid(hash, events[..report.eventCount - 1])
          && !Intact(hash, events, report.eventCount - 1)
          && report.reason == if Linked(events, report.eventCount - 1) then SEAL_MISMATCH else LINK_MISMATCH)
  }

  /** `ReplayVerifier.verify`. */
  method Replay(hash: Hash, events: seq<AuditEvent>) returns (report: ReplayReport)
    ensures IsReportOn(report, hash, events)
  {
    var previousHash := GENESIS_HASH;
    for i := 0 to |events|
      invariant previousHash == HashBefore(events, i)
      invariant ChainValid(hash, events[..i])
    {
      var event := events[i];
      if event.payload.previousHash != previousHash {
        assert !Intact(hash, events, i);
        return ReplayReport(false, i + 1, LINK_MISMATCH);
      }
      if hash(event.payload) != event.eventHash {
        assert !Intact(hash, events, i);
        return ReplayReport(false, i + 1, SEAL_MISMATCH);
      }
      ExtendPrefix(hash, events, i);
      previousHash := event.eventHash;
    }
    assert events[..|events|] == events;
    return ReplayReport(true, |events|, CHAIN_VERIFIED);
  }

  lemma ExtendPrefix(hash: Hash, events: seq<AuditEvent>, i: nat)
    requires i < |events| && ChainValid(hash, events[..i]) && Intact(hash, events, i)
    ensures ChainValid(hash, events[..i + 1])
  {
    var longer := events[..i + 1];
    forall k | 0 <= k < |longer|
      ensures Intact(hash, longer, k)
    {
      if k < i {
        assert Intact(hash, events[..i], k);
      }
    }
  }

  class InMemoryAuditLog {
    const hash: Hash
    var events: seq<AuditEvent>

    constructor (hash: Hash)
      ensures this.hash == hash && events == []
    {
      this.hash := hash;
      this.events := [];
    }

    method Append(entry: Entry, timestamp: string) returns (event: AuditEvent)
      modifies this
      ensures event == NextEvent(hash, old(events), entry, timestamp)
      ensures events == old(events) + [event]
      ensures old(ChainValid(hash, events) && Numbered(events)) ==> ChainValid(hash, events) && Numbered(events)
    {
      var previousHash := if |events| > 0 then events[|events| - 1].eventHash else GENESIS_HASH;
      var eventId := "evt-" + ZeroPadded(8, |events| + 1);
      var payload := Payload(
        eventId, entry.requestId, entry.subjectId, entry.operation, entry.resource,
        entry.status, entry.reason, timestamp, previousHash, entry.metadata);
      event := AuditEvent(payload, hash(payload));
      ghost var before := events;
      events := events + [event];
      if ChainValid(hash, before) && Numbered(before) {
        AppendKeepsChain(hash, before, entry, timestamp);
      }
    }

    /** `InMemoryAuditLog.verify` answers as the replay verifier does. */
    method Verify() returns (valid: bool)
      ensures valid <==> ChainValid(hash, events)
    {
      var previousHash := GENESIS_HASH;
      for i := 0 to |events|
        invariant previousHash == HashBefore(events, i)
        invariant ChainValid(hash, events[..i])
      {
        var event := events[i];
        if event.payload.previousHash != previousHash {
          assert !Intact(hash, events, i);
          return false;
        }
        if hash(event.payload) != event.eventHash {
          assert !Intact(hash, events, i);
          return false;
        }
        ExtendPrefix(hash, events, i);
        previousHash := event.eventHash;
      }
      assert events[..|events|] == events;
      return true;
    }
  }

  // ---- what a valid chain binds ----

  /** Two events with different payloads and one hash. */
  predicate Collide(hash: Hash, a: AuditEvent, b: AuditEvent) {
    a.payload != b.payload && hash(a.payload) == hash(b.payload)
  }

  /** Some event of `a` and some event of `b` collide. */
  ghost predicate CollisionBetween(hash: Hash, a: seq<AuditEvent>, b: seq<AuditEvent>) {
    exists i, j :: 0 <= i < |a| && 0 <= j < |b| && Collide(hash, a[i], b[j])
  }

  ghost predicate HasGenesisHash(events: seq<AuditEvent>) {
    exists i :: 0 <= i < |events| && events[i].eventHash == GENESIS_HASH
  }

  /** The last hash of a valid log binds the whole log, of whatever length. */
  lemma {:induction false} ChainBinding(hash: Hash, a: seq<AuditEvent>, b: seq<AuditEvent>)
    requires ChainValid(hash, a) && ChainValid(hash, b)
    requires LastHash(a) == LastHash(b)
    ensures a == b || CollisionBetween(hash, a, b) || HasGenesisHash(a) || HasGenesisHash(b)
    decreases |a|
  {
    if a == [] || b == [] {
      assert a != [] ==> a[|a| - 1].eventHash == GENESIS_HASH;
      assert b != [] ==> b[|b| - 1].eventHash == GENESIS_HASH;
    } else {
      var m, n := |a| - 1, |b| - 1;
      assert Intact(hash, a, m) && Intact(hash, b, n);
      if a[m].payload != b[n].payload {
        assert Collide(hash, a[m], b[n]);
      } else {
        PrefixIsValid(hash, a, m);
        PrefixIsValid(hash, b, n);
        ChainBinding(hash, a[..m], b[..n]);
        if a[..m] == b[..n] {
          assert a == a[..m] + [a[m]] && b == b[..n] + [b[n]];
        } else if CollisionBetween(hash, a[..m], b[..n]) {
          var i, j :| 0 <= i < m && 0 <= j < n && Collide(hash, a[..m][i], b[..n][j]);
          assert Collide(hash, a[i], b[j]);
        } else if HasGenesisHash(a[..m]) {
          var i :| 0 <= i < m && a[..m][i].eventHash == GENESIS_HASH;
          assert a[i].eventHash == GENESIS_HASH;
        } else {
          var j :| 0 <= j < n && b[..n][j].eventHash == GENESIS_HASH;
          assert b[j].eventHash == GENESIS_HASH;
        }
      }
    }
  }

  /** For logs of one length the genesis hash plays no part. */
  lemma {:induction false} SameLengthBinding(hash: Hash, a: seq<AuditEvent>, b: seq<AuditEvent>)
    requires ChainValid(hash, a) && ChainValid(hash, b)
    requires |a| == |b| && LastHash(a) == LastHash(b)
    ensures a == b || CollisionBetween(hash, a, b)
  {
    if a == [] {
    } else {
      var m := |a| - 1;
      assert Intact(hash, a, m) && Intact(hash, b, m);
      if a[m].payload != b[m].payload {
        assert Collide(hash, a[m], b[m]);
      } else {
        PrefixIsValid(hash, a, m);
        PrefixIsValid(hash, b, m);
        SameLengthBinding(hash, a[..m], b[..m]);
        if a[..m] == b[..m] {
          assert a == a[..m] + [a[m]] && b == b[..m] + [b[m]];
        } else {
          var i, j :| 0 <= i < m && 0 <= j < m && Collide(hash, a[..m][i], b[..m][j]);
          assert Collide(hash, a[i], b[j]);
        }
      }
    }
  }

  /** Logs built by `append` are numbered, and a number fixes a position: their
      last hash binds them with no exception for the genesis hash. */
  lemma NumberedChainBinding(hash: Hash, a: seq<AuditEvent>, b: seq<AuditEvent>)
    requires ChainValid(hash, a) && ChainValid(hash, b) && Numbered(a) && Numbered(b)
    requires a != [] && b != [] && LastHash(a) == LastHash(b)
    ensures a == b || CollisionBetween(hash, a, b)
  {
    var m, n := |a| - 1, |b| - 1;
    assert Intact(hash, a, m) && Intact(hash, b, n);
    if a[m].payload == b[n].payload {
      SamePosition(a, m, b, n);
      SameLengthBinding(hash, a, b);
    } else {
      assert Collide(hash, a[m], b[n]);
    }
  }

  lemma EventIdInjective(m: nat, n: nat)
    ensures EventId(m) == EventId(n) <==> m == n
  {
    ZeroPaddedRoundTrip(8, m);
    ZeroPaddedRoundTrip(8, n);
    assert EventId(m)[4..] == ZeroPadded(8, m) && EventId(n)[4..] == ZeroPadded(8, n);
  }

  lemma SamePosition(a: seq<AuditEvent>, m: nat, b: seq<AuditEvent>, n: nat)
    requires Numbered(a) && Numbered(b)
    requires m < |a| && n < |b| && a[m].payload.eventId == b[n].payload.eventId
    ensures m == n
  {
    assert NumberedAt(a, m) && NumberedAt(b, n);
    EventIdInjective(m + 1, n + 1);
  }

  /** Replacing one event of a valid log, other than the last, is caught at that
      event or at the next one, or the replacement collides with the original. */
  lemma TamperIsLocated(hash: Hash, events: seq<AuditEvent>, i: nat, forged: AuditEvent)
    requires ChainValid(hash, events)
    requires i + 1 < |events| && forged != events[i]
    ensures var tampered := events[i := forged];
            && ChainValid(hash, tampered[..i])
            && (!Intact(hash, tampered, i) || !Intact(hash, tampered, i + 1) || Collide(hash, events[i], forged))
  {
    var tampered := events[i := forged];
    assert tampered[..i] == events[..i];
    PrefixIsValid(hash, events, i);
    assert Intact(hash, events, i) && Intact(hash, events, i + 1);
  }

  /** So replay reports the replaced event or the next one, or there is a collision. */
  lemma TamperIsReported(hash: Hash, events: seq<AuditEvent>, i: nat, forged: AuditEvent, report: ReplayReport)
    requires ChainValid(hash, events)
    requires i + 1 < |events| && forged != events[i]
    requires IsReportOn(report, hash, events[i := forged])
    ensures || Collide(hash, events[i], forged)
            || (!report.valid && (report.eventCount == i + 1 || report.eventCount == i + 2))
  {
    var tampered := events[i := forged];
    TamperIsLocated(hash, events, i, forged);
    PrefixIsIntact(hash, tampered, i);
    if !report.valid {
      PrefixIsIntact(hash, tampered, report.eventCount - 1);
    }
  }

  lemma PrefixIsIntact(hash: Hash, events: seq<AuditEvent>, n: nat)
    requires n <= |events| && ChainValid(hash, events[..n])
    ensures forall k :: 0 <= k < n ==> Intact(hash, events, k)
  {
    forall k | 0 <= k < n
      ensures Intact(hash, events, k)
    {
      assert Intact(hash, events[..n], k);
    }
  }

  /** Only the last event escapes: a forged last event passes replay exactly
      when it is linked and sealed, whatever it says. */
  lemma ForgedLastEvent(hash: Hash, events: seq<AuditEvent>, forged: AuditEvent)
    requires ChainValid(hash, events) && events != []
    ensures var n := |events| - 1;
            ChainValid(hash, events[n := forged]) <==>
            forged.payload.previousHash == HashBefore(events, n) && Sealed(hash, forged)
  {
    var n := |events| - 1;
    var tampered := events[n := forged];
    assert tampered[..n] == events[..n];
    PrefixIsValid(hash, events, n);
    if forged.payload.previousHash == HashBefore(events, n) && Sealed(hash, forged) {
      ExtendPrefix(hash, tampered, n);
      assert tampered[..n + 1] == tampered;
    } else {
      assert !Intact(hash, tampered, n);
    }
  }
}
