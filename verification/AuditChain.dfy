/** Hash-linked audit chains (packages/trust/src/audit-chain.ts): appending, the one-pass
    verifier with its maps and sets, and what a verified chain guarantees.

    Events are held in canonical form. Digests are free constructors over what is hashed. */
module AuditChain {
  import opened Wrappers
  import opened Texts

  /** `body` stands for the remaining event fields, all of which are hashed. */
  datatype TrustEvent = TrustEvent(eventId: Text, idempotencyKey: Text, tenantId: Text, streamId: Text, body: Text)

  datatype Digest =
    | Foreign(text: Text)
    | EventHash(event: TrustEvent)
    | EntryHash(base: EntryBase)

  datatype Checkpoint = Checkpoint(trustedSequence: int, trustedDigest: Digest)

  /** The nine fields that `entryDigest` hashes. */
  datatype EntryBase = EntryBase(
    appendedAt: int, checkpoint: Option<Checkpoint>, event: TrustEvent, eventDigest: Digest,
    previousDigest: Option<Digest>, sequence: int, streamId: Text, structureVersion: Text, tenantId: Text)

  /** `audit_` followed by a digest, or any other identifier. */
  datatype EntryId = Audit(digest: Digest) | OtherId(text: Text)

  /** `digestAlgorithm` is the optional runtime field that the verifier inspects but no digest covers. */
  datatype Entry = Entry(base: EntryBase, entryDigest: Digest, entryId: EntryId, digestAlgorithm: Option<Text>)

  const SHA256: Text := [0x53, 0x48, 0x41, 0x2D, 0x32, 0x35, 0x36]
  const VERSION_ONE: Text := [0x31]

  datatype Limits = Limits(maxEntries: int, maxEntryBytes: int, maxBytes: int)

  const DEFAULT_LIMITS := Limits(1_000, 16_384, 1_048_576)

  datatype Options = Options(
    expectedTenantId: Option<Text>, expectedStreamId: Option<Text>,
    trustedCheckpoint: Option<Checkpoint>, expectedHeadDigest: Option<Digest>, limits: Limits)

  /** What the model takes from outside: the serialized size of one entry in bytes, and the
      field checks of `validateTrustEvent`. */
  datatype Runtime = Runtime(entryBytes: Entry -> nat, validEvent: TrustEvent -> bool)

  datatype Reason =
    | ChainGap | ChainFork | EventReplay | EventDigestMismatch | EntryDigestMismatch | TenantMismatch
    | StreamMismatch | InvalidGenesis | InvalidCheckpoint | NonDeterministicOrder | ChainTooLarge
    | EntryTooLarge | UnsupportedAlgorithm | HeadMismatch

  function EntriesBytes(rt: Runtime, entries: seq<Entry>): nat {
    if entries == [] then 0 else EntriesBytes(rt, entries[..|entries| - 1]) + rt.entryBytes(entries[|entries| - 1])
  }

  /** `JSON.stringify` of an array: brackets, elements, and a comma between neighbours. */
  function ChainBytes(rt: Runtime, entries: seq<Entry>): nat {
    2 + EntriesBytes(rt, entries) + if entries == [] then 0 else |entries| - 1
  }

  // ------------------------------------------------ declarative meaning of each reason

  /** Whether an entry is at fault for the given reason, given its predecessor and whether an
      earlier entry forks or replays it. */
  predicate EntryFault(rt: Runtime, reason: Reason, e: Entry, previous: Option<Entry>, forks: bool, replays: bool,
          options: Options) {
    match reason
    case EntryTooLarge => rt.entryBytes(e) > options.limits.maxEntryBytes
    case UnsupportedAlgorithm => e.digestAlgorithm.Some? && e.digestAlgorithm.value != SHA256
    case TenantMismatch =>
      || (options.expectedTenantId.Some? && e.base.tenantId != options.expectedTenantId.value)
      || (previous.Some? && e.base.tenantId != previous.value.base.tenantId)
      || e.base.event.tenantId != e.base.tenantId
    case StreamMismatch =>
      || (options.expectedStreamId.Some? && e.base.streamId != options.expectedStreamId.value)
      || (previous.Some? && e.base.streamId != previous.value.base.streamId)
      || e.base.event.streamId != e.base.streamId
    case NonDeterministicOrder => previous.Some? && e.base.sequence <= previous.value.base.sequence
    case ChainFork => forks
    case EventReplay => replays
    case InvalidGenesis =>
      && previous.None? && options.trustedCheckpoint.None?
      && (e.base.sequence != 1 || e.base.previousDigest.Some? || e.base.checkpoint.Some?)
    case InvalidCheckpoint =>
      && previous.None? && options.trustedCheckpoint.Some?
      && !StartsAt(e, options.trustedCheckpoint.value)
    case ChainGap => previous.Some? && !Follows(previous.value, e)
    case EventDigestMismatch => e.base.eventDigest != EventHash(e.base.event)
    case EntryDigestMismatch => e.entryDigest != EntryHash(e.base) || e.entryId != Audit(EntryHash(e.base))
    case ChainTooLarge => false
    case HeadMismatch => false
  }

  function Before(entries: seq<Entry>, k: nat): Option<Entry>
    requires k <= |entries|
  {
    if k == 0 then None else Some(entries[k - 1])
  }

  ghost predicate Forked(entries: seq<Entry>, k: nat)
    requires k < |entries|
  {
    exists j :: 0 <= j < k && Forks(entries[j], entries[k])
  }

  ghost predicate Replayed(entries: seq<Entry>, k: nat)
    requires k < |entries|
  {
    exists j :: 0 <= j < k && Replays(entries[j], entries[k])
  }

  ghost predicate Faulty(rt: Runtime, reason: Reason, entries: seq<Entry>, k: nat, options: Options)
    requires k < |entries|
  {
    EntryFault(rt, reason, entries[k], Before(entries, k), Forked(entries, k), Replayed(entries, k), options)
  }

  predicate StartsAt(e: Entry, checkpoint: Checkpoint) {
    && e.base.checkpoint == Some(checkpoint)
    && e.base.sequence == checkpoint.trustedSequence + 1
    && e.base.previousDigest == Some(checkpoint.trustedDigest)
  }

  predicate Follows(previous: Entry, e: Entry) {
    e.base.sequence == previous.base.sequence + 1 && e.base.previousDigest == Some(previous.entryDigest)
  }

  predicate Forks(d: Entry, e: Entry) {
    || d.base.sequence == e.base.sequence
    || (e.base.previousDigest.Some? && d.base.previousDigest == e.base.previousDigest && d.entryDigest != e.entryDigest)
  }

  predicate Replays(d: Entry, e: Entry) {
    || d.base.event.eventId == e.base.event.eventId
    || d.base.event.idempotencyKey == e.base.event.idempotencyKey
    || d.base.eventDigest == e.base.eventDigest
  }

  predicate TooLarge(rt: Runtime, entries: seq<Entry>, limits: Limits) {
    |entries| > limits.maxEntries || ChainBytes(rt, entries) > limits.maxBytes
  }

  predicate WrongHead(entries: seq<Entry>, expected: Option<Digest>) {
    expected.Some? && (entries == [] || entries[|entries| - 1].entryDigest != expected.value)
  }

  ghost predicate FaultyBefore(rt: Runtime, reason: Reason, entries: seq<Entry>, n: nat, options: Options)
    requires n <= |entries|
  {
    exists k :: 0 <= k < n && Faulty(rt, reason, entries, k, options)
  }

  ghost predicate Violates(rt: Runtime, reason: Reason, entries: seq<Entry>, options: Options) {
    || FaultyBefore(rt, reason, entries, |entries|, options)
    || (reason.ChainTooLarge? && TooLarge(rt, entries, options.limits))
    || (reason.HeadMismatch? && WrongHead(entries, options.expectedHeadDigest))
  }

  /** The chain has no fault at all. */
  ghost predicate Verified(rt: Runtime, entries: seq<Entry>, options: Options) {
    forall reason: Reason :: !Violates(rt, reason, entries, options)
  }

  // ------------------------------------------------ the one-pass verifier

  datatype Verification = Verification(valid: bool, reasonCodes: seq<Reason>, lastEntryId: Option<EntryId>, verifiedFromCheckpoint: bool)

  /** `[...new Set(reasons)]`: first occurrences, in order. */
  function Unique(reasons: seq<Reason>): (r: seq<Reason>)
    ensures forall x :: x in r <==> x in reasons
    ensures forall i, j :: 0 <= i < j < |r| ==> r[i] != r[j]
  {
    if reasons == [] then []
    else
      var front := Unique(reasons[..|reasons| - 1]);
      var last := reasons[|reasons| - 1];
      assert reasons == reasons[..|reasons| - 1] + [last];
      if last in front then front else front + [last]
  }

  /** `if (condition) reasons.push(reason)`, once for each check in order. */
  function Push(reasons: seq<Reason>, checks: seq<(bool, Reason)>): seq<Reason>
    decreases |checks|
  {
    if checks == [] then reasons
    else Push(if checks[0].0 then reasons + [checks[0].1] else reasons, checks[1..])
  }

  lemma {:induction false} PushExact(reasons: seq<Reason>, checks: seq<(bool, Reason)>, r: Reason)
    ensures r in Push(reasons, checks) <==> r in reasons || (true, r) in checks
    decreases |checks|
  {
    if checks != [] {
      assert checks == [checks[0]] + checks[1..];
      PushExact(if checks[0].0 then reasons + [checks[0].1] else reasons, checks[1..], r);
    }
  }

  /** The k-th check of one loop iteration and the reason it pushes. */
  function Check(k: nat, rt: Runtime, e: Entry, previous: Option<Entry>, forks: bool, replays: bool,
          options: Options): (bool, Reason) {
    match k
    case 0 => (rt.entryBytes(e) > options.limits.maxEntryBytes, EntryTooLarge)
    case 1 => (e.digestAlgorithm.Some? && e.digestAlgorithm.value != SHA256, UnsupportedAlgorithm)
    case 2 => (options.expectedTenantId.Some? && e.base.tenantId != options.expectedTenantId.value, TenantMismatch)
    case 3 => (options.expectedStreamId.Some? && e.base.streamId != options.expectedStreamId.value, StreamMismatch)
    case 4 => (previous.Some? && e.base.sequence <= previous.value.base.sequence, NonDeterministicOrder)
    case 5 => (forks, ChainFork)
    case 6 => (replays, EventReplay)
    case 7 =>
      if previous.Some? then (!Follows(previous.value, e), ChainGap)
      else if options.trustedCheckpoint.Some? then (!StartsAt(e, options.trustedCheckpoint.value), InvalidCheckpoint)
      else (e.base.sequence != 1 || e.base.previousDigest.Some? || e.base.checkpoint.Some?, InvalidGenesis)
    case 8 => (previous.Some? && e.base.tenantId != previous.value.base.tenantId, TenantMismatch)
    case 9 => (previous.Some? && e.base.streamId != previous.value.base.streamId, StreamMismatch)
    case 10 => (e.base.event.tenantId != e.base.tenantId, TenantMismatch)
    case 11 => (e.base.event.streamId != e.base.streamId, StreamMismatch)
    case 12 => (EventHash(e.base.event) != e.base.eventDigest, EventDigestMismatch)
    case _ => (EntryHash(e.base) != e.entryDigest || e.entryId != Audit(EntryHash(e.base)), EntryDigestMismatch)
  }

  function EntryChecks(rt: Runtime, e: Entry, previous: Option<Entry>, forks: bool, replays: bool,
          options: Options): seq<(bool, Reason)> {
    seq(14, k requires 0 <= k < 14 => Check(k, rt, e, previous, forks, replays, options))
  }

  /** A check that raises r, when there is one. */
  function CheckFor(r: Reason, rt: Runtime, e: Entry, previous: Option<Entry>, options: Options): nat {
    match r
    case EntryTooLarge => 0
    case UnsupportedAlgorithm => 1
    case TenantMismatch =>
      if options.expectedTenantId.Some? && e.base.tenantId != options.expectedTenantId.value then 2
      else if previous.Some? && e.base.tenantId != previous.value.base.tenantId then 8 else 10
    case StreamMismatch =>
      if options.expectedStreamId.Some? && e.base.streamId != options.expectedStreamId.value then 3
      else if previous.Some? && e.base.streamId != previous.value.base.streamId then 9 else 11
    case NonDeterministicOrder => 4
    case ChainFork => 5
    case EventReplay => 6
    case InvalidGenesis | InvalidCheckpoint | ChainGap => 7
    case EventDigestMismatch => 12
    case _ => 13
  }

  lemma CheckSound(k: nat, rt: Runtime, e: Entry, previous: Option<Entry>, forks: bool, replays: bool, options: Options)
    ensures var c := Check(k, rt, e, previous, forks, replays, options);
      c.0 ==> EntryFault(rt, c.1, e, previous, forks, replays, options)
  {
    match k
    case 0 =>
    case 1 =>
    case 2 =>
    case 3 =>
    case 4 =>
    case 5 =>
    case 6 =>
    case 7 =>
    case 8 =>
    case 9 =>
    case 10 =>
    case 11 =>
    case 12 =>
    case _ =>
  }

  lemma CheckComplete(rt: Runtime, e: Entry, previous: Option<Entry>, forks: bool, replays: bool, options: Options,
          r: Reason)
    requires EntryFault(rt, r, e, previous, forks, replays, options)
    ensures var k := CheckFor(r, rt, e, previous, options);
      k < 14 && Check(k, rt, e, previous, forks, replays, options) == (true, r)
  {
  }

  lemma EntryChecksExact(rt: Runtime, e: Entry, previous: Option<Entry>, forks: bool, replays: bool,
          options: Options, r: Reason)
    ensures (true, r) in EntryChecks(rt, e, previous, forks, replays, options)
       <==> EntryFault(rt, r, e, previous, forks, replays, options)
  {
    var checks := EntryChecks(rt, e, previous, forks, replays, options);
    if EntryFault(rt, r, e, previous, forks, replays, options) {
      CheckComplete(rt, e, previous, forks, replays, options, r);
      assert checks[CheckFor(r, rt, e, previous, options)] == (true, r);
    }
    if (true, r) in checks {
      var k :| 0 <= k < |checks| && checks[k] == (true, r);
      CheckSound(k, rt, e, previous, forks, replays, options);
    }
  }

  /** What the fork map remembers about the first n entries: for every previous digest, the
      entry digest of one entry that names it, and of all of them while no fork was seen. */
  ghost predicate ForkMap(entries: seq<Entry>, n: nat, children: map<Digest, Digest>)
    requires n <= |entries|
  {
    && (forall j :: 0 <= j < n && entries[j].base.previousDigest.Some? ==> entries[j].base.previousDigest.value in children)
    && (forall p :: p in children ==>
         exists j :: 0 <= j < n && entries[j].base.previousDigest == Some(p) && entries[j].entryDigest == children[p])
    && ((forall k :: 0 <= k < n ==> !Forked(entries, k)) ==>
         forall j :: 0 <= j < n && entries[j].base.previousDigest.Some? ==>
           children[entries[j].base.previousDigest.value] == entries[j].entryDigest)
  }

  /** What the replay sets and the sequence map hold after the first n entries. */
  ghost predicate SeenSets(entries: seq<Entry>, n: nat, sequences: map<int, Digest>, eventIds: set<Text>,
          idempotencyKeys: set<Text>, eventDigests: set<Digest>)
    requires n <= |entries|
  {
    && (forall x :: x in sequences <==> exists j :: 0 <= j < n && entries[j].base.sequence == x)
    && (forall x :: x in eventIds <==> exists j :: 0 <= j < n && entries[j].base.event.eventId == x)
    && (forall x :: x in idempotencyKeys <==> exists j :: 0 <= j < n && entries[j].base.event.idempotencyKey == x)
    && (forall x :: x in eventDigests <==> exists j :: 0 <= j < n && entries[j].base.eventDigest == x)
  }

  lemma ForkDetected(entries: seq<Entry>, k: nat, sequences: map<int, Digest>, children: map<Digest, Digest>)
    requires k < |entries| && ForkMap(entries, k, children)
    requires forall x :: x in sequences <==> exists j :: 0 <= j < k && entries[j].base.sequence == x
    ensures var e := entries[k];
      var detected := e.base.sequence in sequences
        || (e.base.previousDigest.Some? && e.base.previousDigest.value in children && children[e.base.previousDigest.value] != e.entryDigest);
      && (detected ==> Forked(entries, k))
      && (Forked(entries, k) ==> detected || exists m :: 0 <= m < k && Forked(entries, m))
  {
    var e := entries[k];
    if e.base.sequence in sequences {
      var j :| 0 <= j < k && entries[j].base.sequence == e.base.sequence;
      assert Forks(entries[j], e);
    } else if e.base.previousDigest.Some? && e.base.previousDigest.value in children && children[e.base.previousDigest.value] != e.entryDigest {
      var j :| 0 <= j < k && entries[j].base.previousDigest == e.base.previousDigest
        && entries[j].entryDigest == children[e.base.previousDigest.value];
      assert Forks(entries[j], e);
    }
  }

  lemma ForkMapGrows(entries: seq<Entry>, k: nat, children: map<Digest, Digest>)
    requires k < |entries| && ForkMap(entries, k, children)
    ensures var e := entries[k];
      ForkMap(entries, k + 1, if e.base.previousDigest.Some? then children[e.base.previousDigest.value := e.entryDigest] else children)
  {
    var e := entries[k];
    if e.base.previousDigest.Some? {
      var grown := children[e.base.previousDigest.value := e.entryDigest];
      forall p | p in grown
        ensures exists j :: 0 <= j < k + 1 && entries[j].base.previousDigest == Some(p) && entries[j].entryDigest == grown[p]
      {
        if p == e.base.previousDigest.value {
          assert entries[k].entryDigest == grown[p];
        } else {
          var j :| 0 <= j < k && entries[j].base.previousDigest == Some(p) && entries[j].entryDigest == children[p];
        }
      }
      if forall m :: 0 <= m < k + 1 ==> !Forked(entries, m) {
        forall j | 0 <= j < k + 1 && entries[j].base.previousDigest.Some?
          ensures grown[entries[j].base.previousDigest.value] == entries[j].entryDigest
        {
          if j < k && entries[j].base.previousDigest == e.base.previousDigest {
            assert !Forked(entries, k);
            assert !Forks(entries[j], e);
          }
        }
      }
    }
  }

  lemma ReplayDetected(entries: seq<Entry>, k: nat, sequences: map<int, Digest>, eventIds: set<Text>,
          idempotencyKeys: set<Text>, eventDigests: set<Digest>)
    requires k < |entries| && SeenSets(entries, k, sequences, eventIds, idempotencyKeys, eventDigests)
    ensures var e := entries[k];
      Replayed(entries, k) <==>
        e.base.event.eventId in eventIds || e.base.event.idempotencyKey in idempotencyKeys || e.base.eventDigest in eventDigests
  {
    var e := entries[k];
    if e.base.event.eventId in eventIds {
      var j :| 0 <= j < k && entries[j].base.event.eventId == e.base.event.eventId;
      assert Replays(entries[j], e);
    } else if e.base.event.idempotencyKey in idempotencyKeys {
      var j :| 0 <= j < k && entries[j].base.event.idempotencyKey == e.base.event.idempotencyKey;
      assert Replays(entries[j], e);
    } else if e.base.eventDigest in eventDigests {
      var j :| 0 <= j < k && entries[j].base.eventDigest == e.base.eventDigest;
      assert Replays(entries[j], e);
    }
  }

  lemma FaultyBeforeGrows(rt: Runtime, reason: Reason, entries: seq<Entry>, k: nat, options: Options)
    requires k < |entries|
    ensures FaultyBefore(rt, reason, entries, k + 1, options) <==>
      FaultyBefore(rt, reason, entries, k, options) || Faulty(rt, reason, entries, k, options)
  {
  }

  lemma SeenSetsGrow(entries: seq<Entry>, k: nat, sequences: map<int, Digest>, eventIds: set<Text>,
          idempotencyKeys: set<Text>, eventDigests: set<Digest>)
    requires k < |entries| && SeenSets(entries, k, sequences, eventIds, idempotencyKeys, eventDigests)
    ensures var e := entries[k];
      SeenSets(entries, k + 1, sequences[e.base.sequence := e.entryDigest], eventIds + {e.base.event.eventId},
               idempotencyKeys + {e.base.event.idempotencyKey}, eventDigests + {e.base.eventDigest})
  {
  }

  /** `reasons` holds exactly the reasons the first n entries and the overall size give. */
  ghost predicate Reported(rt: Runtime, reasons: seq<Reason>, entries: seq<Entry>, n: nat, options: Options)
    requires n <= |entries|
  {
    forall r :: r in reasons <==>
      FaultyBefore(rt, r, entries, n, options) || (r.ChainTooLarge? && TooLarge(rt, entries, options.limits))
  }

  lemma ReportedAtStart(rt: Runtime, entries: seq<Entry>, options: Options)
    ensures Reported(rt, Push([], [(TooLarge(rt, entries, options.limits), ChainTooLarge)]), entries, 0, options)
  {
    forall r {
      PushExact([], [(TooLarge(rt, entries, options.limits), ChainTooLarge)], r);
    }
  }

  lemma ReportedGrows(rt: Runtime, entries: seq<Entry>, k: nat, options: Options, before: seq<Reason>, forks: bool)
    requires k < |entries| && Reported(rt, before, entries, k, options)
    requires forks ==> Forked(entries, k)
    requires Forked(entries, k) ==> forks || exists m :: 0 <= m < k && Forked(entries, m)
    ensures Reported(rt, Push(before, EntryChecks(rt, entries[k], Before(entries, k), forks, Replayed(entries, k), options)),
                     entries, k + 1, options)
  {
    var checks := EntryChecks(rt, entries[k], Before(entries, k), forks, Replayed(entries, k), options);
    forall r ensures r in Push(before, checks) <==>
      FaultyBefore(rt, r, entries, k + 1, options) || (r.ChainTooLarge? && TooLarge(rt, entries, options.limits))
    {
      PushExact(before, checks, r);
      EntryChecksExact(rt, entries[k], Before(entries, k), forks, Replayed(entries, k), options, r);
      FaultyBeforeGrows(rt, r, entries, k, options);
      if r == ChainFork && exists m :: 0 <= m < k && Forked(entries, m) {
        var m :| 0 <= m < k && Forked(entries, m);
        assert Faulty(rt, ChainFork, entries, m, options);
      }
    }
  }

  lemma ReportedAtEnd(rt: Runtime, entries: seq<Entry>, options: Options, before: seq<Reason>)
    requires Reported(rt, before, entries, |entries|, options)
    ensures var after := Push(before, [(WrongHead(entries, options.expectedHeadDigest), HeadMismatch)]);
      forall r :: r in after <==> Violates(rt, r, entries, options)
  {
    var after := Push(before, [(WrongHead(entries, options.expectedHeadDigest), HeadMismatch)]);
    forall r ensures r in after <==> Violates(rt, r, entries, options) {
      PushExact(before, [(WrongHead(entries, options.expectedHeadDigest), HeadMismatch)], r);
    }
  }

  /** What the verifier's variables hold after the first n entries. */
  ghost predicate ScanState(rt: Runtime, entries: seq<Entry>, n: nat, options: Options, sequences: map<int, Digest>,
    previousDigests: map<Digest, Digest>, eventIds: set<Text>, idempotencyKeys: set<Text>, eventDigests: set<Digest>, reasons: seq<Reason>)
    requires n <= |entries|
  {
    && ForkMap(entries, n, previousDigests)
    && SeenSets(entries, n, sequences, eventIds, idempotencyKeys, eventDigests)
    && Reported(rt, reasons, entries, n, options)
  }

  /** The body of the verifier's loop: its variables come in and go out updated. */
  method VisitEntry(rt: Runtime, entries: seq<Entry>, i: nat, options: Options, previous: Option<Entry>,
          sequences0: map<int, Digest>,
    previousDigests0: map<Digest, Digest>, eventIds0: set<Text>, idempotencyKeys0: set<Text>, eventDigests0: set<Digest>, reasons0: seq<Reason>)
    returns (sequences: map<int, Digest>, previousDigests: map<Digest, Digest>, eventIds: set<Text>, idempotencyKeys: set<Text>,
             eventDigests: set<Digest>, reasons: seq<Reason>)
    requires i < |entries| && previous == Before(entries, i)
    requires ScanState(rt, entries, i, options, sequences0, previousDigests0, eventIds0, idempotencyKeys0, eventDigests0, reasons0)
    ensures ScanState(rt, entries, i + 1, options, sequences, previousDigests, eventIds, idempotencyKeys, eventDigests, reasons)
  {
    var entry := entries[i];
    var forks := entry.base.sequence in sequences0;
    sequences := sequences0[entry.base.sequence := entry.entryDigest];
    previousDigests := previousDigests0;
    if entry.base.previousDigest.Some? {
      var p := entry.base.previousDigest.value;
      if p in previousDigests && previousDigests[p] != entry.entryDigest {
        forks := true;
      }
      previousDigests := previousDigests[p := entry.entryDigest];
    }
    var replays := entry.base.event.eventId in eventIds0 || entry.base.event.idempotencyKey in idempotencyKeys0
      || entry.base.eventDigest in eventDigests0;
    eventIds := eventIds0 + {entry.base.event.eventId};
    idempotencyKeys := idempotencyKeys0 + {entry.base.event.idempotencyKey};
    eventDigests := eventDigests0 + {entry.base.eventDigest};
    reasons := Push(reasons0, EntryChecks(rt, entry, previous, forks, replays, options));
    ForkMapGrows(entries, i, previousDigests0);
    SeenSetsGrow(entries, i, sequences0, eventIds0, idempotencyKeys0, eventDigests0);
    ReplayDetected(entries, i, sequences0, eventIds0, idempotencyKeys0, eventDigests0);
    ForkDetected(entries, i, sequences0, previousDigests0);
    ReportedGrows(rt, entries, i, options, reasons0, forks);
  }

  /** One pass over the entries; every reason code is reported exactly when the chain has that
      fault somewhere, so the result is valid exactly for the chains without any fault. */
  method VerifyAuditChain(rt: Runtime, entries: seq<Entry>, options: Options) returns (v: Verification)
    ensures forall r :: r in v.reasonCodes <==> Violates(rt, r, entries, options)
    ensures v.valid <==> Verified(rt, entries, options)
    ensures forall i, j :: 0 <= i < j < |v.reasonCodes| ==> v.reasonCodes[i] != v.reasonCodes[j]
    ensures v.lastEntryId == if entries == [] then None else Some(entries[|entries| - 1].entryId)
    ensures v.verifiedFromCheckpoint == options.trustedCheckpoint.Some?
  {
    var reasons := Push([], [(TooLarge(rt, entries, options.limits), ChainTooLarge)]);
    ReportedAtStart(rt, entries, options);
    var sequences: map<int, Digest> := map[];
    var previousDigests: map<Digest, Digest> := map[];
    var eventIds: set<Text> := {};
    var idempotencyKeys: set<Text> := {};
    var eventDigests: set<Digest> := {};
    var previous: Option<Entry> := None;
    var lastEntryDigest: Option<Digest> := None;
    var i := 0;
    while i < |entries|
      invariant 0 <= i <= |entries|
      invariant previous == Before(entries, i)
      invariant lastEntryDigest == if i == 0 then None else Some(entries[i - 1].entryDigest)
      invariant ScanState(rt, entries, i, options, sequences, previousDigests, eventIds, idempotencyKeys, eventDigests, reasons)
    {
      sequences, previousDigests, eventIds, idempotencyKeys, eventDigests, reasons := VisitEntry(
        rt, entries, i, options, previous, sequences, previousDigests, eventIds, idempotencyKeys, eventDigests, reasons);
      lastEntryDigest := Some(entries[i].entryDigest);
      previous := Some(entries[i]);
      i := i + 1;
    }
    ReportedAtEnd(rt, entries, options, reasons);
    reasons := Push(reasons, [(options.expectedHeadDigest.Some? && lastEntryDigest != options.expectedHeadDigest, HeadMismatch)]);
    var unique := Unique(reasons);
    v := Verification(unique == [], unique, if entries == [] then None else Some(entries[|entries| - 1].entryId), options.trustedCheckpoint.Some?);
    assert unique != [] ==> unique[0] in reasons;
  }

  // ------------------------------------------------ what a verified chain is

  /** The checks that look at one entry alone. */
  predicate SoundEntry(rt: Runtime, e: Entry, options: Options) {
    && rt.entryBytes(e) <= options.limits.maxEntryBytes
    && (e.digestAlgorithm.None? || e.digestAlgorithm.value == SHA256)
    && (options.expectedTenantId.Some? ==> e.base.tenantId == options.expectedTenantId.value)
    && (options.expectedStreamId.Some? ==> e.base.streamId == options.expectedStreamId.value)
    && e.base.event.tenantId == e.base.tenantId && e.base.event.streamId == e.base.streamId
    && e.base.eventDigest == EventHash(e.base.event)
    && e.entryDigest == EntryHash(e.base) && e.entryId == Audit(EntryHash(e.base))
  }

  predicate Starts(e: Entry, trustedCheckpoint: Option<Checkpoint>) {
    if trustedCheckpoint.Some? then StartsAt(e, trustedCheckpoint.value)
    else e.base.sequence == 1 && e.base.previousDigest.None? && e.base.checkpoint.None?
  }

  predicate Extends(previous: Entry, e: Entry) {
    Follows(previous, e) && e.base.tenantId == previous.base.tenantId && e.base.streamId == previous.base.streamId
  }

  /** The k-th entry is sound and continues the one before it, or starts the chain. */
  ghost predicate InPlace(rt: Runtime, entries: seq<Entry>, options: Options, k: nat)
    requires k < |entries|
  {
    && SoundEntry(rt, entries[k], options)
    && if k == 0 then Starts(entries[0], options.trustedCheckpoint) else Extends(entries[k - 1], entries[k])
  }

  ghost predicate Apart(entries: seq<Entry>, j: nat, k: nat)
    requires j < |entries| && k < |entries|
  {
    !Replays(entries[j], entries[k])
  }

  /** Consecutive, linked, correctly hashed entries of one tenant and stream from the right
      start, without a repeated event, within the limits, ending in the expected head. */
  ghost predicate WellChained(rt: Runtime, entries: seq<Entry>, options: Options) {
    && !TooLarge(rt, entries, options.limits)
    && (forall k: nat :: k < |entries| ==> InPlace(rt, entries, options, k))
    && (forall j: nat, k: nat :: j < k < |entries| ==> Apart(entries, j, k))
    && !WrongHead(entries, options.expectedHeadDigest)
  }

  /** How many linked entries lie below a digest; it grows along a chain, so no chain loops. */
  function Depth(d: Digest): nat {
    match d
    case EntryHash(base) => if base.previousDigest.Some? then 1 + Depth(base.previousDigest.value) else 1
    case _ => 0
  }

  lemma {:induction false} DepthGrows(rt: Runtime, entries: seq<Entry>, options: Options, j: nat, k: nat)
    requires WellChained(rt, entries, options) && j <= k < |entries|
    ensures Depth(entries[j].entryDigest) + (k - j) == Depth(entries[k].entryDigest)
    ensures entries[k].base.sequence == entries[j].base.sequence + (k - j)
    decreases k - j
  {
    assert InPlace(rt, entries, options, k);
    if j < k {
      DepthGrows(rt, entries, options, j, k - 1);
    }
  }

  /** The fork and ordering checks follow from the others: consecutive sequence numbers and
      acyclic digests leave no room for two entries with one number or one parent. */
  lemma WellChainedHasNoFork(rt: Runtime, entries: seq<Entry>, options: Options, j: nat, k: nat)
    requires WellChained(rt, entries, options) && j < k < |entries|
    ensures !Forks(entries[j], entries[k])
  {
    assert InPlace(rt, entries, options, j) && InPlace(rt, entries, options, k);
    DepthGrows(rt, entries, options, j, k);
    if j > 0 {
      DepthGrows(rt, entries, options, j - 1, k - 1);
    } else {
      DepthGrows(rt, entries, options, 0, k - 1);
    }
  }

  lemma WellChainedIsFaultless(rt: Runtime, entries: seq<Entry>, options: Options, reason: Reason, k: nat)
    requires WellChained(rt, entries, options) && k < |entries|
    ensures !Faulty(rt, reason, entries, k, options)
  {
    assert InPlace(rt, entries, options, k);
    assert !Forked(entries, k) by {
      forall j: nat | j < k ensures !Forks(entries[j], entries[k]) {
        WellChainedHasNoFork(rt, entries, options, j, k);
      }
    }
    assert !Replayed(entries, k) by {
      forall j: nat | j < k ensures !Replays(entries[j], entries[k]) {
        assert Apart(entries, j, k);
      }
    }
    match reason
    case EntryTooLarge =>
    case UnsupportedAlgorithm =>
    case TenantMismatch =>
    case StreamMismatch =>
    case NonDeterministicOrder =>
    case ChainFork =>
    case EventReplay =>
    case InvalidGenesis =>
    case InvalidCheckpoint =>
    case ChainGap =>
    case EventDigestMismatch =>
    case EntryDigestMismatch =>
    case ChainTooLarge =>
    case HeadMismatch =>
  }

  lemma FaultlessEntry(rt: Runtime, entries: seq<Entry>, options: Options, k: nat)
    requires k < |entries| && forall reason :: !Faulty(rt, reason, entries, k, options)
    ensures InPlace(rt, entries, options, k) && !Replayed(entries, k)
  {
    assert !Faulty(rt, EntryTooLarge, entries, k, options);
    assert !Faulty(rt, UnsupportedAlgorithm, entries, k, options);
    assert !Faulty(rt, TenantMismatch, entries, k, options);
    assert !Faulty(rt, StreamMismatch, entries, k, options);
    assert !Faulty(rt, EventReplay, entries, k, options);
    assert !Faulty(rt, InvalidGenesis, entries, k, options);
    assert !Faulty(rt, InvalidCheckpoint, entries, k, options);
    assert !Faulty(rt, ChainGap, entries, k, options);
    assert !Faulty(rt, EventDigestMismatch, entries, k, options);
    assert !Faulty(rt, EntryDigestMismatch, entries, k, options);
  }

  /** The verifier accepts exactly the well-chained sequences. */
  lemma VerifiedExact(rt: Runtime, entries: seq<Entry>, options: Options)
    ensures Verified(rt, entries, options) <==> WellChained(rt, entries, options)
  {
    if WellChained(rt, entries, options) {
      forall reason ensures !Violates(rt, reason, entries, options) {
        forall k: nat | k < |entries| ensures !Faulty(rt, reason, entries, k, options) {
          WellChainedIsFaultless(rt, entries, options, reason, k);
        }
      }
    }
    if Verified(rt, entries, options) {
      VerifiedIsWellChained(rt, entries, options);
    }
  }

  lemma VerifiedIsWellChained(rt: Runtime, entries: seq<Entry>, options: Options)
    requires Verified(rt, entries, options)
    ensures WellChained(rt, entries, options)
  {
    assert !Violates(rt, ChainTooLarge, entries, options) && !Violates(rt, HeadMismatch, entries, options);
    forall k: nat | k < |entries| ensures InPlace(rt, entries, options, k) && !Replayed(entries, k) {
      forall reason ensures !Faulty(rt, reason, entries, k, options) {
        assert !Violates(rt, reason, entries, options);
      }
      FaultlessEntry(rt, entries, options, k);
    }
    forall j: nat, k: nat | j < k < |entries| ensures Apart(entries, j, k) {
      assert !Replayed(entries, k);
    }
  }

  // ------------------------------------------------ binding

  /** Everything about an entry except the optional algorithm field, which no digest covers. */
  predicate SameRecord(d: Entry, e: Entry) {
    d.base == e.base && d.entryDigest == e.entryDigest && d.entryId == e.entryId
  }

  /** Two verified chains with the same head agree from the head backwards, however each one was
      started and whatever each one was checked against: the shorter is the tail of the longer. */
  lemma {:induction false} SameHeadSameTail(rt: Runtime, a: seq<Entry>, b: seq<Entry>, optionsA: Options,
          optionsB: Options, back: nat)
    requires WellChained(rt, a, optionsA) && WellChained(rt, b, optionsB)
    requires back < |a| && back < |b| && a[|a| - 1].entryDigest == b[|b| - 1].entryDigest
    ensures SameRecord(a[|a| - 1 - back], b[|b| - 1 - back])
    decreases back
  {
    var i, j := |a| - 1 - back, |b| - 1 - back;
    assert InPlace(rt, a, optionsA, i) && InPlace(rt, b, optionsB, j);
    if back > 0 {
      SameHeadSameTail(rt, a, b, optionsA, optionsB, back - 1);
      assert InPlace(rt, a, optionsA, i + 1) && InPlace(rt, b, optionsB, j + 1);
    }
  }

  /** Chain binding: chains that verify from the same start against the same expected head have
      the same records, one by one. Edits, drops, reorders, insertions and truncations all change
      some record, so none of them survives. */
  lemma ChainBinding(rt: Runtime, a: seq<Entry>, b: seq<Entry>, optionsA: Options, optionsB: Options)
    requires Verified(rt, a, optionsA) && Verified(rt, b, optionsB)
    requires optionsA.expectedHeadDigest.Some? && optionsA.expectedHeadDigest == optionsB.expectedHeadDigest
    requires optionsA.trustedCheckpoint == optionsB.trustedCheckpoint
    ensures |a| == |b| && a != []
    ensures forall k :: 0 <= k < |a| ==> SameRecord(a[k], b[k])
  {
    VerifiedExact(rt, a, optionsA);
    VerifiedExact(rt, b, optionsB);
    SameStartSameLength(rt, a, b, optionsA, optionsB);
    forall k | 0 <= k < |a| ensures SameRecord(a[k], b[k]) {
      SameHeadSameTail(rt, a, b, optionsA, optionsB, |a| - 1 - k);
    }
  }

  lemma SameStartSameLength(rt: Runtime, a: seq<Entry>, b: seq<Entry>, optionsA: Options, optionsB: Options)
    requires WellChained(rt, a, optionsA) && WellChained(rt, b, optionsB)
    requires a != [] && b != [] && a[|a| - 1].entryDigest == b[|b| - 1].entryDigest
    requires optionsA.trustedCheckpoint == optionsB.trustedCheckpoint
    ensures |a| == |b|
  {
    SameHeadSameTail(rt, a, b, optionsA, optionsB, 0);
    DepthGrows(rt, a, optionsA, 0, |a| - 1);
    DepthGrows(rt, b, optionsB, 0, |b| - 1);
    assert InPlace(rt, a, optionsA, 0) && InPlace(rt, b, optionsB, 0);
  }

  /** The one thing a head digest does not bind: whether an entry states its algorithm. */
  lemma AlgorithmFieldNotBound(rt: Runtime, a: seq<Entry>, k: nat, options: Options, algorithm: Option<Text>)
    requires Verified(rt, a, options) && k < |a|
    ensures var b := a[k := a[k].(digestAlgorithm := algorithm)];
      Verified(rt, b, options) <==>
        && (algorithm.None? || algorithm.value == SHA256)
        && rt.entryBytes(b[k]) <= options.limits.maxEntryBytes
        && ChainBytes(rt, b) <= options.limits.maxBytes
  {
    var b := a[k := a[k].(digestAlgorithm := algorithm)];
    VerifiedExact(rt, a, options);
    VerifiedExact(rt, b, options);
    RelabelledChain(rt, a, k, options, algorithm);
  }

  lemma RelabelledChain(rt: Runtime, a: seq<Entry>, k: nat, options: Options, algorithm: Option<Text>)
    requires WellChained(rt, a, options) && k < |a|
    ensures var b := a[k := a[k].(digestAlgorithm := algorithm)];
      WellChained(rt, b, options) <==>
        && (algorithm.None? || algorithm.value == SHA256)
        && rt.entryBytes(b[k]) <= options.limits.maxEntryBytes
        && ChainBytes(rt, b) <= options.limits.maxBytes
  {
    var b := a[k := a[k].(digestAlgorithm := algorithm)];
    assert InPlace(rt, b, options, k) <==>
      (algorithm.None? || algorithm.value == SHA256) && rt.entryBytes(b[k]) <= options.limits.maxEntryBytes by {
      assert InPlace(rt, a, options, k);
    }
    forall i: nat | i < |b| && i != k ensures InPlace(rt, b, options, i) {
      assert InPlace(rt, a, options, i);
    }
    forall i: nat, j: nat | i < j < |b| ensures Apart(b, i, j) {
      assert Apart(a, i, j);
    }
  }

  // ------------------------------------------------ prefixes, concatenation, append

  lemma {:induction false} EntriesBytesConcat(rt: Runtime, a: seq<Entry>, b: seq<Entry>)
    ensures EntriesBytes(rt, a + b) == EntriesBytes(rt, a) + EntriesBytes(rt, b)
    decreases |b|
  {
    if b == [] {
      assert a + b == a;
    } else {
      assert (a + b)[..|a + b| - 1] == a + b[..|b| - 1];
      EntriesBytesConcat(rt, a, b[..|b| - 1]);
    }
  }

  /** Every prefix of a verified chain verifies, head expectation aside. */
  lemma PrefixVerifies(rt: Runtime, entries: seq<Entry>, n: nat, options: Options)
    requires Verified(rt, entries, options) && n <= |entries|
    ensures Verified(rt, entries[..n], options.(expectedHeadDigest := None))
  {
    VerifiedExact(rt, entries, options);
    PrefixWellChained(rt, entries, n, options);
    VerifiedExact(rt, entries[..n], options.(expectedHeadDigest := None));
  }

  lemma PrefixWellChained(rt: Runtime, entries: seq<Entry>, n: nat, options: Options)
    requires WellChained(rt, entries, options) && n <= |entries|
    ensures WellChained(rt, entries[..n], options.(expectedHeadDigest := None))
  {
    var front, back := entries[..n], entries[n..];
    assert entries == front + back;
    EntriesBytesConcat(rt, front, back);
    forall k: nat | k < n ensures InPlace(rt, front, options.(expectedHeadDigest := None), k) {
      assert InPlace(rt, entries, options, k);
    }
    forall j: nat, k: nat | j < k < n ensures Apart(front, j, k) {
      assert Apart(entries, j, k);
    }
  }

  ghost predicate NoCrossReplay(a: seq<Entry>, b: seq<Entry>) {
    forall i, j :: 0 <= i < |a| && 0 <= j < |b| ==> !Replays(a[i], b[j])
  }

  function HeadCheckpoint(entries: seq<Entry>): Checkpoint
    requires entries != []
  {
    Checkpoint(entries[|entries| - 1].base.sequence, entries[|entries| - 1].entryDigest)
  }

  /** A segment verified from a checkpoint at a verified chain's head continues that chain exactly
      when the two stay on one tenant and stream, repeat no event, and fit the size limits. */
  lemma ConcatenationVerifies(rt: Runtime, a: seq<Entry>, b: seq<Entry>, options: Options)
    requires a != [] && b != [] && options.expectedHeadDigest.None?
    requires Verified(rt, a, options)
    requires Verified(rt, b, options.(trustedCheckpoint := Some(HeadCheckpoint(a))))
    ensures Verified(rt, a + b, options) <==>
      && a[|a| - 1].base.tenantId == b[0].base.tenantId && a[|a| - 1].base.streamId == b[0].base.streamId
      && NoCrossReplay(a, b)
      && !TooLarge(rt, a + b, options.limits)
  {
    VerifiedExact(rt, a, options);
    VerifiedExact(rt, b, options.(trustedCheckpoint := Some(HeadCheckpoint(a))));
    VerifiedExact(rt, a + b, options);
    if a[|a| - 1].base.tenantId == b[0].base.tenantId && a[|a| - 1].base.streamId == b[0].base.streamId && NoCrossReplay(a, b) {
      ConcatenationLinks(rt, a, b, options);
    }
    if WellChained(rt, a + b, options) {
      ConcatenationSplits(rt, a, b, options);
    }
  }

  lemma ConcatenationSplits(rt: Runtime, a: seq<Entry>, b: seq<Entry>, options: Options)
    requires a != [] && b != [] && WellChained(rt, a + b, options)
    ensures a[|a| - 1].base.tenantId == b[0].base.tenantId && a[|a| - 1].base.streamId == b[0].base.streamId
    ensures NoCrossReplay(a, b)
  {
    var c := a + b;
    assert InPlace(rt, c, options, |a|);
    forall i: nat, j: nat | i < |a| && j < |b| ensures !Replays(a[i], b[j]) {
      assert Apart(c, i, |a| + j);
    }
  }

  lemma ConcatenationLinks(rt: Runtime, a: seq<Entry>, b: seq<Entry>, options: Options)
    requires a != [] && b != [] && WellChained(rt, a, options)
    requires WellChained(rt, b, options.(trustedCheckpoint := Some(HeadCheckpoint(a))))
    requires a[|a| - 1].base.tenantId == b[0].base.tenantId && a[|a| - 1].base.streamId == b[0].base.streamId
    requires NoCrossReplay(a, b)
    ensures forall k: nat :: k < |a + b| ==> InPlace(rt, a + b, options, k)
    ensures forall j: nat, k: nat :: j < k < |a + b| ==> Apart(a + b, j, k)
  {
    var c := a + b;
    forall k: nat | k < |c| ensures InPlace(rt, c, options, k) {
      if k < |a| {
        assert InPlace(rt, a, options, k);
      } else {
        assert InPlace(rt, b, options.(trustedCheckpoint := Some(HeadCheckpoint(a))), k - |a|);
      }
    }
    forall j: nat, k: nat | j < k < |c| ensures Apart(c, j, k) {
      if k < |a| {
        assert Apart(a, j, k);
      } else if j >= |a| {
        assert Apart(b, j - |a|, k - |a|);
      }
    }
  }

  datatype AppendError = InvalidChain(reasonCodes: seq<Reason>) | InvalidEvent | AuditReplay

  function AppendOptions(tenantId: Text, streamId: Text, startingCheckpoint: Option<Checkpoint>): Options {
    Options(Some(tenantId), Some(streamId), startingCheckpoint, None, DEFAULT_LIMITS)
  }

  function NextEntry(appendedAt: int, chain: seq<Entry>, streamId: Text, event: TrustEvent, tenantId: Text,
          startingCheckpoint: Option<Checkpoint>): Entry {
    var base :=
      if chain == [] then
        match startingCheckpoint
        case None => EntryBase(appendedAt, None, event, EventHash(event), None, 1, streamId, VERSION_ONE, tenantId)
        case Some(c) => EntryBase(appendedAt, Some(c), event, EventHash(event), Some(c.trustedDigest), c.trustedSequence + 1, streamId, VERSION_ONE, tenantId)
      else
        var previous := chain[|chain| - 1];
        EntryBase(appendedAt, None, event, EventHash(event), Some(previous.entryDigest), previous.base.sequence + 1, streamId, VERSION_ONE, tenantId);
    Entry(base, EntryHash(base), Audit(EntryHash(base)), None)
  }

  ghost predicate MayAppend(rt: Runtime, chain: seq<Entry>, streamId: Text, event: TrustEvent, tenantId: Text,
          startingCheckpoint: Option<Checkpoint>) {
    && Verified(rt, chain, AppendOptions(tenantId, streamId, startingCheckpoint))
    && rt.validEvent(event) && event.tenantId == tenantId && event.streamId == streamId
    && forall k :: 0 <= k < |chain| ==> chain[k].base.event.eventId != event.eventId
  }

  method AppendAuditChainEntry(rt: Runtime, appendedAt: int, chain: seq<Entry>, streamId: Text, event: TrustEvent,
          tenantId: Text, startingCheckpoint: Option<Checkpoint>)
    returns (r: Result<Entry, AppendError>)
    ensures r.Ok? <==> MayAppend(rt, chain, streamId, event, tenantId, startingCheckpoint)
    ensures r.Ok? ==> r.value == NextEntry(appendedAt, chain, streamId, event, tenantId, startingCheckpoint)
    ensures r.Ok? ==>
      var base := r.value.base;
      && base.event == event && base.eventDigest == EventHash(event)
      && base.appendedAt == appendedAt && base.tenantId == tenantId && base.streamId == streamId
      && base.structureVersion == VERSION_ONE && r.value.digestAlgorithm.None?
      && base.checkpoint == (if chain == [] then startingCheckpoint else None)
    ensures r.Err? ==> (r.error.InvalidChain? <==> !Verified(rt, chain, AppendOptions(tenantId, streamId, startingCheckpoint)))
    ensures r.Err? && r.error.InvalidChain? ==>
      forall reason :: reason in r.error.reasonCodes <==>
        Violates(rt, reason, chain, AppendOptions(tenantId, streamId, startingCheckpoint))
    ensures r.Err? && r.error.InvalidEvent? ==>
      !rt.validEvent(event) || event.tenantId != tenantId || event.streamId != streamId
    ensures r.Err? && r.error.AuditReplay? ==>
      && rt.validEvent(event) && event.tenantId == tenantId && event.streamId == streamId
      && exists k :: 0 <= k < |chain| && chain[k].base.event.eventId == event.eventId
  {
    var verification := VerifyAuditChain(rt, chain, AppendOptions(tenantId, streamId, startingCheckpoint));
    if !verification.valid {
      return Err(InvalidChain(verification.reasonCodes));
    }
    if !rt.validEvent(event) || event.tenantId != tenantId || event.streamId != streamId {
      return Err(InvalidEvent);
    }
    if exists k :: 0 <= k < |chain| && chain[k].base.event.eventId == event.eventId {
      return Err(AuditReplay);
    }
    var previous := if chain == [] then None else Some(chain[|chain| - 1]);
    var checkpoint := if previous.None? then startingCheckpoint else None;
    var sequence := 1 +
      if previous.Some? then previous.value.base.sequence
      else if checkpoint.Some? then checkpoint.value.trustedSequence else 0;
    var previousDigest :=
      if previous.Some? then Some(previous.value.entryDigest)
      else if checkpoint.Some? then Some(checkpoint.value.trustedDigest) else None;
    var base := EntryBase(appendedAt, checkpoint, event, EventHash(event), previousDigest, sequence, streamId, VERSION_ONE, tenantId);
    var digest := EntryHash(base);
    r := Ok(Entry(base, digest, Audit(digest), None));
  }

  function EventsOf(chain: seq<Entry>): (r: seq<TrustEvent>)
    ensures |r| == |chain|
    ensures forall k :: 0 <= k < |r| ==> r[k] == chain[k].base.event
  {
    seq(|chain|, k requires 0 <= k < |chain| => chain[k].base.event)
  }

  /** The chain after appending events one after the other, when every append succeeded. */
  ghost function AppendAll(rt: Runtime, chain: seq<Entry>, events: seq<(int, TrustEvent)>, streamId: Text, tenantId: Text,
          startingCheckpoint: Option<Checkpoint>): Option<seq<Entry>>
    decreases |events|
  {
    if events == [] then Some(chain)
    else
      match AppendAll(rt, chain, events[..|events| - 1], streamId, tenantId, startingCheckpoint)
      case None => None
      case Some(c) =>
        var (at, event) := events[|events| - 1];
        if MayAppend(rt, c, streamId, event, tenantId, startingCheckpoint)
        then Some(c + [NextEntry(at, c, streamId, event, tenantId, startingCheckpoint)]) else None
  }

  ghost predicate Records(e: Entry, at: int, event: TrustEvent, streamId: Text, tenantId: Text) {
    && e.base.event == event && e.base.appendedAt == at
    && e.base.tenantId == tenantId && e.base.streamId == streamId
  }

  lemma NextEntryRecords(at: int, chain: seq<Entry>, streamId: Text, event: TrustEvent, tenantId: Text,
          startingCheckpoint: Option<Checkpoint>)
    ensures Records(NextEntry(at, chain, streamId, event, tenantId, startingCheckpoint), at, event, streamId, tenantId)
  {
  }

  /** The chain with an entry for each event behind it. */
  ghost predicate Recorded(chain: seq<Entry>, c: seq<Entry>, events: seq<(int, TrustEvent)>, streamId: Text, tenantId: Text) {
    && |c| == |chain| + |events| && chain <= c
    && forall k :: 0 <= k < |events| ==> Records(c[|chain| + k], events[k].0, events[k].1, streamId, tenantId)
  }

  lemma RecordedOneMore(chain: seq<Entry>, c: seq<Entry>, e: Entry, events: seq<(int, TrustEvent)>, streamId: Text, tenantId: Text)
    requires events != [] && Recorded(chain, c, events[..|events| - 1], streamId, tenantId)
    requires Records(e, events[|events| - 1].0, events[|events| - 1].1, streamId, tenantId)
    ensures Recorded(chain, c + [e], events, streamId, tenantId)
  {
    hide Records;
    forall k | 0 <= k < |events|
      ensures Records((c + [e])[|chain| + k], events[k].0, events[k].1, streamId, tenantId)
    {
      if k < |events| - 1 {
        assert events[..|events| - 1][k] == events[k];
      }
    }
  }

  /** Appending records exactly the events handed in, in order, behind a chain that is left as it was. */
  lemma {:induction false} AppendAllRecorded(rt: Runtime, chain: seq<Entry>, events: seq<(int, TrustEvent)>,
          streamId: Text, tenantId: Text, startingCheckpoint: Option<Checkpoint>)
    requires AppendAll(rt, chain, events, streamId, tenantId, startingCheckpoint).Some?
    ensures Recorded(chain, AppendAll(rt, chain, events, streamId, tenantId, startingCheckpoint).value, events, streamId, tenantId)
    decreases |events|
  {
    hide MayAppend, NextEntry;
    if events != [] {
      hide Recorded, Records;
      var (at, event) := events[|events| - 1];
      var c := AppendAll(rt, chain, events[..|events| - 1], streamId, tenantId, startingCheckpoint).value;
      AppendAllRecorded(rt, chain, events[..|events| - 1], streamId, tenantId, startingCheckpoint);
      NextEntryRecords(at, c, streamId, event, tenantId, startingCheckpoint);
      RecordedOneMore(chain, c, NextEntry(at, c, streamId, event, tenantId, startingCheckpoint), events, streamId, tenantId);
    }
  }

  /** The events of the extended chain are the old ones followed by exactly the appended ones. */
  lemma AppendAllRecordsEvents(rt: Runtime, chain: seq<Entry>, events: seq<(int, TrustEvent)>,
          streamId: Text, tenantId: Text, startingCheckpoint: Option<Checkpoint>)
    requires AppendAll(rt, chain, events, streamId, tenantId, startingCheckpoint).Some?
    ensures var c := AppendAll(rt, chain, events, streamId, tenantId, startingCheckpoint).value;
      && Recorded(chain, c, events, streamId, tenantId)
      && EventsOf(c) == EventsOf(chain) + seq(|events|, k requires 0 <= k < |events| => events[k].1)
  {
    hide AppendAll;
    AppendAllRecorded(rt, chain, events, streamId, tenantId, startingCheckpoint);
    var c := AppendAll(rt, chain, events, streamId, tenantId, startingCheckpoint).value;
    forall k | 0 <= k < |c|
      ensures EventsOf(c)[k] == (EventsOf(chain) + seq(|events|, k requires 0 <= k < |events| => events[k].1))[k]
    {
      assert k >= |chain| ==> Records(c[|chain| + (k - |chain|)], events[k - |chain|].0, events[k - |chain|].1, streamId, tenantId);
    }
  }

  /** The array text of a chain, given the text of each entry. */
  function ArrayText(text: Entry -> Text, entries: seq<Entry>): Text {
    [0x5B] + ElementsText(text, entries) + [0x5D]
  }

  function ElementsText(text: Entry -> Text, entries: seq<Entry>): Text
    decreases |entries|
  {
    if entries == [] then []
    else if |entries| == 1 then text(entries[0])
    else ElementsText(text, entries[..|entries| - 1]) + [0x2C] + text(entries[|entries| - 1])
  }

  /** The size that is checked is the size of that text. */
  lemma {:induction false} ChainBytesIsTextSize(rt: Runtime, text: Entry -> Text, entries: seq<Entry>)
    requires forall e :: |text(e)| == rt.entryBytes(e)
    ensures |ArrayText(text, entries)| == ChainBytes(rt, entries)
    decreases |entries|
  {
    if |entries| == 1 {
      assert entries[..0] == [];
    } else if |entries| > 1 {
      ChainBytesIsTextSize(rt, text, entries[..|entries| - 1]);
    }
  }

  /** Appending keeps verification exactly when what `appendAuditChainEntry` leaves unchecked also
      holds: the idempotency key is new and the extended chain stays within the size limits. */
  lemma AppendKeepsVerification(rt: Runtime, appendedAt: int, chain: seq<Entry>, streamId: Text, event: TrustEvent,
          tenantId: Text, startingCheckpoint: Option<Checkpoint>)
    requires MayAppend(rt, chain, streamId, event, tenantId, startingCheckpoint)
    ensures var e := NextEntry(appendedAt, chain, streamId, event, tenantId, startingCheckpoint);
      Verified(rt, chain + [e], AppendOptions(tenantId, streamId, startingCheckpoint)) <==>
        && (forall k :: 0 <= k < |chain| ==> chain[k].base.event.idempotencyKey != event.idempotencyKey)
        && rt.entryBytes(e) <= DEFAULT_LIMITS.maxEntryBytes
        && !TooLarge(rt, chain + [e], DEFAULT_LIMITS)
  {
    var options := AppendOptions(tenantId, streamId, startingCheckpoint);
    var e := NextEntry(appendedAt, chain, streamId, event, tenantId, startingCheckpoint);
    VerifiedExact(rt, chain, options);
    VerifiedExact(rt, chain + [e], options);
    forall k: nat | k < |chain|
      ensures Replays(chain[k], e) <==> chain[k].base.event.idempotencyKey == event.idempotencyKey
    {
      assert InPlace(rt, chain, options, k);
    }
    AppendWellChained(rt, chain, e, options);
  }

  lemma AppendWellChained(rt: Runtime, chain: seq<Entry>, e: Entry, options: Options)
    requires WellChained(rt, chain, options) && SoundEntry(rt, e, options.(limits := options.limits.(maxEntryBytes := rt.entryBytes(e))))
    requires options.expectedTenantId.Some? && options.expectedStreamId.Some? && options.expectedHeadDigest.None?
    requires if chain == [] then Starts(e, options.trustedCheckpoint) else Follows(chain[|chain| - 1], e)
    ensures WellChained(rt, chain + [e], options) <==>
      && (forall k: nat :: k < |chain| ==> !Replays(chain[k], e))
      && rt.entryBytes(e) <= options.limits.maxEntryBytes
      && !TooLarge(rt, chain + [e], options.limits)
  {
    var c := chain + [e];
    var n := |chain|;
    if n > 0 {
      assert InPlace(rt, chain, options, n - 1);
    }
    assert InPlace(rt, c, options, n) <==> rt.entryBytes(e) <= options.limits.maxEntryBytes;
    forall k: nat | k < n ensures InPlace(rt, c, options, k) {
      assert InPlace(rt, chain, options, k);
    }
    forall j: nat, k: nat | j < k < n ensures Apart(c, j, k) {
      assert Apart(chain, j, k);
    }
    assert forall k: nat :: k < n ==> (Apart(c, k, n) <==> !Replays(chain[k], e));
  }

  /** A first entry is a chain that verifies. */
  lemma FirstAppendVerifies(rt: Runtime, event: TrustEvent)
    requires rt.validEvent(event)
    requires forall e :: rt.entryBytes(e) <= 16_384
    ensures MayAppend(rt, [], event.streamId, event, event.tenantId, None)
    ensures var e := NextEntry(0, [], event.streamId, event, event.tenantId, None);
      Verified(rt, [e], AppendOptions(event.tenantId, event.streamId, None))
  {
    var options := AppendOptions(event.tenantId, event.streamId, None);
    var e := NextEntry(0, [], event.streamId, event, event.tenantId, None);
    VerifiedExact(rt, [], options);
    hide Verified, NextEntry;
    AppendKeepsVerification(rt, 0, [], event.streamId, event, event.tenantId, None);
    assert [] + [e] == [e];
    assert EntriesBytes(rt, [e]) == rt.entryBytes(e) by {
      assert [e][..0] == [];
    }
  }

  /** The gap is real: a second event that reuses an idempotency key under a new event id is
      appended, and the chain it yields no longer verifies. */
  lemma AppendAcceptsReusedKey(rt: Runtime, first: TrustEvent, second: TrustEvent)
    requires rt.validEvent(first) && rt.validEvent(second)
    requires first.tenantId == second.tenantId && first.streamId == second.streamId
    requires first.eventId != second.eventId && first.idempotencyKey == second.idempotencyKey
    requires forall e :: rt.entryBytes(e) <= 16_384
    ensures var chain := [NextEntry(0, [], first.streamId, first, first.tenantId, None)];
      var e := NextEntry(0, chain, first.streamId, second, first.tenantId, None);
      && MayAppend(rt, chain, first.streamId, second, first.tenantId, None)
      && !Verified(rt, chain + [e], AppendOptions(first.tenantId, first.streamId, None))
  {
    var options := AppendOptions(first.tenantId, first.streamId, None);
    var e0 := NextEntry(0, [], first.streamId, first, first.tenantId, None);
    var chain := [e0];
    assert e0.base.event == first;
    FirstAppendVerifies(rt, first);
    hide Verified, NextEntry;
    AppendKeepsVerification(rt, 0, chain, first.streamId, second, first.tenantId, None);
  }
}
