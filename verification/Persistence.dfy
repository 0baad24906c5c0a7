/** Persisting publish results: settings-persistence-service.ts and settings-persistence.ts of
    packages/settings over the tables of migration 0014, and their agreement with publishing. */
module Persistence {
  import opened Wrappers
  import opened Publish

  datatype DbError = Unavailable | Violation | Conflict

  /** Card to owning tenant, from executive_card_profiles. */
  type Cards = map<string, string>

  datatype RecordKey = RecordKey(key: Key, operation: string, idempotencyKey: string)

  datatype Record = Record(requestHash: string, resultId: Option<Id>, resultHash: Option<string>)

  predicate Owned(cards: Cards, key: Key) {
    key.card in cards && cards[key.card] == key.tenant
  }

  // ---------------------------------------------------------------- the table's constraints

  /** The unique index on published rows. */
  predicate OneLiveRow(rows: Table) {
    forall id, other ::
      (id in rows && other in rows && IsPublishedOf(rows[id], rows[other].key) && rows[other].status == Published)
      ==> id == other
  }

  predicate LinksResolve(rows: Table) {
    forall id :: id in rows && rows[id].previous.Some? ==> rows[id].previous.value in rows
  }

  /** Primary key, tenant trigger, foreign key and unique index of card_settings_versions. */
  predicate Lawful(rows: Table, cards: Cards) {
    && (forall id :: id in rows ==> rows[id].id == id && Owned(cards, rows[id].key))
    && LinksResolve(rows) && OneLiveRow(rows)
  }

  // ---------------------------------------------------------------- single statements

  function ArchivedRow(row: Version): Version {
    row.(status := Archived, immutable := true)
  }

  /** `archiveCardSettingsVersion`: a conditional update of exactly the published row. */
  function ArchiveRow(rows: Table, v: Version): Result<Table, DbError> {
    if v.id in rows && rows[v.id].key == v.key && rows[v.id].status == Published && rows[v.id].hash == v.hash
    then Ok(rows[v.id := ArchivedRow(rows[v.id])])
    else Err(Conflict)
  }

  /** `saveCardSettingsVersion`: insert unless the identifier exists; an existing row must agree. */
  function SaveRow(rows: Table, cards: Cards, v: Version): Result<Table, DbError> {
    if !Owned(cards, v.key) then Err(Violation)
    else if v.id in rows then
      if rows[v.id].key == v.key && rows[v.id].hash == v.hash && rows[v.id].status == v.status
      then Ok(rows) else Err(Conflict)
    else if v.status == Published && (exists id :: id in rows && IsPublishedOf(rows[id], v.key)) then Err(Violation)
    else if v.previous.Some? && v.previous.value !in rows && v.previous.value != v.id then Err(Violation)
    else Ok(rows[v.id := v])
  }

  lemma ArchiveRowLawful(rows: Table, cards: Cards, v: Version)
    requires Lawful(rows, cards) && ArchiveRow(rows, v).Ok?
    ensures Lawful(ArchiveRow(rows, v).value, cards) && Keeps(rows, ArchiveRow(rows, v).value)
  {
  }

  lemma SaveRowLawful(rows: Table, cards: Cards, v: Version)
    requires Lawful(rows, cards) && SaveRow(rows, cards, v).Ok?
    ensures Lawful(SaveRow(rows, cards, v).value, cards) && Keeps(rows, SaveRow(rows, cards, v).value)
  {
    var after := SaveRow(rows, cards, v).value;
    if v.id !in rows {
      hide Lawful, SaveRow;
      InsertedRow(rows, cards, v);
      InsertKeepsIndex(rows, v);
      InsertKeepsLinks(rows, v);
      InsertKeepsRows(rows, cards, v);
    }
  }

  lemma InsertedRow(rows: Table, cards: Cards, v: Version)
    requires v.id !in rows && SaveRow(rows, cards, v).Ok? && Lawful(rows, cards)
    ensures SaveRow(rows, cards, v).value == rows[v.id := v] && Owned(cards, v.key) && LinksResolve(rows) && OneLiveRow(rows)
    ensures v.status == Published ==> forall id :: id in rows ==> !IsPublishedOf(rows[id], v.key)
    ensures v.previous.Some? ==> v.previous.value in rows || v.previous.value == v.id
  {
  }

  lemma InsertKeepsIndex(rows: Table, v: Version)
    requires v.id !in rows && OneLiveRow(rows)
    requires v.status == Published ==> forall id :: id in rows ==> !IsPublishedOf(rows[id], v.key)
    ensures OneLiveRow(rows[v.id := v])
  {
  }

  lemma InsertKeepsLinks(rows: Table, v: Version)
    requires v.id !in rows && LinksResolve(rows)
    requires v.previous.Some? ==> v.previous.value in rows || v.previous.value == v.id
    ensures LinksResolve(rows[v.id := v])
  {
  }

  lemma InsertKeepsRows(rows: Table, cards: Cards, v: Version)
    requires v.id !in rows && Lawful(rows, cards) && Owned(cards, v.key)
    requires OneLiveRow(rows[v.id := v]) && LinksResolve(rows[v.id := v])
    ensures Lawful(rows[v.id := v], cards) && Keeps(rows, rows[v.id := v])
  {
  }

  lemma KeepsReflexive(rows: Table)
    ensures Keeps(rows, rows)
  {
  }

  /** A row of a new identifier is inserted exactly when the table with it meets every constraint; for a known
      identifier the call succeeds exactly when key, hash and status agree, and changes nothing. */
  lemma SaveRowExact(rows: Table, cards: Cards, v: Version)
    requires Lawful(rows, cards)
    ensures v.id !in rows ==> (SaveRow(rows, cards, v) == Ok(rows[v.id := v]) <==> Lawful(rows[v.id := v], cards))
    ensures v.id !in rows && SaveRow(rows, cards, v).Err? ==> SaveRow(rows, cards, v) == Err(Violation)
    ensures v.id in rows ==>
              (SaveRow(rows, cards, v).Ok? <==> rows[v.id].key == v.key && rows[v.id].hash == v.hash && rows[v.id].status == v.status)
              && (SaveRow(rows, cards, v).Ok? ==> SaveRow(rows, cards, v).value == rows)
    ensures v.id in rows && SaveRow(rows, cards, v).Err? ==>
              SaveRow(rows, cards, v) == Err(if Owned(cards, v.key) then Conflict else Violation)
  {
    if v.id !in rows {
      if Lawful(rows[v.id := v], cards) {
        LawfulInsertAccepted(rows, cards, v);
      }
      if SaveRow(rows, cards, v).Ok? {
        SaveRowLawful(rows, cards, v);
      }
    }
  }

  lemma LawfulInsertAccepted(rows: Table, cards: Cards, v: Version)
    requires v.id !in rows && Lawful(rows[v.id := v], cards)
    ensures SaveRow(rows, cards, v) == Ok(rows[v.id := v])
  {
    var after := rows[v.id := v];
    assert after[v.id] == v;
    assert forall id :: id in rows ==> after[id] == rows[id];
    hide LinksResolve;
    assert LinksResolve(after) by {}
    LinkOf(after, v.id);
    if v.status == Published {
      forall id | id in rows
        ensures !IsPublishedOf(rows[id], v.key)
      {
        OneLiveOf(after, id, v.id);
      }
    }
  }

  lemma LinkOf(rows: Table, id: Id)
    requires LinksResolve(rows) && id in rows
    ensures rows[id].previous.Some? ==> rows[id].previous.value in rows
  {
  }

  lemma OneLiveOf(rows: Table, id: Id, other: Id)
    requires OneLiveRow(rows) && id in rows && other in rows && id != other && rows[other].status == Published
    ensures !IsPublishedOf(rows[id], rows[other].key)
  {
  }

  /** An archive succeeds exactly when the row is the live one with that hash; it changes status and
      immutability of that row, and nothing else. */
  lemma ArchiveRowExact(rows: Table, v: Version)
    ensures ArchiveRow(rows, v).Ok? <==> v.id in rows && IsPublishedOf(rows[v.id], v.key) && rows[v.id].hash == v.hash
    ensures ArchiveRow(rows, v).Err? ==> ArchiveRow(rows, v) == Err(Conflict)
    ensures ArchiveRow(rows, v).Ok? ==>
              var after := ArchiveRow(rows, v).value;
              && after.Keys == rows.Keys && (forall id :: id in rows && id != v.id ==> after[id] == rows[id])
              && after[v.id].status == Archived && after[v.id].immutable
              && after[v.id] == rows[v.id].(status := after[v.id].status, immutable := after[v.id].immutable)
  {
  }

  // ---------------------------------------------------------------- the whole write sequence

  /** The versions in order, without the archived one. */
  function SaveRows(rows: Table, cards: Cards, versions: seq<Version>, skip: Option<Id>): Result<Table, DbError>
    decreases |versions|
  {
    if versions == [] then Ok(rows)
    else if skip == Some(versions[0].id) then SaveRows(rows, cards, versions[1..], skip)
    else
      match SaveRow(rows, cards, versions[0])
      case Err(e) => Err(e)
      case Ok(next) => SaveRows(next, cards, versions[1..], skip)
  }

  function Target(outcome: Outcome): Option<Version> {
    if outcome.published.Some? then outcome.published
    else if outcome.versions != [] then Some(outcome.versions[0]) else None
  }

  function ArchivedId(outcome: Outcome): Option<Id> {
    if outcome.archived.Some? then Some(outcome.archived.value.id) else None
  }

  /** Lock, archive, save: the table after `persistSettingsPublishResult`, when no statement is lost. */
  function PersistRows(rows: Table, cards: Cards, outcome: Outcome): Result<Table, DbError> {
    if Target(outcome).Some? && !Owned(cards, Target(outcome).value.key) then Err(Conflict)
    else
      match if outcome.archived.Some? then ArchiveRow(rows, outcome.archived.value) else Ok(rows)
      case Err(e) => Err(e)
      case Ok(archived) => SaveRows(archived, cards, outcome.versions, ArchivedId(outcome))
  }

  /** Identifiers in the order they are written. */
  function PersistedIds(versions: seq<Version>, skip: Option<Id>): seq<Id>
    decreases |versions|
  {
    if versions == [] then []
    else (if skip == Some(versions[0].id) then [] else [versions[0].id]) + PersistedIds(versions[1..], skip)
  }

  // ---------------------------------------------------------------- idempotent persisting

  type Records = map<RecordKey, Record>

  datatype Reply = Reply(record: Record, ids: seq<Id>, reused: bool)

  function RecordKeyOf(key: Key, idempotencyKey: string): RecordKey {
    RecordKey(key, "settings.publish", idempotencyKey)
  }

  function RecordOf(outcome: Outcome, requestHash: string): Record {
    match outcome.published
    case None => Record(requestHash, None, None)
    case Some(v) => Record(requestHash, Some(v.id), Some(v.hash))
  }

  function WrittenIds(outcome: Outcome): seq<Id> {
    (if outcome.archived.Some? then [outcome.archived.value.id] else [])
    + PersistedIds(outcome.versions, ArchivedId(outcome))
  }

  /** `saveSettingsIdempotencyRecord`: an existing record of the same request is kept and returned. */
  function SaveRecordIn(rows: Table, records: Records, cards: Cards, k: RecordKey,
          record: Record): Result<Records, DbError> {
    if !Owned(cards, k.key) then Err(Violation)
    else if k in records then if records[k].requestHash == record.requestHash then Ok(records) else Err(Conflict)
    else if record.resultId.Some? && record.resultId.value !in rows then Err(Violation)
    else Ok(records[k := record])
  }

  /** The effect of `persistIdempotentSettingsPublishResult` when no statement is lost. */
  function PersistOnce(rows: Table, records: Records, cards: Cards, outcome: Outcome, idempotencyKey: string,
          requestHash: string)
    : Result<(Table, Records, Reply), DbError>
  {
    if Target(outcome).None? then Err(Conflict)
    else
      var k := RecordKeyOf(Target(outcome).value.key, idempotencyKey);
      if k in records then
        if records[k].requestHash != requestHash then Err(Conflict)
        else
          var ids := if records[k].resultId.Some? then [records[k].resultId.value] else [];
          Ok((rows, records, Reply(records[k], ids, true)))
      else
        match PersistRows(rows, cards, outcome)
        case Err(e) => Err(e)
        case Ok(next) =>
          match SaveRecordIn(next, records, cards, k, RecordOf(outcome, requestHash))
          case Err(e) => Err(e)
          case Ok(saved) => Ok((next, saved, Reply(saved[k], WrittenIds(outcome), false)))
  }

  /** After a success, the same key with the same request changes nothing and answers with the first
      result, whatever result it brings; with another request it is refused. */
  lemma ReplayChangesNothing(rows: Table, records: Records, cards: Cards, outcome: Outcome, idempotencyKey: string,
                             requestHash: string, again: Outcome, otherHash: string)
    requires PersistOnce(rows, records, cards, outcome, idempotencyKey, requestHash).Ok?
    requires Target(again).Some? && Target(again).value.key == Target(outcome).value.key
    ensures var first := PersistOnce(rows, records, cards, outcome, idempotencyKey, requestHash).value;
      PersistOnce(first.0, first.1, cards, again, idempotencyKey, otherHash)
      == if otherHash != requestHash then Err(Conflict)
         else Ok((first.0, first.1, Reply(first.2.record, if first.2.record.resultId.Some?
                                                           then [first.2.record.resultId.value] else [], true)))
  {
    hide PersistRows, WrittenIds;
  }

  /** A first call writes a record of this request and of the version it published, under its own key alone. */
  lemma FirstCallRecords(rows: Table, records: Records, cards: Cards, outcome: Outcome, idempotencyKey: string,
                         requestHash: string, other: RecordKey)
    requires PersistOnce(rows, records, cards, outcome, idempotencyKey, requestHash).Ok?
    requires Target(outcome).Some?
    ensures var (after, saved, reply) := PersistOnce(rows, records, cards, outcome, idempotencyKey, requestHash).value;
      var k := RecordKey(Target(outcome).value.key, "settings.publish", idempotencyKey);
      && (reply.reused <==> k in records)
      && k in saved && saved[k] == reply.record && reply.record.requestHash == requestHash
      && (other != k ==> (other in saved <==> other in records) && (other in records ==> saved[other] == records[other]))
      && (!reply.reused ==>
          && Ok(after) == PersistRows(rows, cards, outcome)
          && reply.record.resultId == (if outcome.published.Some? then Some(outcome.published.value.id) else None)
          && reply.record.resultHash == (if outcome.published.Some? then Some(outcome.published.value.hash) else None))
  {
    hide PersistRows, WrittenIds;
  }

  /** The identifiers reported as written are the archived one first, then those of the other versions in order. */
  lemma {:induction false} PersistedIdsExact(versions: seq<Version>, skip: Option<Id>, id: Id)
    ensures id in PersistedIds(versions, skip) <==> skip != Some(id) && exists v :: v in versions && v.id == id
    ensures |PersistedIds(versions, skip)| <= |versions|
    decreases |versions|
  {
    if versions != [] {
      assert versions == [versions[0]] + versions[1..];
      PersistedIdsExact(versions[1..], skip, id);
      if id == versions[0].id {
        assert versions[0] in versions;
      }
    }
  }

  // ---------------------------------------------------------------- the store

  /** One database connection. `answers` statements are still answered; the next one fails. Inside a
      transaction `saved` holds what a rollback restores, which is all that other connections see. */
  class SettingsStore {
    const cards: Cards
    var rows: Table
    var records: Records
    var saved: Option<(Table, Records)>
    var answers: nat

    /** What is durable. */
    ghost function Committed(): (Table, Records)
      reads this
    {
      if saved.Some? then saved.value else (rows, records)
    }

    ghost predicate Valid()
      reads this
    {
      Lawful(rows, cards) && Lawful(Committed().0, cards)
    }

    constructor (cards: Cards, answers: nat)
      ensures Valid() && rows == map[] && records == map[] && saved.None?
      ensures this.cards == cards && this.answers == answers
    {
      this.cards := cards;
      this.answers := answers;
      rows, records, saved := map[], map[], None;
    }

    /** One statement reaches the server, or the connection is gone. */
    method Query() returns (answered: bool)
      modifies `answers
      ensures answered <==> old(answers) > 0
      ensures answers == if answered then old(answers) - 1 else 0
    {
      answered := answers > 0;
      if answered {
        answers := answers - 1;
      }
    }

    method LockCard(key: Key) returns (r: Result<bool, DbError>)
      modifies `answers
      ensures r == if old(answers) > 0 then Ok(Owned(cards, key)) else Err(Unavailable)
      ensures r.Err? ==> answers == 0
    {
      var answered := Query();
      r := if answered then Ok(Owned(cards, key)) else Err(Unavailable);
    }

    method ArchiveVersion(v: Version) returns (r: Result<Version, DbError>)
      requires Valid()
      modifies `rows, `answers
      ensures Valid()
      ensures r.Ok? ==> ArchiveRow(old(rows), v) == Ok(rows) && v.id in rows && r.value == rows[v.id]
      ensures r.Err? ==> rows == old(rows) && (r.error == Unavailable || ArchiveRow(rows, v) == Err(r.error))
      ensures r == Err(Unavailable) ==> answers == 0
    {
      var answered := Query();
      if !answered {
        return Err(Unavailable);
      }
      if v.id in rows && rows[v.id].key == v.key && rows[v.id].status == Published && rows[v.id].hash == v.hash {
        ArchiveRowLawful(rows, cards, v);
        rows := rows[v.id := rows[v.id].(status := Archived, immutable := true)];
        r := Ok(rows[v.id]);
      } else {
        r := Err(Conflict);
      }
    }

    /** The insert statement alone: Some row when one was inserted. */
    method InsertVersion(v: Version) returns (r: Result<bool, DbError>)
      requires Valid()
      modifies `rows, `answers
      ensures Valid()
      ensures r.Ok? && r.value ==> v.id !in old(rows) && SaveRow(old(rows), cards, v) == Ok(rows)
      ensures r.Ok? && !r.value ==> v.id in rows && rows == old(rows) && Owned(cards, v.key)
      ensures r.Err? ==> rows == old(rows) && (r.error == Unavailable || SaveRow(rows, cards, v) == Err(r.error))
      ensures r == Err(Unavailable) ==> answers == 0
    {
      var answered := Query();
      if !answered {
        return Err(Unavailable);
      }
      if !Owned(cards, v.key) {
        r := Err(Violation);
      } else if v.id in rows {
        r := Ok(false);
      } else if (v.status == Published && (exists id :: id in rows && IsPublishedOf(rows[id], v.key)))
                || (v.previous.Some? && v.previous.value !in rows && v.previous.value != v.id) {
        r := Err(Violation);
      } else {
        SaveRowLawful(rows, cards, v);
        rows := rows[v.id := v];
        r := Ok(true);
      }
    }

    /** `saveCardSettingsVersion`. */
    method SaveVersion(v: Version) returns (r: Result<Version, DbError>)
      requires Valid()
      modifies `rows, `answers
      ensures Valid()
      ensures r.Ok? ==> SaveRow(old(rows), cards, v) == Ok(rows) && v.id in rows && r.value == rows[v.id]
      ensures r.Err? ==> rows == old(rows) && (r.error == Unavailable || SaveRow(rows, cards, v) == Err(r.error))
      ensures r == Err(Unavailable) ==> answers == 0
    {
      var inserted := InsertVersion(v);
      if inserted.Err? {
        return Err(inserted.error);
      }
      if inserted.value {
        return Ok(rows[v.id]);
      }
      var answered := Query();
      if !answered {
        return Err(Unavailable);
      }
      if rows[v.id].key == v.key && rows[v.id].hash == v.hash && rows[v.id].status == v.status {
        r := Ok(rows[v.id]);
      } else {
        r := Err(Conflict);
      }
    }

    /** `persistSettingsPublishResult`. On an error the writes before it stay; see the transaction. */
    method PersistPublishResult(outcome: Outcome) returns (r: Result<seq<Id>, DbError>)
      requires Valid()
      modifies `rows, `answers
      ensures Valid()
      ensures r.Ok? ==> PersistRows(old(rows), cards, outcome) == Ok(rows)
      ensures r.Ok? ==> r.value == WrittenIds(outcome)
      ensures r.Err? ==> r.error == Unavailable || PersistRows(old(rows), cards, outcome) == Err(r.error)
      ensures r == Err(Unavailable) ==> answers == 0
      ensures Target(outcome).Some? && !Owned(cards, Target(outcome).value.key) ==> r.Err? && rows == old(rows)
      ensures Keeps(old(rows), rows)
    {
      hide Lawful, Keeps, ArchiveRow, SaveRows, PersistedIds;
      var ids: seq<Id> := [];
      KeepsReflexive(rows);
      if Target(outcome).Some? {
        var locked := LockCard(Target(outcome).value.key);
        if locked.Err? {
          return Err(locked.error);
        }
        if !locked.value {
          return Err(Conflict);
        }
      }
      if outcome.archived.Some? {
        ghost var before := rows;
        var archived := ArchiveVersion(outcome.archived.value);
        if archived.Err? {
          return Err(archived.error);
        }
        ArchiveRowLawful(before, cards, outcome.archived.value);
        ids := ids + [outcome.archived.value.id];
      }
      ghost var middle := rows;
      r := SaveVersions(outcome.versions, ArchivedId(outcome), ids);
      KeepsTransitive(old(rows), middle, rows);
    }

    method SaveVersions(versions: seq<Version>, skip: Option<Id>, front: seq<Id>) returns (r: Result<seq<Id>, DbError>)
      requires Valid()
      modifies `rows, `answers
      ensures Valid()
      ensures r.Ok? ==> SaveRows(old(rows), cards, versions, skip) == Ok(rows)
      ensures r.Ok? ==> r.value == front + PersistedIds(versions, skip)
      ensures r.Err? ==> r.error == Unavailable || SaveRows(old(rows), cards, versions, skip) == Err(r.error)
      ensures r == Err(Unavailable) ==> answers == 0
      ensures Keeps(old(rows), rows)
    {
      var ids, i := front, 0;
      while i < |versions|
        invariant 0 <= i <= |versions| && Valid() && Keeps(old(rows), rows)
        invariant SaveRows(rows, cards, versions[i..], skip) == SaveRows(old(rows), cards, versions, skip)
        invariant ids + PersistedIds(versions[i..], skip) == front + PersistedIds(versions, skip)
      {
        var v := versions[i];
        assert versions[i..][1..] == versions[i + 1..];
        if skip != Some(v.id) {
          ghost var before := rows;
          var written := SaveVersion(v);
          if written.Err? {
            return Err(written.error);
          }
          SaveRowLawful(before, cards, v);
          KeepsTransitive(old(rows), before, rows);
          ids := ids + [v.id];
        }
        i := i + 1;
      }
      r := Ok(ids);
    }

    /** `persistSettingsPublishResultTransactionally` without the trust extension: all or nothing,
        wherever the connection fails. */
    method PersistTransactionally(outcome: Outcome) returns (r: Result<seq<Id>, DbError>)
      requires Valid() && saved.None?
      modifies this
      ensures Valid()
      ensures r.Ok? ==> PersistRows(old(rows), cards, outcome) == Ok(Committed().0)
      ensures r.Err? ==> Committed() == old(Committed())
      ensures r.Err? ==> r.error == Unavailable || PersistRows(old(rows), cards, outcome) == Err(r.error)
      ensures r != Err(Unavailable) ==> saved.None?
      ensures records == old(records)
    {
      var begun := Query();
      if !begun {
        return Err(Unavailable);
      }
      saved := Some((rows, records));
      r := PersistPublishResult(outcome);
      if r.Ok? {
        var committed := Query();
        if committed {
          saved := None;
          return;
        }
        r := Err(Unavailable);
      }
      var rolledBack := Query();
      if rolledBack {
        rows, records := saved.value.0, saved.value.1;
        saved := None;
      } else {
        r := Err(Unavailable);
      }
    }

    method GetRecord(k: RecordKey) returns (r: Result<Option<Record>, DbError>)
      modifies `answers
      ensures r == if old(answers) > 0 then Ok(if k in records then Some(records[k]) else None) else Err(Unavailable)
      ensures r.Err? ==> answers == 0
    {
      var answered := Query();
      r := if answered then Ok(if k in records then Some(records[k]) else None) else Err(Unavailable);
    }

    method SaveRecord(k: RecordKey, record: Record) returns (r: Result<Record, DbError>)
      modifies `records, `answers
      ensures r.Ok? ==> SaveRecordIn(rows, old(records), cards, k, record) == Ok(records) && k in records && r.value == records[k]
      ensures r.Err? ==> records == old(records)
      ensures r.Err? ==> r.error == Unavailable || SaveRecordIn(rows, old(records), cards, k, record) == Err(r.error)
      ensures r == Err(Unavailable) ==> answers == 0
    {
      var answered := Query();
      if !answered {
        return Err(Unavailable);
      }
      if !Owned(cards, k.key) {
        return Err(Violation);
      }
      if k in records {
        return if records[k].requestHash == record.requestHash then Ok(records[k]) else Err(Conflict);
      }
      if record.resultId.Some? && record.resultId.value !in rows {
        return Err(Violation);
      }
      records := records[k := record];
      r := Ok(record);
    }

    /** `persistIdempotentSettingsPublishResult`. */
    method PersistIdempotent(outcome: Outcome, idempotencyKey: string, requestHash: string)
      returns (r: Result<Reply, DbError>)
      requires Valid()
      modifies `rows, `records, `answers
      ensures Valid()
      ensures r.Ok? ==> PersistOnce(old(rows), old(records), cards, outcome, idempotencyKey, requestHash)
                        == Ok((rows, records, r.value))
      ensures r.Err? ==> records == old(records)
      ensures r.Err? ==> r.error == Unavailable
                         || PersistOnce(old(rows), old(records), cards, outcome, idempotencyKey, requestHash) == Err(r.error)
      ensures Keeps(old(rows), rows)
    {
      hide Lawful, Keeps, PersistRows, SaveRecordIn, WrittenIds, LinksResolve, OneLiveRow;
      KeepsReflexive(rows);
      if Target(outcome).None? {
        return Err(Conflict);
      }
      var k := RecordKeyOf(Target(outcome).value.key, idempotencyKey);
      var existing := GetRecord(k);
      if existing.Err? {
        return Err(existing.error);
      }
      if existing.value.Some? {
        var found := existing.value.value;
        if found.requestHash != requestHash {
          return Err(Conflict);
        }
        return Ok(Reply(found, if found.resultId.Some? then [found.resultId.value] else [], true));
      }
      var ids := PersistPublishResult(outcome);
      if ids.Err? {
        return Err(ids.error);
      }
      var record := SaveRecord(k, RecordOf(outcome, requestHash));
      if record.Err? {
        return Err(record.error);
      }
      r := Ok(Reply(record.value, ids.value, false));
    }
  }

  // ---------------------------------------------------------------- agreement with publishing

  /** What table and memory are compared on: an archive rewrites the author and date in memory only. */
  predicate SameRow(row: Version, v: Version) {
    row.id == v.id && row.status == v.status && row.immutable == v.immutable && SameSettings(row, v)
  }

  /** Every version is a row, and the rows of the given card are all versions. */
  predicate Mirrors(rows: Table, versions: seq<Version>, key: Key) {
    && (forall v :: v in versions ==> v.id in rows && SameRow(rows[v.id], v))
    && (forall id :: id in rows && rows[id].key == key ==> exists v :: v in versions && v.id == id)
  }

  /** The generated identifiers are new to the table, the card is owned, and a new preview's link resolves. */
  predicate MayPersist(rows: Table, cards: Cards, request: Request) {
    var preview := PreviewOf(request);
    && Owned(cards, preview.key)
    && request.publishedId !in rows
    && (preview.id in rows ==> SameRow(rows[preview.id], preview))
    && (preview.id !in rows ==> preview.previous.None? || preview.previous.value in rows)
  }

  lemma {:induction false} SaveRowsConcat(rows: Table, cards: Cards, a: seq<Version>, b: seq<Version>, skip: Option<Id>)
    ensures SaveRows(rows, cards, a + b, skip)
         == match SaveRows(rows, cards, a, skip) case Err(e) => Err(e) case Ok(next) => SaveRows(next, cards, b, skip)
    decreases |a|
  {
    if a == [] {
      assert a + b == b;
    } else {
      assert (a + b)[1..] == a[1..] + b;
      if skip == Some(a[0].id) {
        SaveRowsConcat(rows, cards, a[1..], b, skip);
      } else if SaveRow(rows, cards, a[0]).Ok? {
        SaveRowsConcat(SaveRow(rows, cards, a[0]).value, cards, a[1..], b, skip);
      }
    }
  }

  /** v is stored as it stands, up to author and date. */
  predicate Stored(rows: Table, cards: Cards, v: Version) {
    v.id in rows && SameRow(rows[v.id], v) && Owned(cards, v.key)
  }

  lemma {:induction false} SavingStoredChangesNothing(rows: Table, cards: Cards, versions: seq<Version>, skip: Option<Id>)
    requires forall v :: v in versions ==> skip == Some(v.id) || Stored(rows, cards, v)
    ensures SaveRows(rows, cards, versions, skip) == Ok(rows)
    decreases |versions|
  {
    if versions != [] {
      assert skip == Some(versions[0].id) || Stored(rows, cards, versions[0]);
      SavingStoredChangesNothing(rows, cards, versions[1..], skip);
    }
  }

  /** The archive statement finds the version that memory found, and leaves no live row. */
  lemma ArchiveFindsCurrent(rows: Table, cards: Cards, existing: seq<Version>, request: Request)
    requires MayPublish(existing, request) && Lawful(rows, cards) && Mirrors(rows, existing, PreviewOf(request).key)
    ensures var r := PublishVersion(existing, request);
      var archived := if r.archived.Some? then ArchiveRow(rows, r.archived.value) else Ok(rows);
      && archived.Ok? && Lawful(archived.value, cards) && archived.value.Keys == rows.Keys
      && (forall id :: id in rows ==> !IsPublishedOf(archived.value[id], PreviewOf(request).key))
      && (r.archived.Some? ==> r.archived.value.id in rows && SameRow(archived.value[r.archived.value.id], r.archived.value))
      && (forall id :: id in rows && Some(id) != ArchivedId(r) ==> archived.value[id] == rows[id])
  {
    var r, key := PublishVersion(existing, request), PreviewOf(request).key;
    var current := FindCurrentPublished(existing, key);
    if current.Some? {
      assert current.value in existing;
      ArchiveRowLawful(rows, cards, r.archived.value);
    }
  }

  /** The table with the preview, when it is not there yet. */
  function WithPreview(rows: Table, preview: Version): Table {
    if preview.id in rows then rows else rows[preview.id := preview]
  }

  lemma PreviewSaves(rows: Table, cards: Cards, preview: Version)
    requires Owned(cards, preview.key) && preview.status == Preview
    requires preview.id in rows ==> SameRow(rows[preview.id], preview)
    requires preview.id !in rows ==> preview.previous.None? || preview.previous.value in rows
    ensures SaveRow(rows, cards, preview) == Ok(WithPreview(rows, preview))
  {
  }

  lemma PublishedSaves(rows: Table, cards: Cards, published: Version)
    requires Owned(cards, published.key) && published.id !in rows
    requires forall id :: id in rows ==> !IsPublishedOf(rows[id], published.key)
    requires published.previous.Some? ==> published.previous.value in rows
    ensures SaveRow(rows, cards, published) == Ok(rows[published.id := published])
  {
  }

  lemma SaveRowsFour(rows: Table, cards: Cards, kept: seq<Version>, preview: Version, archived: Option<Version>,
                     published: Version, second: Table, last: Table)
    requires SaveRows(rows, cards, kept, if archived.Some? then Some(archived.value.id) else None) == Ok(rows)
    requires SaveRow(rows, cards, preview) == Ok(second) && SaveRow(second, cards, published) == Ok(last)
    requires archived.Some? ==> preview.id != archived.value.id && published.id != archived.value.id
    ensures SaveRows(rows, cards, kept + [preview] + (if archived.Some? then [archived.value] else []) + [published],
                     if archived.Some? then Some(archived.value.id) else None) == Ok(last)
  {
    hide SaveRow;
    var skip := if archived.Some? then Some(archived.value.id) else None;
    var middle := if archived.Some? then [archived.value] else [];
    SaveRowsConcat(rows, cards, kept, [preview], skip);
    assert SaveRows(rows, cards, [preview], skip) == Ok(second) by {
      assert [preview][1..] == [];
    }
    SaveRowsConcat(rows, cards, kept + [preview], middle, skip);
    assert SaveRows(second, cards, middle, skip) == Ok(second);
    SaveRowsConcat(rows, cards, kept + [preview] + middle, [published], skip);
    assert SaveRows(second, cards, [published], skip) == Ok(last) by {
      assert [published][1..] == [];
    }
  }

  /** The table after a persisted publish. */
  function Persisted(archived: Table, preview: Version, published: Version): Table {
    WithPreview(archived, preview)[published.id := published]
  }

  lemma PersistSucceeds(rows: Table, cards: Cards, existing: seq<Version>, request: Request, archived: Table)
    requires UniqueIds(existing) && MayPublish(existing, request) && MayPersist(rows, cards, request)
    requires Lawful(rows, cards) && Mirrors(rows, existing, PreviewOf(request).key)
    requires var r := PublishVersion(existing, request);
      Ok(archived) == if r.archived.Some? then ArchiveRow(rows, r.archived.value) else Ok(rows)
    ensures var r := PublishVersion(existing, request);
      PersistRows(rows, cards, r) == Ok(Persisted(archived, PreviewOf(request), r.published.value))
  {
    hide Lawful, ArchiveRow, SaveRow, SaveRows, UniqueIds, LinksResolve, OneLiveRow;
    var r, preview := PublishVersion(existing, request), PreviewOf(request);
    ArchiveFindsCurrent(rows, cards, existing, request);
    PreviewIsNew(existing, request);
    var current := FindCurrentPublished(existing, preview.key);
    var kept := Without(existing, (if current.Some? then {current.value.id} else {}) + {preview.id});
    KeptStored(rows, cards, existing, kept, archived, ArchivedId(r));
    SavingStoredChangesNothing(archived, cards, kept, ArchivedId(r));
    PreviewSaves(archived, cards, preview);
    PublishedSaves(WithPreview(archived, preview), cards, r.published.value);
    SaveRowsFour(archived, cards, kept, preview, r.archived, r.published.value, WithPreview(archived, preview),
                 Persisted(archived, preview, r.published.value));
  }

  lemma KeptStored(rows: Table, cards: Cards, existing: seq<Version>, kept: seq<Version>, archived: Table,
          skip: Option<Id>)
    requires Lawful(rows, cards) && archived.Keys == rows.Keys
    requires forall v :: v in existing ==> v.id in rows && SameRow(rows[v.id], v)
    requires forall v :: v in kept ==> v in existing
    requires forall id :: id in rows && Some(id) != skip ==> archived[id] == rows[id]
    ensures forall v :: v in kept ==> skip == Some(v.id) || Stored(archived, cards, v)
  {
  }

  /** Which versions a successful publish returns. */
  lemma ResultMembers(existing: seq<Version>, request: Request)
    requires MayPublish(existing, request)
    ensures var r, preview := PublishVersion(existing, request), PreviewOf(request);
      && r.published.Some? && r.published.value.id == request.publishedId
      && forall v :: v in r.versions <==>
           ((v in existing && v.id != preview.id && Some(v.id) != ArchivedId(r))
            || v == preview || Some(v) == r.archived || Some(v) == r.published)
  {
  }

  lemma MirrorsPersisted(rows: Table, existing: seq<Version>, r: Outcome, preview: Version, archived: Table)
    requires Mirrors(rows, existing, preview.key) && archived.Keys == rows.Keys
    requires r.published.Some? && r.published.value.id !in rows && r.published.value.id != preview.id
    requires preview.id in rows ==> SameRow(rows[preview.id], preview)
    requires r.archived.Some? ==> r.archived.value.id != preview.id
    requires r.archived.Some? ==> r.archived.value.id in rows && SameRow(archived[r.archived.value.id], r.archived.value)
    requires r.archived.Some? ==> rows[r.archived.value.id].key == r.archived.value.key
    requires forall id :: id in rows && Some(id) != ArchivedId(r) ==> archived[id] == rows[id]
    requires forall v :: v in r.versions <==>
               ((v in existing && v.id != preview.id && Some(v.id) != ArchivedId(r))
                || v == preview || Some(v) == r.archived || Some(v) == r.published)
    ensures Mirrors(Persisted(archived, preview, r.published.value), r.versions, preview.key)
  {
    var after := Persisted(archived, preview, r.published.value);
    forall id | id in after && after[id].key == preview.key
      ensures exists v :: v in r.versions && v.id == id
    {
      if id == r.published.value.id {
        assert r.published.value in r.versions;
      } else if id == preview.id {
        assert preview in r.versions;
      } else if Some(id) == ArchivedId(r) {
        assert r.archived.value in r.versions;
      } else {
        var v :| v in existing && v.id == id;
        assert v in r.versions;
      }
    }
  }

  /** Persisting simulates publishing: the write sequence succeeds on a table that mirrors the existing
      versions, and the new table mirrors the published result. */
  lemma PersistSimulatesPublish(rows: Table, cards: Cards, existing: seq<Version>, request: Request)
    requires UniqueIds(existing) && MayPublish(existing, request) && MayPersist(rows, cards, request)
    requires Lawful(rows, cards) && Mirrors(rows, existing, PreviewOf(request).key)
    ensures var r := PublishVersion(existing, request);
      && PersistRows(rows, cards, r).Ok?
      && Mirrors(PersistRows(rows, cards, r).value, r.versions, PreviewOf(request).key)
  {
    hide Lawful, SaveRow, SaveRows, UniqueIds, LinksResolve, OneLiveRow, Mirrors, PersistRows, Persisted;
    var r, preview := PublishVersion(existing, request), PreviewOf(request);
    ArchiveFindsCurrent(rows, cards, existing, request);
    var archived := (if r.archived.Some? then ArchiveRow(rows, r.archived.value) else Ok(rows)).value;
    PersistSucceeds(rows, cards, existing, request, archived);
    ResultMembers(existing, request);
    PreviewIsNew(existing, request);
    MirrorsPersisted(rows, existing, r, preview, archived);
  }

  /** The archive has to come first: while the former version is live, the unique index refuses the new one. */
  lemma ArchiveComesFirst(rows: Table, cards: Cards, existing: seq<Version>, request: Request)
    requires MayPublish(existing, request) && MayPersist(rows, cards, request)
    requires Mirrors(rows, existing, PreviewOf(request).key)
    ensures var r := PublishVersion(existing, request);
      SaveRow(rows, cards, r.published.value) == Err(Violation) <==> r.archived.Some?
  {
    hide SaveRow;
    var r, preview := PublishVersion(existing, request), PreviewOf(request);
    var published := r.published.value;
    match FindCurrentPublished(existing, preview.key)
    case Some(current) =>
      assert current in existing && IsPublishedOf(rows[current.id], preview.key);
      LiveRowBlocks(rows, cards, published, current.id);
    case None =>
      forall id | id in rows
        ensures !IsPublishedOf(rows[id], preview.key)
      {
        if rows[id].key == preview.key {
          var v :| v in existing && v.id == id;
        }
      }
      PublishedSaves(rows, cards, published);
  }

  lemma LiveRowBlocks(rows: Table, cards: Cards, published: Version, live: Id)
    requires Owned(cards, published.key) && published.status == Published && published.id !in rows
    requires live in rows && IsPublishedOf(rows[live], published.key)
    ensures SaveRow(rows, cards, published) == Err(Violation)
  {
  }

  // ---------------------------------------------------------------- retries without a key

  /** Persisting the same result again without an idempotency key succeeds, changing nothing, exactly when
      it archived nothing: the archive statement no longer finds a published row. */
  lemma RetryExact(rows: Table, cards: Cards, existing: seq<Version>, request: Request)
    requires UniqueIds(existing) && MayPublish(existing, request) && MayPersist(rows, cards, request)
    requires Lawful(rows, cards) && Mirrors(rows, existing, PreviewOf(request).key)
    ensures var r := PublishVersion(existing, request);
      var first := PersistRows(rows, cards, r);
      first.Ok? && PersistRows(first.value, cards, r) == if r.archived.Some? then Err(Conflict) else first
  {
    hide Lawful, SaveRows, UniqueIds, LinksResolve, OneLiveRow;
    var r, preview := PublishVersion(existing, request), PreviewOf(request);
    PersistSimulatesPublish(rows, cards, existing, request);
    var u := PersistRows(rows, cards, r).value;
    if r.archived.Some? {
      assert r.archived.value in r.versions;
    } else {
      PersistKeepsLawful(rows, cards, r);
      ResultStored(u, cards, r.versions, preview.key);
      SavingStoredChangesNothing(u, cards, r.versions, None);
    }
  }

  lemma ResultStored(u: Table, cards: Cards, versions: seq<Version>, key: Key)
    requires Lawful(u, cards) && Mirrors(u, versions, key)
    ensures forall v :: v in versions ==> Stored(u, cards, v)
  {
  }

  lemma {:induction false} SaveRowsLawful(rows: Table, cards: Cards, versions: seq<Version>, skip: Option<Id>)
    requires Lawful(rows, cards) && SaveRows(rows, cards, versions, skip).Ok?
    ensures Lawful(SaveRows(rows, cards, versions, skip).value, cards)
    decreases |versions|
  {
    hide Lawful, SaveRow;
    if versions != [] {
      if skip == Some(versions[0].id) {
        SaveRowsLawful(rows, cards, versions[1..], skip);
      } else {
        SaveRowLawful(rows, cards, versions[0]);
        SaveRowsLawful(SaveRow(rows, cards, versions[0]).value, cards, versions[1..], skip);
      }
    }
  }

  lemma PersistKeepsLawful(rows: Table, cards: Cards, outcome: Outcome)
    requires Lawful(rows, cards) && PersistRows(rows, cards, outcome).Ok?
    ensures Lawful(PersistRows(rows, cards, outcome).value, cards)
  {
    hide Lawful, ArchiveRow, SaveRows;
    if outcome.archived.Some? {
      ArchiveRowLawful(rows, cards, outcome.archived.value);
      SaveRowsLawful(ArchiveRow(rows, outcome.archived.value).value, cards, outcome.versions, ArchivedId(outcome));
    } else {
      SaveRowsLawful(rows, cards, outcome.versions, ArchivedId(outcome));
    }
  }

  // ---------------------------------------------------------------- runs

  /** Publishes for one card, each possible in memory and admissible for the table when its turn comes. */
  predicate Admissible(rows: Table, cards: Cards, versions: seq<Version>, key: Key, requests: seq<Request>)
    decreases |requests|
  {
    requests == []
    || var r := PublishVersion(versions, requests[0]);
       && PreviewOf(requests[0]).key == key
       && MayPublish(versions, requests[0]) && MayPersist(rows, cards, requests[0])
       && var next := PersistRows(rows, cards, r);
          next.Ok? ==> Admissible(next.value, cards, r.versions, key, requests[1..])
  }

  function PublishAll(versions: seq<Version>, requests: seq<Request>): seq<Version>
    decreases |requests|
  {
    if requests == [] then versions else PublishAll(PublishVersion(versions, requests[0]).versions, requests[1..])
  }

  function PersistAll(rows: Table, cards: Cards, versions: seq<Version>, requests: seq<Request>): Result<Table, DbError>
    decreases |requests|
  {
    if requests == [] then Ok(rows)
    else
      var r := PublishVersion(versions, requests[0]);
      match PersistRows(rows, cards, r)
      case Err(e) => Err(e)
      case Ok(next) => PersistAll(next, cards, r.versions, requests[1..])
  }

  /** Over a whole run the table stays lawful and ends as the mirror of the history in memory. */
  lemma {:induction false} RunSimulates(rows: Table, cards: Cards, versions: seq<Version>, key: Key,
          requests: seq<Request>)
    requires UniqueIds(versions) && Lawful(rows, cards) && Mirrors(rows, versions, key)
    requires Admissible(rows, cards, versions, key, requests)
    ensures var last := PersistAll(rows, cards, versions, requests);
      last.Ok? && Lawful(last.value, cards) && Mirrors(last.value, PublishAll(versions, requests), key)
    decreases |requests|
  {
    hide Lawful, Mirrors, UniqueIds, PersistRows, PublishVersion, MayPublish, MayPersist;
    if requests != [] {
      var r := PublishVersion(versions, requests[0]);
      PersistSimulatesPublish(rows, cards, versions, requests[0]);
      PersistKeepsLawful(rows, cards, r);
      PublishIsTableStep(versions, requests[0]);
      RunSimulates(PersistRows(rows, cards, r).value, cards, r.versions, key, requests[1..]);
    }
  }
}
