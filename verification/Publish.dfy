/** Publishing settings versions: settings-publish.ts and settings-versioning.ts of packages/settings,
    and what a version history keeps over any run. */
module Publish {
  import opened Wrappers

  type Id = string

  datatype Status = Draft | Preview | Published | Archived

  /** The immutable settings of a version. The two flags stand for the content checks that block a publish:
      those of profile and brand, and those of the receptionist. */
  datatype Snapshot = Snapshot(hash: string, content: string, profileReady: bool, receptionistReady: bool)

  datatype Key = Key(card: string, tenant: string)

  datatype Version = Version(id: Id, key: Key, status: Status, snapshot: Snapshot, hash: string,
                             previous: Option<Id>, immutable: bool, createdAt: int, createdBy: string)

  /** A publish call; the two generated identifiers are given. */
  datatype Request = Request(source: Version, previewId: Id, publishedId: Id, at: int, actor: string)

  datatype Outcome = Outcome(ok: bool, archived: Option<Version>, published: Option<Version>, versions: seq<Version>)

  // ---------------------------------------------------------------- the operation

  function GeneratePreview(draft: Version, id: Id, at: int, actor: string): Version {
    draft.(id := id, status := Preview, immutable := false, createdAt := at, createdBy := actor)
  }

  function Archive(v: Version, at: int, actor: string): Version {
    v.(status := Archived, immutable := true, createdAt := at, createdBy := actor)
  }

  function CreatePublished(source: Version, previous: Option<Id>, id: Id, at: int, actor: string): Version {
    source.(id := id, status := Published, immutable := true, previous := previous, createdAt := at, createdBy := actor)
  }

  /** `validateSettingsForPublish`, reduced to its verdict. */
  predicate Publishable(v: Version) {
    (v.status == Draft || v.status == Preview) && v.snapshot.hash == v.hash && v.snapshot.profileReady && v.snapshot.receptionistReady
  }

  predicate IsPublishedOf(v: Version, key: Key) {
    v.status == Published && v.key == key
  }

  /** `findCurrentPublishedVersion`: the first published version of a card. */
  function FindCurrentPublished(versions: seq<Version>, key: Key): (r: Option<Version>)
    ensures r.Some? ==> r.value in versions && IsPublishedOf(r.value, key)
    ensures r.None? ==> forall v :: v in versions ==> !IsPublishedOf(v, key)
    ensures r.Some? ==> exists i :: 0 <= i < |versions| && versions[i] == r.value
                                    && forall j :: 0 <= j < i ==> !IsPublishedOf(versions[j], key)
    decreases |versions|
  {
    if versions == [] then None
    else if IsPublishedOf(versions[0], key) then Some(versions[0])
    else FindCurrentPublished(versions[1..], key)
  }

  /** The versions a filter by identifier keeps. */
  function Without(versions: seq<Version>, ids: set<Id>): (r: seq<Version>)
    ensures forall v :: v in r <==> v in versions && v.id !in ids
    decreases |versions|
  {
    if versions == [] then []
    else
      var rest := Without(versions[1..], ids);
      if versions[0].id in ids then rest else [versions[0]] + rest
  }

  function PreviewOf(request: Request): Version {
    if request.source.status == Draft
    then GeneratePreview(request.source, request.previewId, request.at, request.actor)
    else request.source
  }

  /** `publishSettingsVersion`, without its events. */
  function PublishVersion(existing: seq<Version>, request: Request): Outcome {
    var preview := PreviewOf(request);
    if !Publishable(preview) then Outcome(false, None, None, existing + [preview])
    else
      var current := FindCurrentPublished(existing, preview.key);
      var archived := if current.Some? then Some(Archive(current.value, request.at, request.actor)) else None;
      var previous := if archived.Some? then Some(archived.value.id) else None;
      var published := CreatePublished(preview, previous, request.publishedId, request.at, request.actor);
      var replaced := (if current.Some? then {current.value.id} else {}) + {preview.id};
      var versions := Without(existing, replaced) + [preview]
                      + (if archived.Some? then [archived.value] else []) + [published];
      Outcome(true, archived, Some(published), versions)
  }

  /** The version that goes live has the new identifier and the settings of the request's source. */
  predicate GoesLive(v: Version, request: Request) {
    && v.id == request.publishedId && v.status == Published && v.immutable
    && v.key == request.source.key && v.snapshot == request.source.snapshot && v.hash == request.source.hash
    && v.createdAt == request.at && v.createdBy == request.actor
  }

  /** The preview that is published: the source itself, or for a draft a new version with its settings. */
  predicate Previews(v: Version, request: Request) {
    if request.source.status != Draft then v == request.source
    else
      && v.id == request.previewId && v.status == Preview && !v.immutable
      && v.key == request.source.key && v.snapshot == request.source.snapshot && v.hash == request.source.hash
      && v.previous == request.source.previous && v.createdAt == request.at && v.createdBy == request.actor
  }

  /** v, the card's published version, in its archived form. */
  predicate Retires(archived: Version, v: Version, request: Request) {
    && IsPublishedOf(v, request.source.key)
    && archived == v.(status := Archived, immutable := true, createdAt := request.at, createdBy := request.actor)
  }

  /** The events of a publish, by name and version. */
  datatype Event =
    | PreviewGenerated(id: Id) | ReceptionistPreviewed(id: Id) | ValidationFailed(id: Id)
    | ReceptionistFailed(id: Id) | VersionArchived(id: Id) | SettingsPublished(id: Id) | ReceptionistPublished(id: Id)

  /** The events of making a preview. */
  function Opening(request: Request): seq<Event> {
    var id := PreviewOf(request).id;
    if request.source.status == Draft then [PreviewGenerated(id), ReceptionistPreviewed(id)] else []
  }

  /** The events of the outcome: the refusal, or the change of live version, the archived one first. */
  function Closing(request: Request, r: Outcome): seq<Event> {
    var preview := PreviewOf(request);
    if !r.ok || r.published.None? then
      [ValidationFailed(preview.id)] + (if preview.snapshot.receptionistReady then [] else [ReceptionistFailed(preview.id)])
    else
      (if r.archived.Some? then [VersionArchived(r.archived.value.id)] else [])
      + [SettingsPublished(r.published.value.id), ReceptionistPublished(r.published.value.id)]
  }

  function Announced(request: Request, r: Outcome): seq<Event> {
    Opening(request) + Closing(request, r)
  }

  /** What a call may answer, in terms of its arguments. A success publishes exactly a draft or preview that
      passes the checks, with the source's settings, and archives the card's live version if there is one; a
      refusal appends the preview and publishes nothing. */
  ghost predicate Faithful(existing: seq<Version>, request: Request, r: Outcome) {
    && (r.ok <==>
        && (request.source.status == Draft || request.source.status == Preview)
        && request.source.snapshot.hash == request.source.hash
        && request.source.snapshot.profileReady && request.source.snapshot.receptionistReady)
    && (exists preview :: preview in r.versions && Previews(preview, request))
    && (r.ok ==>
        && r.published.Some? && GoesLive(r.published.value, request)
        && r.published.value.previous == (if r.archived.Some? then Some(r.archived.value.id) else None)
        && if r.archived.Some? then exists v :: v in existing && Retires(r.archived.value, v, request)
           else forall v :: v in existing ==> !IsPublishedOf(v, request.source.key))
    && (!r.ok ==>
        && r.published.None? && r.archived.None?
        && |r.versions| == |existing| + 1 && r.versions[..|existing|] == existing)
  }

  /** The event log tells what happened: one publication and at most one archive on success, a failed
      validation otherwise. */
  ghost predicate Tells(emitted: seq<Event>, request: Request, r: Outcome) {
    && (forall id :: SettingsPublished(id) in emitted <==> r.ok && id == request.publishedId)
    && (forall id :: VersionArchived(id) in emitted <==> r.archived.Some? && id == r.archived.value.id)
    && (forall id :: ValidationFailed(id) in emitted ==> !r.ok)
    && (!r.ok ==> exists id :: ValidationFailed(id) in emitted)
    && (forall id :: PreviewGenerated(id) in emitted <==> request.source.status == Draft && id == request.previewId)
    && (forall id :: ReceptionistPreviewed(id) in emitted <==> PreviewGenerated(id) in emitted)
    && (forall id :: ReceptionistPublished(id) in emitted <==> SettingsPublished(id) in emitted)
    && (forall id :: ReceptionistFailed(id) in emitted
          <==> ValidationFailed(id) in emitted && !request.source.snapshot.receptionistReady)
  }

  lemma PublishIsFaithful(existing: seq<Version>, request: Request)
    ensures Faithful(existing, request, PublishVersion(existing, request))
  {
    var r, preview := PublishVersion(existing, request), PreviewOf(request);
    assert Previews(preview, request) && preview in r.versions;
    if r.archived.Some? {
      var v := FindCurrentPublished(existing, preview.key).value;
      assert v in existing && Retires(r.archived.value, v, request);
    }
  }

  lemma OpeningTells(request: Request)
    ensures forall e :: e in Opening(request) ==> e.PreviewGenerated? || e.ReceptionistPreviewed?
    ensures forall id :: PreviewGenerated(id) in Opening(request) <==> request.source.status == Draft && id == request.previewId
    ensures forall id :: ReceptionistPreviewed(id) in Opening(request) <==> PreviewGenerated(id) in Opening(request)
  {
    if request.source.status == Draft {
      assert Opening(request)[0] == PreviewGenerated(request.previewId);
      assert Opening(request)[1] == ReceptionistPreviewed(request.previewId);
    }
  }

  lemma ClosingTells(request: Request, r: Outcome)
    requires r.ok ==> r.published.Some? && r.published.value.id == request.publishedId
    requires !r.ok ==> r.archived.None?
    ensures forall e :: e in Closing(request, r) ==> !e.PreviewGenerated? && !e.ReceptionistPreviewed?
    ensures forall id :: ReceptionistPublished(id) in Closing(request, r) <==> SettingsPublished(id) in Closing(request, r)
    ensures forall id :: ReceptionistFailed(id) in Closing(request, r)
              <==> ValidationFailed(id) in Closing(request, r) && !request.source.snapshot.receptionistReady
    ensures forall id :: SettingsPublished(id) in Closing(request, r) <==> r.ok && id == request.publishedId
    ensures forall id :: VersionArchived(id) in Closing(request, r) <==> r.archived.Some? && id == r.archived.value.id
    ensures forall id :: ValidationFailed(id) in Closing(request, r) <==> !r.ok && id == PreviewOf(request).id
  {
    assert PreviewOf(request).snapshot == request.source.snapshot;
    hide PreviewOf;
    var closing := Closing(request, r);
    if !r.ok {
      assert closing[0].ValidationFailed?;
      assert |closing| == 2 ==> closing[1] == ReceptionistFailed(PreviewOf(request).id);
    } else if r.archived.Some? {
      assert closing[0].VersionArchived? && closing[1].SettingsPublished? && closing[2].ReceptionistPublished?;
    } else {
      assert closing[0].SettingsPublished? && closing[1].ReceptionistPublished?;
    }
  }

  lemma AnnouncedTells(request: Request, r: Outcome)
    requires r.ok ==> r.published.Some? && r.published.value.id == request.publishedId
    requires !r.ok ==> r.archived.None?
    ensures Tells(Announced(request, r), request, r)
  {
    hide Opening, Closing, PreviewOf;
    OpeningTells(request);
    ClosingTells(request, r);
    assert !r.ok ==> ValidationFailed(PreviewOf(request).id) in Announced(request, r);
  }

  /** `publishSettingsVersion` step by step, with its event log. */
  method PublishSettingsVersion(existing: seq<Version>, request: Request) returns (r: Outcome, emitted: seq<Event>)
    ensures r == PublishVersion(existing, request)
    ensures Faithful(existing, request, r)
    ensures emitted == Announced(request, r) && Tells(emitted, request, r)
  {
    hide Faithful, Tells, Without, FindCurrentPublished;
    PublishIsFaithful(existing, request);
    AnnouncedTells(request, PublishVersion(existing, request));
    emitted := [];
    var previewVersion := request.source;
    if request.source.status == Draft {
      previewVersion := GeneratePreview(request.source, request.previewId, request.at, request.actor);
      emitted := emitted + [PreviewGenerated(previewVersion.id), ReceptionistPreviewed(previewVersion.id)];
    }
    if !Publishable(previewVersion) {
      emitted := emitted + [ValidationFailed(previewVersion.id)];
      if !previewVersion.snapshot.receptionistReady {
        emitted := emitted + [ReceptionistFailed(previewVersion.id)];
      }
      return Outcome(false, None, None, existing + [previewVersion]), emitted;
    }
    var previous := FindCurrentPublished(existing, previewVersion.key);
    var archived: Option<Version> := None;
    var replaced: set<Id> := {};
    if previous.Some? {
      archived := Some(Archive(previous.value, request.at, request.actor));
      replaced := {previous.value.id};
      emitted := emitted + [VersionArchived(archived.value.id)];
    }
    var published := CreatePublished(previewVersion, if archived.Some? then Some(archived.value.id) else None,
                                     request.publishedId, request.at, request.actor);
    emitted := emitted + [SettingsPublished(published.id), ReceptionistPublished(published.id)];
    replaced := replaced + {previewVersion.id};
    var versions := Without(existing, replaced) + [previewVersion] + (if archived.Some? then [archived.value] else []) + [published];
    r := Outcome(true, archived, Some(published), versions);
  }

  // ---------------------------------------------------------------- a history as a table

  predicate UniqueIds(versions: seq<Version>) {
    forall i, j :: 0 <= i < j < |versions| ==> versions[i].id != versions[j].id
  }

  type Table = map<Id, Version>

  function TableOf(versions: seq<Version>): Table
    decreases |versions|
  {
    if versions == [] then map[]
    else TableOf(versions[..|versions| - 1])[versions[|versions| - 1].id := versions[|versions| - 1]]
  }

  lemma {:induction false} TableHolds(versions: seq<Version>)
    requires UniqueIds(versions)
    ensures forall v :: v in versions ==> v.id in TableOf(versions) && TableOf(versions)[v.id] == v
    ensures forall id :: id in TableOf(versions) ==> TableOf(versions)[id] in versions && TableOf(versions)[id].id == id
    decreases |versions|
  {
    if versions != [] {
      var init, last := versions[..|versions| - 1], versions[|versions| - 1];
      assert versions == init + [last];
      TableHolds(init);
    }
  }

  lemma {:induction false} WithoutUnique(versions: seq<Version>, ids: set<Id>)
    requires UniqueIds(versions)
    ensures UniqueIds(Without(versions, ids))
    decreases |versions|
  {
    if versions != [] {
      WithoutUnique(versions[1..], ids);
    }
  }

  /** A copy of a stored version that is handed in as source is the stored version. */
  predicate Known(existing: seq<Version>, source: Version) {
    forall v :: v in existing && v.id == source.id ==> v == source
  }

  predicate FreshId(existing: seq<Version>, id: Id) {
    forall v :: v in existing ==> v.id != id
  }

  /** The generated identifiers are new. */
  predicate FreshIds(existing: seq<Version>, request: Request) {
    && FreshId(existing, request.publishedId)
    && (request.source.status == Draft ==> FreshId(existing, request.previewId))
    && PreviewOf(request).id != request.publishedId
  }

  predicate MayPublish(existing: seq<Version>, request: Request) {
    Known(existing, request.source) && FreshIds(existing, request) && PublishVersion(existing, request).ok
  }

  /** The effect of a publish on the table: two rows added, the former published row archived. */
  function TableStep(t: Table, preview: Version, archived: Option<Version>, published: Version): Table {
    var saved := t[preview.id := preview];
    (if archived.Some? then saved[archived.value.id := archived.value] else saved)[published.id := published]
  }

  lemma PreviewIsNew(existing: seq<Version>, request: Request)
    requires MayPublish(existing, request)
    ensures Known(existing, PreviewOf(request))
    ensures var current := FindCurrentPublished(existing, PreviewOf(request).key);
      current.Some? ==> current.value.id != PreviewOf(request).id
  {
  }

  lemma AppendUnique(versions: seq<Version>, v: Version)
    requires UniqueIds(versions) && FreshId(versions, v.id)
    ensures UniqueIds(versions + [v])
    ensures TableOf(versions + [v]) == TableOf(versions)[v.id := v]
  {
    assert (versions + [v])[..|versions|] == versions;
    forall k | 0 <= k < |versions|
      ensures versions[k].id != v.id
    {
      assert versions[k] in versions;
    }
  }

  lemma KeptTable(existing: seq<Version>, ids: set<Id>)
    requires UniqueIds(existing)
    ensures UniqueIds(Without(existing, ids)) && TableOf(Without(existing, ids)) == TableOf(existing) - ids
  {
    WithoutUnique(existing, ids);
    TableHolds(existing);
    TableHolds(Without(existing, ids));
  }

  lemma KeptFresh(existing: seq<Version>, ids: set<Id>, id: Id)
    requires id in ids || FreshId(existing, id)
    ensures FreshId(Without(existing, ids), id)
  {
  }

  lemma FreshAppend(versions: seq<Version>, v: Version, id: Id)
    requires FreshId(versions, id) && v.id != id
    ensures FreshId(versions + [v], id)
  {
  }

  lemma FirstPublishStep(existing: seq<Version>, preview: Version, published: Version)
    requires UniqueIds(existing) && FreshId(existing, published.id) && preview.id != published.id
    ensures var versions := Without(existing, {preview.id}) + [preview] + [published];
      UniqueIds(versions) && TableOf(versions) == TableStep(TableOf(existing), preview, None, published)
  {
    hide UniqueIds, TableOf, FreshId;
    var kept := Without(existing, {preview.id});
    KeptTable(existing, {preview.id});
    KeptFresh(existing, {preview.id}, preview.id);
    KeptFresh(existing, {preview.id}, published.id);
    FreshAppend(kept, preview, published.id);
    AppendUnique(kept, preview);
    AppendUnique(kept + [preview], published);
  }

  lemma NextPublishStep(existing: seq<Version>, preview: Version, archived: Version, published: Version)
    requires UniqueIds(existing) && FreshId(existing, published.id)
    requires preview.id != published.id && archived.id != published.id && archived.id != preview.id
    ensures var versions := Without(existing, {archived.id, preview.id}) + [preview] + [archived] + [published];
      UniqueIds(versions) && TableOf(versions) == TableStep(TableOf(existing), preview, Some(archived), published)
  {
    var ids := {archived.id, preview.id};
    hide UniqueIds, TableOf, FreshId;
    var kept := Without(existing, ids);
    KeptTable(existing, ids);
    KeptFresh(existing, ids, preview.id);
    KeptFresh(existing, ids, archived.id);
    KeptFresh(existing, ids, published.id);
    FreshAppend(kept, preview, archived.id);
    FreshAppend(kept, preview, published.id);
    FreshAppend(kept + [preview], archived, published.id);
    AppendUnique(kept, preview);
    AppendUnique(kept + [preview], archived);
    AppendUnique(kept + [preview] + [archived], published);
  }

  /** Publishing keeps identifiers unique, and its list of versions is the table step. */
  lemma PublishIsTableStep(existing: seq<Version>, request: Request)
    requires UniqueIds(existing) && MayPublish(existing, request)
    ensures var r := PublishVersion(existing, request);
      UniqueIds(r.versions)
      && TableOf(r.versions) == TableStep(TableOf(existing), PreviewOf(request), r.archived, r.published.value)
  {
    hide UniqueIds, TableOf, TableStep, Without;
    var r, preview := PublishVersion(existing, request), PreviewOf(request);
    PreviewIsNew(existing, request);
    match FindCurrentPublished(existing, preview.key)
    case None =>
      assert {} + {preview.id} == {preview.id};
      var front := Without(existing, {preview.id}) + [preview];
      assert front + [] == front;
      FirstPublishStep(existing, preview, r.published.value);
    case Some(current) =>
      assert {current.id} + {preview.id} == {current.id, preview.id};
      NextPublishStep(existing, preview, r.archived.value, r.published.value);
  }

  /** A refused publish appends its source regardless: identifiers stay unique only for a new source. */
  lemma RefusedPublishExact(existing: seq<Version>, request: Request)
    requires UniqueIds(existing) && !PublishVersion(existing, request).ok
    ensures UniqueIds(PublishVersion(existing, request).versions) <==> FreshId(existing, PreviewOf(request).id)
  {
    var preview := PreviewOf(request);
    if FreshId(existing, preview.id) {
      AppendUnique(existing, preview);
    } else {
      var v :| v in existing && v.id == preview.id;
      var i :| 0 <= i < |existing| && existing[i] == v;
      assert (existing + [preview])[i].id == (existing + [preview])[|existing|].id;
    }
  }

  // ---------------------------------------------------------------- histories

  predicate SameSettings(v: Version, w: Version) {
    v.key == w.key && v.snapshot == w.snapshot && v.hash == w.hash && v.previous == w.previous
  }

  /** Nothing is lost: every row stays, with its settings; only a published row changes, to archived. */
  predicate RowKept(t: Table, u: Table, id: Id)
    requires id in t
  {
    id in u && SameSettings(t[id], u[id])
    && (u[id] == t[id] || (t[id].status == Published && u[id].status == Archived && u[id].immutable))
  }

  predicate Keeps(t: Table, u: Table) {
    forall id :: id in t ==> RowKept(t, u, id)
  }

  /** The i-th published version of a card: live when last, archived and immutable before, linked to its
      predecessor. */
  predicate Link(t: Table, key: Key, log: seq<Id>, i: nat)
    requires i < |log|
  {
    && log[i] in t && t[log[i]].key == key
    && t[log[i]].status == (if i == |log| - 1 then Published else Archived)
    && (i < |log| - 1 ==> t[log[i]].immutable)
    && (i > 0 ==> t[log[i]].previous == Some(log[i - 1]))
  }

  predicate Chain(t: Table, key: Key, log: seq<Id>) {
    forall i :: 0 <= i < |log| ==> Link(t, key, log, i)
  }

  /** A card's only published row is the last of its log. */
  predicate TipOnly(t: Table, key: Key, log: seq<Id>) {
    forall id :: id in t && IsPublishedOf(t[id], key) ==> log != [] && id == log[|log| - 1]
  }

  predicate Distinct(log: seq<Id>) {
    forall i, j :: 0 <= i < j < |log| ==> log[i] != log[j]
  }

  predicate History(t: Table, key: Key, log: seq<Id>) {
    Chain(t, key, log) && TipOnly(t, key, log) && Distinct(log)
  }

  lemma LinkInRow(t: Table, key: Key, log: seq<Id>, i: nat)
    requires i < |log| && Chain(t, key, log)
    ensures Link(t, key, log, i)
  {
  }

  /** A publish for another card leaves a card's history alone. */
  lemma OtherHistoryKept(t: Table, key: Key, log: seq<Id>, preview: Version, archived: Option<Version>,
          published: Version)
    requires History(t, key, log) && published.key != key && preview.status != Published
    requires published.id !in t && (preview.id in t ==> t[preview.id] == preview)
    requires archived.Some? ==> archived.value.id in t && t[archived.value.id].key != key && archived.value.key != key
    ensures History(TableStep(t, preview, archived, published), key, log)
  {
    var u := TableStep(t, preview, archived, published);
    forall i | 0 <= i < |log|
      ensures Link(u, key, log, i)
    {
      LinkInRow(t, key, log, i);
    }
  }

  /** v is the card's live version after archiving. */
  predicate ArchivedTip(t: Table, log: seq<Id>, v: Version) {
    && log != [] && v.id == log[|log| - 1] && v.id in t
    && SameSettings(t[v.id], v) && v.status == Archived && v.immutable
  }

  /** A publish extends the history of its card by one. */
  lemma HistoryGrows(t: Table, key: Key, log: seq<Id>, preview: Version, archived: Option<Version>, published: Version)
    requires History(t, key, log) && IsPublishedOf(published, key) && preview.status != Published
    requires published.id !in t && published.id != preview.id && (preview.id in t ==> t[preview.id] == preview)
    requires archived.Some? <==> log != []
    requires archived.None? ==> published.previous == None
    requires archived.Some? ==> ArchivedTip(t, log, archived.value) && published.previous == Some(archived.value.id)
    ensures History(TableStep(t, preview, archived, published), key, log + [published.id])
  {
    var u, grown := TableStep(t, preview, archived, published), log + [published.id];
    forall i | 0 <= i < |grown|
      ensures Link(u, key, grown, i)
    {
      if i < |log| {
        LinkInRow(t, key, log, i);
        if i == |log| - 1 {
          assert u[log[i]] == archived.value;
        } else {
          assert log[i] != log[|log| - 1];
          assert u[log[i]] == t[log[i]];
        }
      } else {
        assert u[grown[i]] == published;
      }
    }
    forall i | 0 <= i < |log|
      ensures log[i] != published.id
    {
      LinkInRow(t, key, log, i);
    }
  }

  // ---------------------------------------------------------------- runs

  /** A card owner saves a new draft or preview, or a publish succeeds. */
  datatype Step = Save(version: Version) | Publish(request: Request)

  predicate Enabled(versions: seq<Version>, step: Step) {
    match step
    case Save(v) => FreshId(versions, v.id) && (v.status == Draft || v.status == Preview)
    case Publish(request) => MayPublish(versions, request)
  }

  function Apply(versions: seq<Version>, step: Step): seq<Version> {
    match step
    case Save(v) => versions + [v]
    case Publish(request) => PublishVersion(versions, request).versions
  }

  /** The versions after a run, when every step of it was possible. */
  function Reached(start: seq<Version>, steps: seq<Step>): Option<seq<Version>>
    decreases |steps|
  {
    if steps == [] then Some(start)
    else
      match Reached(start, steps[..|steps| - 1])
      case None => None
      case Some(versions) =>
        if Enabled(versions, steps[|steps| - 1]) then Some(Apply(versions, steps[|steps| - 1])) else None
  }

  /** The published identifiers of a card, oldest first: the one live at the start, then one per publish. */
  function Log(start: seq<Version>, steps: seq<Step>, key: Key): seq<Id>
    decreases |steps|
  {
    if steps == [] then
      match FindCurrentPublished(start, key)
      case None => []
      case Some(v) => [v.id]
    else
      Log(start, steps[..|steps| - 1], key)
      + match steps[|steps| - 1]
        case Save(_) => []
        case Publish(request) => if PreviewOf(request).key == key then [request.publishedId] else []
  }

  /** At most one published version per card. */
  predicate OnePublished(versions: seq<Version>) {
    forall v, w :: v in versions && w in versions && v.status == Published && w.status == Published && v.key == w.key
      ==> v == w
  }

  lemma HistoryAtStart(start: seq<Version>, key: Key)
    requires UniqueIds(start) && OnePublished(start)
    ensures History(TableOf(start), key, Log(start, [], key))
  {
    TableHolds(start);
  }

  /** The live version found by the code is the last of the log. */
  lemma CurrentIsTip(versions: seq<Version>, key: Key, log: seq<Id>)
    requires UniqueIds(versions) && History(TableOf(versions), key, log)
    ensures FindCurrentPublished(versions, key).Some? <==> log != []
    ensures log != [] ==> FindCurrentPublished(versions, key).value.id == log[|log| - 1]
  {
    TableHolds(versions);
    if log != [] {
      LinkInRow(TableOf(versions), key, log, |log| - 1);
    }
  }

  lemma PublishKeepsHistory(versions: seq<Version>, request: Request, key: Key, log: seq<Id>)
    requires UniqueIds(versions) && MayPublish(versions, request) && History(TableOf(versions), key, log)
    ensures History(TableOf(PublishVersion(versions, request).versions), key,
                    if PreviewOf(request).key == key then log + [request.publishedId] else log)
  {
    hide TableOf, UniqueIds, History, TableStep;
    var t, r, preview := TableOf(versions), PublishVersion(versions, request), PreviewOf(request);
    PublishIsTableStep(versions, request);
    TableHolds(versions);
    PreviewIsNew(versions, request);
    if preview.key == key {
      CurrentIsTip(versions, key, log);
      HistoryGrows(t, key, log, preview, r.archived, r.published.value);
    } else {
      OtherHistoryKept(t, key, log, preview, r.archived, r.published.value);
    }
  }

  lemma SaveKeepsHistory(versions: seq<Version>, v: Version, key: Key, log: seq<Id>)
    requires UniqueIds(versions) && Enabled(versions, Save(v)) && History(TableOf(versions), key, log)
    ensures UniqueIds(versions + [v]) && History(TableOf(versions + [v]), key, log)
  {
    TableHolds(versions);
    AppendUnique(versions, v);
    forall i | 0 <= i < |log|
      ensures Link(TableOf(versions + [v]), key, log, i)
    {
      LinkInRow(TableOf(versions), key, log, i);
    }
  }

  /** Over any run, every card has its history: one live version, its predecessors archived and linked. */
  lemma {:induction false} RunHistory(start: seq<Version>, steps: seq<Step>, key: Key)
    requires UniqueIds(start) && OnePublished(start) && Reached(start, steps).Some?
    ensures var versions := Reached(start, steps).value;
      UniqueIds(versions) && History(TableOf(versions), key, Log(start, steps, key))
    decreases |steps|
  {
    hide UniqueIds, TableOf, History, OnePublished, PublishVersion;
    if steps == [] {
      HistoryAtStart(start, key);
    } else {
      var before, last := steps[..|steps| - 1], steps[|steps| - 1];
      RunHistory(start, before, key);
      var versions, log := Reached(start, before).value, Log(start, before, key);
      match last
      case Save(v) =>
        SaveKeepsHistory(versions, v, key, log);
        assert log + [] == log;
      case Publish(request) =>
        PublishKeepsHistory(versions, request, key, log);
        PublishIsTableStep(versions, request);
        assert log + [] == log;
    }
  }

  /** After a run a card with any publish has exactly one published version, and it is the newest one. */
  lemma ExactlyOneLive(start: seq<Version>, steps: seq<Step>, key: Key)
    requires UniqueIds(start) && OnePublished(start) && Reached(start, steps).Some?
    ensures var versions, log := Reached(start, steps).value, Log(start, steps, key);
      && (FindCurrentPublished(versions, key).None? <==> log == [])
      && (log != [] ==>
          && FindCurrentPublished(versions, key).value.id == log[|log| - 1]
          && forall v :: v in versions && IsPublishedOf(v, key) ==> v == FindCurrentPublished(versions, key).value)
  {
    RunHistory(start, steps, key);
    var versions := Reached(start, steps).value;
    CurrentIsTip(versions, key, Log(start, steps, key));
    TableHolds(versions);
  }

  // ---------------------------------------------------------------- nothing is lost

  lemma TableStepKeeps(t: Table, preview: Version, archived: Option<Version>, published: Version)
    requires published.id !in t && (preview.id in t ==> t[preview.id] == preview)
    requires archived.Some? ==>
               var v := archived.value;
               v.id in t && t[v.id].status == Published && SameSettings(t[v.id], v) && v.status == Archived && v.immutable
               && v.id != preview.id
    ensures Keeps(t, TableStep(t, preview, archived, published))
  {
  }

  lemma StepKeeps(versions: seq<Version>, step: Step)
    requires UniqueIds(versions) && Enabled(versions, step)
    ensures UniqueIds(Apply(versions, step)) && Keeps(TableOf(versions), TableOf(Apply(versions, step)))
  {
    TableHolds(versions);
    match step
    case Save(v) => AppendUnique(versions, v);
    case Publish(request) =>
      hide UniqueIds, TableOf, Keeps, TableStep;
      PublishIsTableStep(versions, request);
      PreviewIsNew(versions, request);
      var r := PublishVersion(versions, request);
      TableStepKeeps(TableOf(versions), PreviewOf(request), r.archived, r.published.value);
  }

  lemma KeepsTransitive(t: Table, u: Table, w: Table)
    requires Keeps(t, u) && Keeps(u, w)
    ensures Keeps(t, w)
  {
    forall id | id in t
      ensures RowKept(t, w, id)
    {
      assert RowKept(t, u, id);
    }
  }

  /** From any point of a run to its end no version disappears and no snapshot changes. */
  lemma {:induction false} NothingLost(start: seq<Version>, steps: seq<Step>, i: nat)
    requires UniqueIds(start) && OnePublished(start) && Reached(start, steps).Some? && i <= |steps|
    ensures Reached(start, steps[..i]).Some?
    ensures Keeps(TableOf(Reached(start, steps[..i]).value), TableOf(Reached(start, steps).value))
    decreases |steps|
  {
    if i == |steps| {
      assert steps[..i] == steps;
    } else {
      var before := steps[..|steps| - 1];
      assert before[..i] == steps[..i];
      NothingLost(start, before, i);
      RunHistory(start, before, Key("", ""));
      var versions := Reached(start, before).value;
      StepKeeps(versions, steps[|steps| - 1]);
      KeepsTransitive(TableOf(Reached(start, steps[..i]).value), TableOf(versions), TableOf(Reached(start, steps).value));
    }
  }

  // ---------------------------------------------------------------- the settings that are live

  /** What each published version of a card is to show, oldest first: the settings live at the start, then
      those of each request's source. */
  function SettingsLog(start: seq<Version>, steps: seq<Step>, key: Key): seq<(Snapshot, string)>
    decreases |steps|
  {
    if steps == [] then
      match FindCurrentPublished(start, key)
      case None => []
      case Some(v) => [(v.snapshot, v.hash)]
    else
      SettingsLog(start, steps[..|steps| - 1], key)
      + match steps[|steps| - 1]
        case Save(_) => []
        case Publish(request) => if request.source.key == key then [(request.source.snapshot, request.source.hash)] else []
  }

  /** The i-th version of the log shows the i-th settings. */
  predicate Shows(t: Table, log: seq<Id>, settings: seq<(Snapshot, string)>, i: nat)
    requires i < |log| && i < |settings|
  {
    log[i] in t && (t[log[i]].snapshot, t[log[i]].hash) == settings[i]
  }

  predicate AllShow(t: Table, log: seq<Id>, settings: seq<(Snapshot, string)>) {
    |log| == |settings| && forall i :: 0 <= i < |log| ==> Shows(t, log, settings, i)
  }

  lemma ShowsStays(t: Table, u: Table, log: seq<Id>, settings: seq<(Snapshot, string)>)
    requires AllShow(t, log, settings) && Keeps(t, u)
    ensures AllShow(u, log, settings)
  {
    forall i | 0 <= i < |log|
      ensures Shows(u, log, settings, i)
    {
      assert Shows(t, log, settings, i) && RowKept(t, u, log[i]);
    }
  }

  lemma PublishedShows(versions: seq<Version>, request: Request)
    requires UniqueIds(versions) && MayPublish(versions, request)
    ensures var t := TableOf(PublishVersion(versions, request).versions);
      && PreviewOf(request).key == request.source.key
      && request.publishedId in t
      && t[request.publishedId].snapshot == request.source.snapshot && t[request.publishedId].hash == request.source.hash
  {
    PublishIsTableStep(versions, request);
  }

  /** Over any run, each published version of a card shows the settings of the request that made it. */
  lemma {:induction false} RunShowsSources(start: seq<Version>, steps: seq<Step>, key: Key)
    requires UniqueIds(start) && OnePublished(start) && Reached(start, steps).Some?
    ensures AllShow(TableOf(Reached(start, steps).value), Log(start, steps, key), SettingsLog(start, steps, key))
    decreases |steps|
  {
    hide UniqueIds, OnePublished, PublishVersion, MayPublish, Keeps, TableOf, FindCurrentPublished, PreviewOf;
    if steps == [] {
      StartShows(start, key);
    } else {
      var before, last := steps[..|steps| - 1], steps[|steps| - 1];
      RunShowsSources(start, before, key);
      RunHistory(start, before, key);
      var versions := Reached(start, before).value;
      StepKeeps(versions, last);
      ShowsStays(TableOf(versions), TableOf(Apply(versions, last)), Log(start, before, key), SettingsLog(start, before, key));
      var log, settings := Log(start, before, key), SettingsLog(start, before, key);
      assert log + [] == log && settings + [] == settings;
      match last
      case Save(v) =>
      case Publish(request) =>
        PublishedShows(versions, request);
        if request.source.key == key {
          ShowsOneMore(TableOf(Apply(versions, last)), log, settings, request.publishedId);
        }
    }
  }

  lemma ShowsOneMore(t: Table, log: seq<Id>, settings: seq<(Snapshot, string)>, id: Id)
    requires AllShow(t, log, settings) && id in t
    ensures AllShow(t, log + [id], settings + [(t[id].snapshot, t[id].hash)])
  {
    forall i | 0 <= i < |log| + 1
      ensures Shows(t, log + [id], settings + [(t[id].snapshot, t[id].hash)], i)
    {
      if i < |log| {
        assert Shows(t, log, settings, i);
      }
    }
  }

  lemma StartShows(start: seq<Version>, key: Key)
    requires UniqueIds(start)
    ensures AllShow(TableOf(start), Log(start, [], key), SettingsLog(start, [], key))
  {
    TableHolds(start);
  }

  /** The live version of a card shows the settings of its last successful request. */
  lemma LiveShowsLastSource(start: seq<Version>, steps: seq<Step>, key: Key)
    requires UniqueIds(start) && OnePublished(start) && Reached(start, steps).Some? && Log(start, steps, key) != []
    ensures var live := FindCurrentPublished(Reached(start, steps).value, key);
      var settings := SettingsLog(start, steps, key);
      live.Some? && settings != [] && (live.value.snapshot, live.value.hash) == settings[|settings| - 1]
  {
    hide UniqueIds, OnePublished, TableOf, Log, SettingsLog, Reached;
    RunHistory(start, steps, key);
    RunShowsSources(start, steps, key);
    var versions, log := Reached(start, steps).value, Log(start, steps, key);
    CurrentIsTip(versions, key, log);
    TableHolds(versions);
    assert Shows(TableOf(versions), log, SettingsLog(start, steps, key), |log| - 1);
  }

  // ---------------------------------------------------------------- following the links

  /** The identifiers met by following at most n previous links. */
  function Trail(t: Table, from: Option<Id>, n: nat): seq<Id>
    decreases n
  {
    if n == 0 || from.None? || from.value !in t then []
    else [from.value] + Trail(t, t[from.value].previous, n - 1)
  }

  function Reversed(log: seq<Id>): seq<Id>
    decreases |log|
  {
    if log == [] then [] else [log[|log| - 1]] + Reversed(log[..|log| - 1])
  }

  lemma {:induction false} TrailAlongLog(t: Table, key: Key, log: seq<Id>, k: nat, n: nat)
    requires Chain(t, key, log) && k < |log|
    requires n == k + 1 || (n > k && log[0] in t && t[log[0]].previous == None)
    ensures Trail(t, Some(log[k]), n) == Reversed(log[..k + 1])
    decreases k
  {
    LinkInRow(t, key, log, k);
    assert log[..k + 1][..k] == log[..k];
    if k > 0 {
      TrailAlongLog(t, key, log, k - 1, n - 1);
    } else {
      assert log[..0] == [];
      assert Trail(t, t[log[0]].previous, n - 1) == [];
    }
  }

  lemma TrailFromTip(t: Table, key: Key, log: seq<Id>, n: nat)
    requires History(t, key, log) && log != []
    requires n == |log| || (n > |log| && log[0] in t && t[log[0]].previous == None)
    ensures Trail(t, Some(log[|log| - 1]), n) == Reversed(log)
  {
    TrailAlongLog(t, key, log, |log| - 1, n);
    assert log[..|log|] == log;
  }

  /** Following the links from a card's live version visits its published versions newest first. */
  lemma TrailIsLogNewestFirst(start: seq<Version>, steps: seq<Step>, key: Key)
    requires UniqueIds(start) && OnePublished(start) && Reached(start, steps).Some?
    requires Log(start, steps, key) != []
    ensures var versions, log := Reached(start, steps).value, Log(start, steps, key);
      var live := FindCurrentPublished(versions, key);
      live.Some? && Trail(TableOf(versions), Some(live.value.id), |log|) == Reversed(log)
  {
    hide *;
    RunHistory(start, steps, key);
    var versions, log := Reached(start, steps).value, Log(start, steps, key);
    CurrentIsTip(versions, key, log);
    TrailFromTip(TableOf(versions), key, log, |log|);
  }

  /** The oldest published version of a card that had none has no predecessor. */
  lemma {:induction false} RunOrigin(start: seq<Version>, steps: seq<Step>, key: Key)
    requires UniqueIds(start) && OnePublished(start) && Reached(start, steps).Some?
    requires FindCurrentPublished(start, key).None? && Log(start, steps, key) != []
    ensures var t, first := TableOf(Reached(start, steps).value), Log(start, steps, key)[0];
      first in t && t[first].previous == None
    decreases |steps|
  {
    hide UniqueIds, OnePublished, TableOf, FindCurrentPublished, PublishVersion;
    var before, last := steps[..|steps| - 1], steps[|steps| - 1];
    var versions, log := Reached(start, before).value, Log(start, before, key);
    RunHistory(start, before, key);
    if log != [] {
      RunOrigin(start, before, key);
      StepKeeps(versions, last);
      assert RowKept(TableOf(versions), TableOf(Apply(versions, last)), log[0]);
    } else {
      FirstHasNoPrevious(versions, last.request, key);
    }
  }

  lemma FirstHasNoPrevious(versions: seq<Version>, request: Request, key: Key)
    requires UniqueIds(versions) && History(TableOf(versions), key, []) && MayPublish(versions, request)
    requires PreviewOf(request).key == key
    ensures var t := TableOf(PublishVersion(versions, request).versions);
      request.publishedId in t && t[request.publishedId].previous == None
  {
    CurrentIsTip(versions, key, []);
    PublishIsTableStep(versions, request);
  }

  /** For a card without earlier publishes the walk ends there, however long it is allowed to go on. */
  lemma TrailEnds(start: seq<Version>, steps: seq<Step>, key: Key, n: nat)
    requires UniqueIds(start) && OnePublished(start) && Reached(start, steps).Some?
    requires FindCurrentPublished(start, key).None? && Log(start, steps, key) != []
    requires n >= |Log(start, steps, key)|
    ensures var versions, log := Reached(start, steps).value, Log(start, steps, key);
      Trail(TableOf(versions), Some(log[|log| - 1]), n) == Reversed(log)
  {
    hide *;
    RunHistory(start, steps, key);
    RunOrigin(start, steps, key);
    TrailFromTip(TableOf(Reached(start, steps).value), key, Log(start, steps, key), n);
  }
}
