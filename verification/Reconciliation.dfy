/** The counting classifier of packages/database-reconciliation/src/reconciliation-engine.ts. */
module Reconciliation {
  import opened Wrappers

  /** A schema object, canonical or live. `definition` and `hash` stand for its normalized definition and that
      definition's hash, `evidenced` for whether the definition says enough to be compared. */
  datatype SchemaObject = SchemaObject(objectType: string, schemaName: string, objectName: string, parent: string,
                                       definition: string, hash: string, evidenced: bool)

  datatype Manifest = Manifest(id: string, objects: seq<SchemaObject>, highLockRisk: bool)

  const TABLE_SCOPED := {"column", "primary_key", "foreign_key", "unique_constraint", "check_constraint", "index",
                         "trigger", "policy", "comment", "row_level_security"}

  function MakeKey(o: SchemaObject): string {
    o.objectType + ":" + o.schemaName + ":" + o.parent + ":" + o.objectName
  }

  // ---------------------------------------------------------------- comparing

  datatype Comparison = Exact | Mismatched | Unknown

  function CompareObjects(canonical: SchemaObject, live: SchemaObject): Comparison {
    if MakeKey(canonical) != MakeKey(live) then Mismatched
    else if !canonical.evidenced || !live.evidenced then Unknown
    else if canonical.definition == live.definition && canonical.hash == live.hash then Exact else Mismatched
  }

  /** The last live object of each key. */
  function ByKey(inventory: seq<SchemaObject>): map<string, SchemaObject>
    decreases |inventory|
  {
    if inventory == [] then map[]
    else ByKey(inventory[..|inventory| - 1])[MakeKey(inventory[|inventory| - 1]) := inventory[|inventory| - 1]]
  }

  lemma {:induction false} ByKeyExact(inventory: seq<SchemaObject>)
    ensures forall key :: key in ByKey(inventory) <==> exists live :: live in inventory && MakeKey(live) == key
    ensures forall key :: key in ByKey(inventory) ==> ByKey(inventory)[key] in inventory && MakeKey(ByKey(inventory)[key]) == key
    decreases |inventory|
  {
    if inventory != [] {
      var init, last := inventory[..|inventory| - 1], inventory[|inventory| - 1];
      assert inventory == init + [last];
      ByKeyExact(init);
    }
  }

  /** The outcome for one canonical object. */
  datatype Judgement = Missing | Compared(result: Comparison)

  function Judge(inventory: seq<SchemaObject>, o: SchemaObject): Judgement {
    if MakeKey(o) in ByKey(inventory) then Compared(CompareObjects(o, ByKey(inventory)[MakeKey(o)])) else Missing
  }

  // ---------------------------------------------------------------- scope

  function TableScopeName(o: SchemaObject): Option<string> {
    if o.objectType !in TABLE_SCOPED then None
    else if o.parent != "" then Some(o.parent)
    else if o.objectType == "comment" || o.objectType == "row_level_security" then Some(o.objectName)
    else None
  }

  /** The tables a manifest object puts in scope. */
  function TablesOf(o: SchemaObject): set<string> {
    (if o.objectType == "table" then {o.objectName} else {})
    + (match TableScopeName(o) case None => {} case Some(name) => if name == "" then {} else {name})
  }

  /** A table is put in scope by itself, by what hangs below it, and by comments and row-level security
      that name it without a parent; an empty name only by a table. */
  lemma TablesExact(o: SchemaObject, name: string)
    ensures name in TablesOf(o) <==>
      || (o.objectType == "table" && name == o.objectName)
      || (name != "" && o.objectType in TABLE_SCOPED && name == o.parent)
      || (name != "" && o.objectType in {"comment", "row_level_security"} && o.parent == "" && name == o.objectName)
  {
  }

  ghost predicate InTables(objects: seq<SchemaObject>, name: string) {
    exists o :: o in objects && name in TablesOf(o)
  }

  method CollectCanonicalTables(manifest: Manifest) returns (tables: set<string>)
    ensures forall name :: name in tables <==> InTables(manifest.objects, name)
  {
    tables := {};
    var i := 0;
    while i < |manifest.objects|
      invariant 0 <= i <= |manifest.objects|
      invariant forall name :: name in tables <==> InTables(manifest.objects[..i], name)
    {
      var canonical := manifest.objects[i];
      ghost var before := tables;
      if canonical.objectType == "table" {
        tables := tables + {canonical.objectName};
      }
      var tableName := TableScopeName(canonical);
      if tableName.Some? && tableName.value != "" {
        tables := tables + {tableName.value};
      }
      assert tables == before + TablesOf(canonical);
      assert manifest.objects[..i + 1] == manifest.objects[..i] + [canonical];
      i := i + 1;
    }
    assert manifest.objects[..i] == manifest.objects;
  }

  ghost predicate Keyed(objects: seq<SchemaObject>, key: string) {
    exists o :: o in objects && MakeKey(o) == key
  }

  /** A live object in the scope of the manifest's tables that neither the manifest nor the known canonical
      objects account for. */
  ghost predicate IsExtra(manifest: Manifest, known: seq<SchemaObject>, live: SchemaObject) {
    && !Keyed(manifest.objects, MakeKey(live)) && !Keyed(known, MakeKey(live))
    && TableScopeName(live).Some? && InTables(manifest.objects, TableScopeName(live).value)
  }

  // ---------------------------------------------------------------- deciding

  datatype Tally = Tally(total: nat, exact: nat, missing: nat, mismatched: nat, unknown: nat, extra: nat)

  datatype Ledger = Recorded | NotRecorded | UnknownLedger

  datatype Classification =
    | AlreadyAppliedAndRecorded | AlreadyAppliedNotRecorded | Blocked | PartiallyApplied | SchemaDrift | NotApplied

  datatype SchemaStatus = ExactSchema | UnknownSchema | Partial | Drift | Absent

  datatype Action = ManualReview | BaselineLedgerOnly | Block | CreateCorrectiveMigration | EligibleForApplication

  datatype Risk = Low | Moderate | High | Critical

  datatype Verdict = Verdict(ledger: Ledger, status: SchemaStatus, classification: Classification, action: Action, risk: Risk)

  /** The decision chain at the end of `reconcileMigration`; its last branch is the fallback. */
  function Decide(t: Tally, ledger: Ledger, highLockRisk: bool): Verdict {
    var exact := t.exact == t.total && t.mismatched == 0 && t.missing == 0 && t.extra == 0 && t.unknown == 0;
    var absent := t.exact == 0 && t.missing == t.total && t.mismatched == 0 && t.extra == 0;
    var partial := t.missing > 0 && !absent;
    var drift := t.missing == 0 && t.unknown == 0 && (t.mismatched > 0 || t.extra > 0);
    if exact && ledger == Recorded then Verdict(ledger, ExactSchema, AlreadyAppliedAndRecorded, ManualReview, Low)
    else if exact then Verdict(ledger, ExactSchema, AlreadyAppliedNotRecorded, BaselineLedgerOnly, Low)
    else if t.unknown > 0 then Verdict(ledger, UnknownSchema, Blocked, Block, Critical)
    else if partial then Verdict(ledger, Partial, PartiallyApplied, CreateCorrectiveMigration, High)
    else if drift then Verdict(ledger, Drift, SchemaDrift, ManualReview, Critical)
    else if absent then Verdict(ledger, Absent, NotApplied, EligibleForApplication, if highLockRisk then High else Moderate)
    else Verdict(ledger, UnknownSchema, Blocked, Block, Critical)
  }

  predicate Sums(t: Tally) {
    t.exact + t.missing + t.mismatched + t.unknown == t.total
  }

  /** When the counts add up the fallback is not reached: a migration is blocked exactly for objects that
      lack evidence. */
  lemma FallbackUnreachable(t: Tally, ledger: Ledger, highLockRisk: bool)
    requires Sums(t)
    ensures Decide(t, ledger, highLockRisk).classification == Blocked <==> t.unknown > 0
  {
  }

  // ---------------------------------------------------------------- the method

  function Count(inventory: seq<SchemaObject>, objects: seq<SchemaObject>, j: Judgement): nat
    decreases |objects|
  {
    if objects == [] then 0
    else Count(inventory, objects[..|objects| - 1], j) + (if Judge(inventory, objects[|objects| - 1]) == j then 1 else 0)
  }

  ghost function ExtraCount(manifest: Manifest, known: seq<SchemaObject>, live: seq<SchemaObject>): nat
    decreases |live|
  {
    if live == [] then 0
    else ExtraCount(manifest, known, live[..|live| - 1]) + (if IsExtra(manifest, known, live[|live| - 1]) then 1 else 0)
  }

  function LedgerOf(manifest: Manifest, recorded: seq<string>): Ledger {
    if manifest.id in recorded then Recorded else if |recorded| > 0 then NotRecorded else UnknownLedger
  }

  ghost function TallyOf(manifest: Manifest, inventory: seq<SchemaObject>, known: seq<SchemaObject>): Tally {
    Tally(|manifest.objects|, Count(inventory, manifest.objects, Compared(Exact)), Count(inventory, manifest.objects, Missing),
          Count(inventory, manifest.objects, Compared(Mismatched)), Count(inventory, manifest.objects, Compared(Unknown)),
          ExtraCount(manifest, known, inventory))
  }

  /** What the evidence reports about an object. */
  datatype Remark = IsMissing(o: SchemaObject) | LacksEvidence(o: SchemaObject) | Differs(o: SchemaObject) | Unexpected(o: SchemaObject)

  /** The remark states the outcome of its object's comparison. */
  predicate Remarks(inventory: seq<SchemaObject>, r: Remark) {
    match Judge(inventory, r.o)
    case Missing => r == IsMissing(r.o)
    case Compared(Unknown) => r == LacksEvidence(r.o)
    case Compared(Mismatched) => r == Differs(r.o)
    case Compared(Exact) => false
  }

  method CollectKeys(objects: seq<SchemaObject>) returns (keys: set<string>)
    ensures forall key :: key in keys <==> Keyed(objects, key)
  {
    keys := set o | o in objects :: MakeKey(o);
  }

  method TallyManifest(manifest: Manifest, inventory: seq<SchemaObject>) returns (t: Tally, evidence: seq<Remark>)
    ensures t == Tally(|manifest.objects|, Count(inventory, manifest.objects, Compared(Exact)),
                       Count(inventory, manifest.objects, Missing), Count(inventory, manifest.objects, Compared(Mismatched)),
                       Count(inventory, manifest.objects, Compared(Unknown)), 0)
    ensures Sums(t) && |evidence| == t.total - t.exact
    ensures forall r :: r in evidence ==> r.o in manifest.objects && Remarks(inventory, r)
  {
    hide ByKey, MakeKey, CompareObjects;
    var byKey := ByKey(inventory);
    t, evidence := Tally(|manifest.objects|, 0, 0, 0, 0, 0), [];
    var i := 0;
    while i < |manifest.objects|
      invariant 0 <= i <= |manifest.objects| && t.total == |manifest.objects| && t.extra == 0
      invariant t.exact == Count(inventory, manifest.objects[..i], Compared(Exact))
      invariant t.missing == Count(inventory, manifest.objects[..i], Missing)
      invariant t.mismatched == Count(inventory, manifest.objects[..i], Compared(Mismatched))
      invariant t.unknown == Count(inventory, manifest.objects[..i], Compared(Unknown))
      invariant t.exact + t.missing + t.mismatched + t.unknown == i && |evidence| == i - t.exact
      invariant forall r :: r in evidence ==> r.o in manifest.objects && Remarks(inventory, r)
    {
      var canonical := manifest.objects[i];
      assert manifest.objects[..i + 1][..i] == manifest.objects[..i];
      i := i + 1;
      if MakeKey(canonical) !in byKey {
        t := t.(missing := t.missing + 1);
        evidence := evidence + [IsMissing(canonical)];
        continue;
      }
      var comparison := CompareObjects(canonical, byKey[MakeKey(canonical)]);
      if comparison == Exact {
        t := t.(exact := t.exact + 1);
        continue;
      }
      if comparison == Unknown {
        t := t.(unknown := t.unknown + 1);
        evidence := evidence + [LacksEvidence(canonical)];
        continue;
      }
      t := t.(mismatched := t.mismatched + 1);
      evidence := evidence + [Differs(canonical)];
    }
    assert manifest.objects[..i] == manifest.objects;
  }

  method TallyExtras(manifest: Manifest, inventory: seq<SchemaObject>, known: seq<SchemaObject>)
    returns (extra: nat, evidence: seq<Remark>)
    ensures extra == ExtraCount(manifest, known, inventory) == |evidence|
    ensures forall r :: r in evidence ==> r.Unexpected? && r.o in inventory && IsExtra(manifest, known, r.o)
  {
    hide MakeKey, TableScopeName, InTables, Keyed;
    var manifestKeys := CollectKeys(manifest.objects);
    var knownKeys := CollectKeys(known);
    var tables := CollectCanonicalTables(manifest);
    extra, evidence := 0, [];
    var i := 0;
    while i < |inventory|
      invariant 0 <= i <= |inventory| && extra == ExtraCount(manifest, known, inventory[..i]) == |evidence|
      invariant forall r :: r in evidence ==> r.Unexpected? && r.o in inventory && IsExtra(manifest, known, r.o)
    {
      var live := inventory[i];
      assert inventory[..i + 1][..i] == inventory[..i];
      i := i + 1;
      if MakeKey(live) in manifestKeys || MakeKey(live) in knownKeys {
        continue;
      }
      var tableName := TableScopeName(live);
      if tableName.None? || tableName.value !in tables {
        continue;
      }
      extra := extra + 1;
      evidence := evidence + [Unexpected(live)];
    }
    assert inventory[..i] == inventory;
  }

  /** `reconcileMigration`: the verdict, and the remarks its loops collect. */
  method ReconcileMigration(manifest: Manifest, inventory: seq<SchemaObject>, recorded: seq<string>,
          known: seq<SchemaObject>)
    returns (v: Verdict, remarks: seq<Remark>)
    ensures v == Decide(TallyOf(manifest, inventory, known), LedgerOf(manifest, recorded), manifest.highLockRisk)
    ensures Sums(TallyOf(manifest, inventory, known))
    ensures |remarks| == |manifest.objects| - Count(inventory, manifest.objects, Compared(Exact)) + ExtraCount(manifest, known, inventory)
  {
    var t, found := TallyManifest(manifest, inventory);
    var extra, unexpected := TallyExtras(manifest, inventory, known);
    v := Decide(t.(extra := extra), LedgerOf(manifest, recorded), manifest.highLockRisk);
    remarks := found + unexpected;
  }

  // ---------------------------------------------------------------- what a classification means

  lemma CountLast(inventory: seq<SchemaObject>, objects: seq<SchemaObject>, j: Judgement)
    requires objects != []
    ensures Count(inventory, objects, j)
         == Count(inventory, objects[..|objects| - 1], j) + if Judge(inventory, objects[|objects| - 1]) == j then 1 else 0
  {
  }

  lemma {:induction false} CountExact(inventory: seq<SchemaObject>, objects: seq<SchemaObject>, j: Judgement)
    ensures Count(inventory, objects, j) <= |objects|
    ensures Count(inventory, objects, j) == |objects| <==> forall o :: o in objects ==> Judge(inventory, o) == j
    ensures Count(inventory, objects, j) == 0 <==> forall o :: o in objects ==> Judge(inventory, o) != j
    decreases |objects|
  {
    if objects != [] {
      hide Judge;
      var init, last := objects[..|objects| - 1], objects[|objects| - 1];
      assert objects == init + [last];
      CountExact(inventory, init, j);
      CountLast(inventory, objects, j);
      hide Count;
      assert forall o :: o in objects <==> o in init || o == last;
    }
  }

  lemma {:induction false} ExtraCountExact(manifest: Manifest, known: seq<SchemaObject>, live: seq<SchemaObject>)
    ensures ExtraCount(manifest, known, live) == 0 <==> forall o :: o in live ==> !IsExtra(manifest, known, o)
    decreases |live|
  {
    if live != [] {
      hide IsExtra;
      var init, last := live[..|live| - 1], live[|live| - 1];
      assert live == init + [last];
      ExtraCountExact(manifest, known, init);
    }
  }

  lemma {:induction false} CountsSum(inventory: seq<SchemaObject>, objects: seq<SchemaObject>)
    ensures Count(inventory, objects, Compared(Exact)) + Count(inventory, objects, Missing)
            + Count(inventory, objects, Compared(Mismatched)) + Count(inventory, objects, Compared(Unknown)) == |objects|
    decreases |objects|
  {
    if objects != [] {
      CountsSum(inventory, objects[..|objects| - 1]);
    }
  }

  ghost predicate Every(manifest: Manifest, inventory: seq<SchemaObject>, j: Judgement) {
    forall o :: o in manifest.objects ==> Judge(inventory, o) == j
  }

  ghost predicate Nowhere(manifest: Manifest, inventory: seq<SchemaObject>, j: Judgement) {
    forall o :: o in manifest.objects ==> Judge(inventory, o) != j
  }

  ghost predicate NoExtra(manifest: Manifest, inventory: seq<SchemaObject>, known: seq<SchemaObject>) {
    forall live :: live in inventory ==> !IsExtra(manifest, known, live)
  }

  /** Each classification in terms of the objects themselves. The six conditions exclude each other and
      leave nothing out, the empty manifest included. */
  lemma ClassificationExact(manifest: Manifest, inventory: seq<SchemaObject>, recorded: seq<string>,
          known: seq<SchemaObject>)
    ensures var c := Decide(TallyOf(manifest, inventory, known), LedgerOf(manifest, recorded), manifest.highLockRisk).classification;
      var applied := Every(manifest, inventory, Compared(Exact)) && NoExtra(manifest, inventory, known);
      var evidenced := Nowhere(manifest, inventory, Compared(Unknown));
      var absent := manifest.objects != [] && Every(manifest, inventory, Missing) && NoExtra(manifest, inventory, known);
      && (c == AlreadyAppliedAndRecorded <==> applied && manifest.id in recorded)
      && (c == AlreadyAppliedNotRecorded <==> applied && manifest.id !in recorded)
      && (c == Blocked <==> !evidenced)
      && (c == PartiallyApplied <==> evidenced && !Nowhere(manifest, inventory, Missing) && !absent)
      && (c == SchemaDrift <==> evidenced && Nowhere(manifest, inventory, Missing) && !applied)
      && (c == NotApplied <==> absent)
  {
    hide Judge, IsExtra, Count, ExtraCount;
    CountsSum(inventory, manifest.objects);
    CountExact(inventory, manifest.objects, Compared(Exact));
    CountExact(inventory, manifest.objects, Missing);
    CountExact(inventory, manifest.objects, Compared(Unknown));
    CountExact(inventory, manifest.objects, Compared(Mismatched));
    ExtraCountExact(manifest, known, inventory);
    CountsAre(manifest, inventory, known);
  }

  lemma CountsAre(manifest: Manifest, inventory: seq<SchemaObject>, known: seq<SchemaObject>)
    ensures var t := TallyOf(manifest, inventory, known);
      (t.missing == t.total <==> Every(manifest, inventory, Missing)) && (t.exact == t.total <==> Every(manifest, inventory, Compared(Exact)))
  {
    CountExact(inventory, manifest.objects, Compared(Exact));
    CountExact(inventory, manifest.objects, Missing);
  }

  /** An object counts as exact only against the live object of its own key, with evidence on both sides. */
  lemma ExactMeansSameDefinition(inventory: seq<SchemaObject>, o: SchemaObject)
    ensures Judge(inventory, o) == Compared(Exact) ==>
              exists live :: live in inventory && MakeKey(live) == MakeKey(o) && live.evidenced && o.evidenced
                             && live.definition == o.definition && live.hash == o.hash
    ensures Judge(inventory, o) == Missing <==> !Keyed(inventory, MakeKey(o))
  {
    ByKeyExact(inventory);
    if MakeKey(o) in ByKey(inventory) {
      var live := ByKey(inventory)[MakeKey(o)];
      assert live in inventory && MakeKey(live) == MakeKey(o);
    }
  }

  lemma {:induction false} LastOfKeyIsKept(inventory: seq<SchemaObject>, i: nat)
    requires i < |inventory| && forall j :: i < j < |inventory| ==> MakeKey(inventory[j]) != MakeKey(inventory[i])
    ensures MakeKey(inventory[i]) in ByKey(inventory) && ByKey(inventory)[MakeKey(inventory[i])] == inventory[i]
    decreases |inventory|
  {
    hide MakeKey;
    if i < |inventory| - 1 {
      LastOfKeyIsKept(inventory[..|inventory| - 1], i);
    }
  }

  /** Against the last live object of its key, an object is exact when both say enough and agree in definition
      and hash, unknown when either says too little, and mismatched otherwise. */
  lemma JudgeExact(inventory: seq<SchemaObject>, o: SchemaObject, i: nat)
    requires i < |inventory| && MakeKey(inventory[i]) == MakeKey(o)
    requires forall j :: i < j < |inventory| ==> MakeKey(inventory[j]) != MakeKey(o)
    ensures var live, j := inventory[i], Judge(inventory, o);
      var evidenced, same := o.evidenced && live.evidenced, o.definition == live.definition && o.hash == live.hash;
      && (j == Compared(Exact) <==> evidenced && same)
      && (j == Compared(Unknown) <==> !evidenced)
      && (j == Compared(Mismatched) <==> evidenced && !same)
  {
    LastOfKeyIsKept(inventory, i);
  }

  predicate NoColon(s: string) {
    ':' !in s
  }

  lemma ColonEndsFirstPart(x: string, s: string, y: string, t: string)
    requires NoColon(y)
    ensures |x| < |y| ==> x + ":" + s != y + ":" + t
  {
    if |x| < |y| {
      assert (x + ":" + s)[|x|] == ':' && (y + ":" + t)[|x|] == y[|x|];
    }
  }

  lemma SplitAtColon(x: string, s: string, y: string, t: string)
    requires NoColon(x) && NoColon(y) && x + ":" + s == y + ":" + t
    ensures x == y && s == t
  {
    var u, w := x + ":" + s, y + ":" + t;
    ColonEndsFirstPart(x, s, y, t);
    ColonEndsFirstPart(y, t, x, s);
    assert u[..|x|] == x && w[..|y|] == y;
    assert u[|x| + 1..] == s && w[|y| + 1..] == t;
  }

  lemma KeyParts(o: SchemaObject)
    ensures MakeKey(o) == o.objectType + ":" + (o.schemaName + ":" + (o.parent + ":" + o.objectName))
  {
    var inner := o.parent + ":" + o.objectName;
    assert o.objectType + ":" + o.schemaName + ":" + inner == MakeKey(o);
  }

  /** Without colons in type, schema and parent, a key names one object: equal keys mean equal parts. */
  lemma KeysSeparate(a: SchemaObject, b: SchemaObject)
    requires NoColon(a.objectType) && NoColon(a.schemaName) && NoColon(a.parent)
    requires NoColon(b.objectType) && NoColon(b.schemaName) && NoColon(b.parent)
    ensures MakeKey(a) == MakeKey(b)
       <==> a.objectType == b.objectType && a.schemaName == b.schemaName && a.parent == b.parent && a.objectName == b.objectName
  {
    hide MakeKey, NoColon;
    KeyParts(a);
    KeyParts(b);
    if MakeKey(a) == MakeKey(b) {
      var restA, restB := a.parent + ":" + a.objectName, b.parent + ":" + b.objectName;
      SplitAtColon(a.objectType, a.schemaName + ":" + restA, b.objectType, b.schemaName + ":" + restB);
      SplitAtColon(a.schemaName, restA, b.schemaName, restB);
      SplitAtColon(a.parent, a.objectName, b.parent, b.objectName);
    }
  }

  /** What is recommended, in terms of the objects: applying a migration only when none of its objects exist
      and nothing unexpected does, baselining only when everything is exact and unrecorded, a corrective
      migration only for partial application, blocking only for missing evidence. The risk is low exactly when
      the schema is exact, and critical exactly when it is unknown or drifts. */
  lemma RecommendationExact(manifest: Manifest, inventory: seq<SchemaObject>, recorded: seq<string>, known: seq<SchemaObject>)
    ensures var v := Decide(TallyOf(manifest, inventory, known), LedgerOf(manifest, recorded), manifest.highLockRisk);
      var applied := Every(manifest, inventory, Compared(Exact)) && NoExtra(manifest, inventory, known);
      var evidenced := Nowhere(manifest, inventory, Compared(Unknown));
      var absent := manifest.objects != [] && Every(manifest, inventory, Missing) && NoExtra(manifest, inventory, known);
      var complete := Nowhere(manifest, inventory, Missing);
      && (v.action == EligibleForApplication <==> absent)
      && (v.action == BaselineLedgerOnly <==> applied && manifest.id !in recorded)
      && (v.action == Block <==> !evidenced)
      && (v.action == CreateCorrectiveMigration <==> evidenced && !complete && !absent)
      && (v.action == ManualReview <==> evidenced && complete && (applied ==> manifest.id in recorded))
      && (v.risk == Low <==> applied) && (v.risk == Critical <==> !evidenced || (complete && !applied))
      && (v.risk == Moderate <==> absent && !manifest.highLockRisk)
      && (v.status == ExactSchema <==> applied) && (v.status == UnknownSchema <==> !evidenced)
      && (v.status == Absent <==> absent)
      && (v.ledger == Recorded <==> manifest.id in recorded) && (v.ledger == UnknownLedger <==> recorded == [])
  {
    var t, ledger := TallyOf(manifest, inventory, known), LedgerOf(manifest, recorded);
    ClassificationExact(manifest, inventory, recorded, known);
    DecisionParts(t, ledger, manifest.highLockRisk);
    hide Decide, Every, Nowhere, NoExtra, TallyOf;
  }

  /** Status, action and risk follow the classification. */
  lemma DecisionParts(t: Tally, ledger: Ledger, highLockRisk: bool)
    ensures var v := Decide(t, ledger, highLockRisk);
      && v.ledger == ledger
      && match v.classification {
           case AlreadyAppliedAndRecorded => v.status == ExactSchema && v.action == ManualReview && v.risk == Low
           case AlreadyAppliedNotRecorded => v.status == ExactSchema && v.action == BaselineLedgerOnly && v.risk == Low
           case Blocked => v.status == UnknownSchema && v.action == Block && v.risk == Critical
           case PartiallyApplied => v.status == Partial && v.action == CreateCorrectiveMigration && v.risk == High
           case SchemaDrift => v.status == Drift && v.action == ManualReview && v.risk == Critical
           case NotApplied =>
             v.status == Absent && v.action == EligibleForApplication && v.risk == (if highLockRisk then High else Moderate)
         }
  {
  }
}
