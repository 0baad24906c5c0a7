/** What a successful canonicalization means, stated on values alone: the traversal succeeds
    exactly for the values that unfold to a finite tree, and it returns that tree. */
module CanonicalMeaning {
  import opened Wrappers
  import opened Texts
  import opened Fields
  import opened CanonicalNode

  /** The value, followed through the object graph and normalized, is the tree t. This says nothing
      about ancestors, visiting order or the order in which properties were created. */
  ghost predicate Unfolds(heap: Heap, platform: Platform, v: Value, t: Canon)
    decreases t, 0
  {
    match t
    case CArray(ts) =>
      && v.Ref? && v.id in heap && heap[v.id].Array? && Acceptable(heap[v.id])
      && |heap[v.id].slots| == |ts|
      && forall i: nat :: i < |ts| ==> ItemUnfolds(heap, platform, heap[v.id].slots[i], ts[i])
    case CObject(fs) =>
      && v.Ref? && v.id in heap && heap[v.id].Plain? && Acceptable(heap[v.id])
      && KeysDistinct(Renamed(platform, heap[v.id].properties))
      && StrictlySorted(fs)
      && (forall p :: p in heap[v.id].properties ==> AmongFields(heap, platform, p, fs))
      && (forall f :: f in fs ==> AmongProperties(heap, platform, heap[v.id].properties, f))
    case _ => Denotes(platform, v, t)
  }

  ghost predicate ItemUnfolds(heap: Heap, platform: Platform, slot: Option<Slot>, t: Canon)
    decreases t, 1
  {
    slot.Some? && slot.value.Data? && Unfolds(heap, platform, slot.value.value, t)
  }

  ghost predicate FieldUnfolds(heap: Heap, platform: Platform, p: (Text, Slot), f: (Text, Canon))
    decreases f, 1
  {
    f.0 == platform.nfc(p.0) && p.1.Data? && Unfolds(heap, platform, p.1.value, f.1)
  }

  ghost predicate AmongFields(heap: Heap, platform: Platform, p: (Text, Slot), fs: seq<(Text, Canon)>)
    decreases fs, 2
  {
    exists f :: f in fs && FieldUnfolds(heap, platform, p, f)
  }

  ghost predicate AmongProperties(heap: Heap, platform: Platform, properties: seq<(Text, Slot)>, f: (Text, Canon))
    decreases f, 2
  {
    exists p :: p in properties && FieldUnfolds(heap, platform, p, f)
  }

  // ---------------------------------------------------------------- success gives the tree

  lemma {:induction false} NodeUnfolds(heap: Heap, platform: Platform, v: Value, ancestors: set<nat>)
    requires Closed(heap) && Within(heap, v) && Node(heap, platform, v, ancestors).Ok?
    ensures Unfolds(heap, platform, v, Node(heap, platform, v, ancestors).value)
    decreases heap.Keys - ancestors, 0, 0
  {
    if v.Ref? {
      assert v.id in heap.Keys - ancestors;
      match heap[v.id]
      case Array(_, _, slots) =>
        ItemsUnfold(heap, platform, slots, ancestors + {v.id});
      case Plain(_, properties) =>
        EntriesWithin(heap, platform, v.id);
        var entries := NormalizedEntries(platform, properties);
        EntriesUnfold(heap, platform, entries, None, ancestors + {v.id});
        FieldsUnfold(heap, platform, v.id, Entries(heap, platform, entries, None, ancestors + {v.id}).value);
    }
  }

  lemma {:induction false} ItemsUnfold(heap: Heap, platform: Platform, slots: seq<Option<Slot>>, ancestors: set<nat>)
    requires Closed(heap)
    requires forall s: Slot :: Some(s) in slots ==> s.Data? && SlotWithin(heap, s)
    requires Items(heap, platform, slots, ancestors).Ok?
    ensures var ts := Items(heap, platform, slots, ancestors).value;
      |ts| == |slots| && forall i: nat :: i < |ts| ==> ItemUnfolds(heap, platform, slots[i], ts[i])
    decreases heap.Keys - ancestors, 1, |slots|
  {
    if slots != [] {
      assert slots[0] in slots && slots[0] == Some(slots[0].value);
      NodeUnfolds(heap, platform, slots[0].value.value, ancestors);
      ItemsUnfold(heap, platform, slots[1..], ancestors);
      var ts := Items(heap, platform, slots, ancestors).value;
      assert ts[1..] == Items(heap, platform, slots[1..], ancestors).value;
      forall i: nat | i < |ts| ensures ItemUnfolds(heap, platform, slots[i], ts[i]) {
        if i > 0 {
          assert ItemUnfolds(heap, platform, slots[1..][i - 1], ts[1..][i - 1]);
        }
      }
    }
  }

  ghost predicate EntryUnfolds(heap: Heap, platform: Platform, e: (Text, Value), f: (Text, Canon)) {
    f.0 == e.0 && Unfolds(heap, platform, e.1, f.1)
  }

  lemma {:induction false} EntriesUnfold(heap: Heap, platform: Platform, entries: seq<(Text, Value)>,
          previous: Option<Text>, ancestors: set<nat>)
    requires Closed(heap) && forall f :: f in entries ==> Within(heap, f.1)
    requires Entries(heap, platform, entries, previous, ancestors).Ok?
    requires KeysAscend(entries) && (previous.Some? && entries != [] ==> AtMost(previous.value, entries[0].0))
    ensures var fs := Entries(heap, platform, entries, previous, ancestors).value;
      && |fs| == |entries|
      && (forall i: nat :: i < |fs| ==> EntryUnfolds(heap, platform, entries[i], fs[i]))
      && StrictlySorted(fs)
      && (previous.Some? ==> forall f :: f in fs ==> Below(previous.value, f.0))
    decreases heap.Keys - ancestors, 1, |entries|
  {
    if entries != [] {
      var rest := entries[1..];
      var key := entries[0].0;
      assert entries == [entries[0]] + rest;
      assert forall i: nat :: i < |rest| ==> rest[i] == entries[i + 1];
      NodeUnfolds(heap, platform, entries[0].1, ancestors);
      EntriesUnfold(heap, platform, rest, Some(key), ancestors);
      var tail := Entries(heap, platform, rest, Some(key), ancestors).value;
      var head := (key, Node(heap, platform, entries[0].1, ancestors).value);
      StrictCons(head, tail);
      forall i: nat | i < |[head] + tail| ensures EntryUnfolds(heap, platform, entries[i], ([head] + tail)[i]) {
        if i > 0 {
          assert EntryUnfolds(heap, platform, rest[i - 1], tail[i - 1]);
        }
      }
      if previous.Some? {
        forall f | f in tail ensures Below(previous.value, f.0) {
          BelowTransitive(previous.value, key, f.0);
        }
      }
    }
  }

  lemma FieldsUnfold(heap: Heap, platform: Platform, r: nat, fs: seq<(Text, Canon)>)
    requires r in heap && heap[r].Plain? && ObjectDefect(heap[r]).None? && StrictlySorted(fs)
    requires var entries := NormalizedEntries(platform, heap[r].properties);
      |fs| == |entries| && forall i: nat :: i < |fs| ==> EntryUnfolds(heap, platform, entries[i], fs[i])
    ensures Unfolds(heap, platform, Ref(r), CObject(fs))
  {
    var properties := heap[r].properties;
    var entries := NormalizedEntries(platform, properties);
    assert StrictlySorted(entries) by {
      forall i: nat, j: nat | i < j < |entries| ensures Below(entries[i].0, entries[j].0) {
        assert EntryUnfolds(heap, platform, entries[i], fs[i]) && EntryUnfolds(heap, platform, entries[j], fs[j]);
        assert Below(fs[i].0, fs[j].0);
      }
    }
    AscendingDistinctIsStrict(entries);
    KeysDistinctPermuted(entries, Renamed(platform, properties));
    forall p | p in properties ensures AmongFields(heap, platform, p, fs) {
      EntriesAre(platform, properties, (platform.nfc(p.0), p.1.value));
      var i: nat :| i < |entries| && entries[i] == (platform.nfc(p.0), p.1.value);
      assert EntryUnfolds(heap, platform, entries[i], fs[i]);
      assert fs[i] in fs && FieldUnfolds(heap, platform, p, fs[i]);
    }
    forall f | f in fs ensures AmongProperties(heap, platform, properties, f) {
      var i: nat :| i < |fs| && fs[i] == f;
      assert EntryUnfolds(heap, platform, entries[i], fs[i]);
      assert entries[i] in entries;
      EntriesAre(platform, properties, entries[i]);
      var p :| p in properties && entries[i] == (platform.nfc(p.0), p.1.value);
      assert FieldUnfolds(heap, platform, p, f);
    }
  }

  // ---------------------------------------------------------------- the tree is unique

  lemma {:induction false} UnfoldsUnique(heap: Heap, platform: Platform, v: Value, s: Canon, t: Canon)
    requires Unfolds(heap, platform, v, s) && Unfolds(heap, platform, v, t)
    ensures s == t
    decreases s
  {
    if s.CArray? {
      assert t.CArray?;
      forall i: nat | i < |s.items| ensures s.items[i] == t.items[i] {
        assert ItemUnfolds(heap, platform, heap[v.id].slots[i], s.items[i]);
        assert ItemUnfolds(heap, platform, heap[v.id].slots[i], t.items[i]);
        UnfoldsUnique(heap, platform, heap[v.id].slots[i].value.value, s.items[i], t.items[i]);
      }
    } else if s.CObject? {
      assert t.CObject?;
      forall f ensures f in s.fields <==> f in t.fields {
        if f in s.fields {
          var p := PropertyOf(heap, platform, v, s, f);
          var g := FieldOf(heap, platform, v, t, p);
          UnfoldsUnique(heap, platform, p.1.value, f.1, g.1);
        }
        if f in t.fields {
          var p := PropertyOf(heap, platform, v, t, f);
          var g := FieldOf(heap, platform, v, s, p);
          UnfoldsUnique(heap, platform, p.1.value, g.1, f.1);
        }
      }
      assert StrictlySorted(s.fields) && StrictlySorted(t.fields);
      StrictlySortedUnique(s.fields, t.fields);
    }
  }

  lemma PropertyOf(heap: Heap, platform: Platform, v: Value, t: Canon, f: (Text, Canon)) returns (p: (Text, Slot))
    requires t.CObject? && Unfolds(heap, platform, v, t) && f in t.fields
    ensures p in heap[v.id].properties && FieldUnfolds(heap, platform, p, f)
  {
    assert AmongProperties(heap, platform, heap[v.id].properties, f);
    p :| p in heap[v.id].properties && FieldUnfolds(heap, platform, p, f);
  }

  lemma FieldOf(heap: Heap, platform: Platform, v: Value, t: Canon, p: (Text, Slot)) returns (f: (Text, Canon))
    requires t.CObject? && Unfolds(heap, platform, v, t) && p in heap[v.id].properties
    ensures f in t.fields && FieldUnfolds(heap, platform, p, f)
  {
    assert AmongFields(heap, platform, p, t.fields);
    f :| f in t.fields && FieldUnfolds(heap, platform, p, f);
  }

  // ---------------------------------------------------------------- the tree gives success

  function Size(t: Canon): nat {
    match t
    case CArray(ts) => 1 + ItemsSize(ts)
    case CObject(fs) => 1 + FieldsSize(fs)
    case _ => 0
  }

  function ItemsSize(ts: seq<Canon>): nat {
    if ts == [] then 0 else 1 + Size(ts[0]) + ItemsSize(ts[1..])
  }

  function FieldsSize(fs: seq<(Text, Canon)>): nat {
    if fs == [] then 0 else 1 + FieldSize(fs[0]) + FieldsSize(fs[1..])
  }

  function FieldSize(f: (Text, Canon)): nat {
    Size(f.1)
  }

  lemma {:induction false} ItemIsSmaller(ts: seq<Canon>, i: nat)
    requires i < |ts|
    ensures Size(ts[i]) < ItemsSize(ts)
  {
    if i > 0 {
      ItemIsSmaller(ts[1..], i - 1);
    }
  }

  lemma {:induction false} FieldIsSmaller(fs: seq<(Text, Canon)>, f: (Text, Canon))
    requires f in fs
    ensures Size(f.1) < FieldsSize(fs)
  {
    if f != fs[0] {
      assert fs == [fs[0]] + fs[1..];
      FieldIsSmaller(fs[1..], f);
    }
  }

  /** Every ancestor unfolds to a larger tree than the one at hand; so none of them is met again. */
  ghost predicate Above(heap: Heap, platform: Platform, ancestors: set<nat>, size: nat) {
    forall a :: a in ancestors ==> exists t :: Unfolds(heap, platform, Ref(a), t) && Size(t) > size
  }

  lemma NotItsOwnAncestor(heap: Heap, platform: Platform, r: nat, t: Canon, ancestors: set<nat>)
    requires Unfolds(heap, platform, Ref(r), t) && Above(heap, platform, ancestors, Size(t))
    ensures r !in ancestors
  {
    if r in ancestors {
      var u :| Unfolds(heap, platform, Ref(r), u) && Size(u) > Size(t);
      UnfoldsUnique(heap, platform, Ref(r), t, u);
      assert false;
    }
  }

  lemma AboveGrows(heap: Heap, platform: Platform, r: nat, t: Canon, ancestors: set<nat>, size: nat)
    requires Unfolds(heap, platform, Ref(r), t) && Above(heap, platform, ancestors, Size(t)) && size < Size(t)
    ensures Above(heap, platform, ancestors + {r}, size)
  {
    forall a | a in ancestors + {r} ensures exists u :: Unfolds(heap, platform, Ref(a), u) && Size(u) > size {
      if a != r {
        var u :| Unfolds(heap, platform, Ref(a), u) && Size(u) > Size(t);
        assert Size(u) > size;
      }
    }
  }

  lemma {:induction false} NodeComplete(heap: Heap, platform: Platform, v: Value, t: Canon, ancestors: set<nat>)
    requires Closed(heap) && Within(heap, v) && Unfolds(heap, platform, v, t) && Above(heap, platform, ancestors, Size(t))
    ensures Node(heap, platform, v, ancestors) == Ok(t)
    decreases Size(t), 0
  {
    if v.Ref? {
      NotItsOwnAncestor(heap, platform, v.id, t, ancestors);
      AboveGrows(heap, platform, v.id, t, ancestors, Size(t) - 1);
      if t.CArray? {
        ItemsComplete(heap, platform, heap[v.id].slots, t.items, ancestors + {v.id}, Size(t) - 1);
      } else {
        EntriesWithin(heap, platform, v.id);
        AlignedEntries(heap, platform, v.id, t.fields);
        EntriesComplete(heap, platform, NormalizedEntries(platform, heap[v.id].properties), t.fields, None, ancestors + {v.id}, Size(t) - 1);
      }
    }
  }

  lemma AboveWeaker(heap: Heap, platform: Platform, ancestors: set<nat>, size: nat, smaller: nat)
    requires Above(heap, platform, ancestors, size) && smaller <= size
    ensures Above(heap, platform, ancestors, smaller)
  {
    forall a | a in ancestors ensures exists t :: Unfolds(heap, platform, Ref(a), t) && Size(t) > smaller {
      var t :| Unfolds(heap, platform, Ref(a), t) && Size(t) > size;
    }
  }

  lemma {:induction false} ItemsComplete(heap: Heap, platform: Platform, slots: seq<Option<Slot>>, ts: seq<Canon>,
          ancestors: set<nat>, size: nat)
    requires Closed(heap)
    requires forall s: Slot :: Some(s) in slots ==> s.Data? && SlotWithin(heap, s)
    requires |slots| == |ts| && forall i: nat :: i < |ts| ==> ItemUnfolds(heap, platform, slots[i], ts[i])
    requires ItemsSize(ts) <= size && Above(heap, platform, ancestors, size)
    ensures Items(heap, platform, slots, ancestors) == Ok(ts)
    decreases size, 1, |ts|
  {
    if ts != [] {
      assert ItemUnfolds(heap, platform, slots[0], ts[0]);
      assert slots[0] in slots && slots[0] == Some(slots[0].value);
      AboveWeaker(heap, platform, ancestors, size, Size(ts[0]));
      NodeComplete(heap, platform, slots[0].value.value, ts[0], ancestors);
      forall i: nat | i < |ts[1..]| ensures ItemUnfolds(heap, platform, slots[1..][i], ts[1..][i]) {
        assert ItemUnfolds(heap, platform, slots[i + 1], ts[i + 1]);
      }
      ItemsComplete(heap, platform, slots[1..], ts[1..], ancestors, size);
      assert ts == [ts[0]] + ts[1..];
    }
  }

  lemma AlignedEntries(heap: Heap, platform: Platform, r: nat, fs: seq<(Text, Canon)>)
    requires Unfolds(heap, platform, Ref(r), CObject(fs))
    ensures var entries := NormalizedEntries(platform, heap[r].properties);
      StrictlySorted(entries) && |entries| == |fs| && forall i: nat :: i < |fs| ==> EntryUnfolds(heap, platform, entries[i], fs[i])
  {
    var properties := heap[r].properties;
    var entries := NormalizedEntries(platform, properties);
    EntriesStrict(platform, properties);
    forall e | e in entries ensures EntryAmong(heap, platform, e, fs) {
      EntriesAre(platform, properties, e);
      var p :| p in properties && e == (platform.nfc(p.0), p.1.value);
      var f := FieldOf(heap, platform, Ref(r), CObject(fs), p);
      assert EntryUnfolds(heap, platform, e, f);
    }
    forall f | f in fs ensures HasKey(entries, f.0) {
      var p := PropertyOf(heap, platform, Ref(r), CObject(fs), f);
      EntriesAre(platform, properties, (platform.nfc(p.0), p.1.value));
    }
    EntriesAlign(heap, platform, entries, fs);
  }

  ghost predicate EntryAmong(heap: Heap, platform: Platform, e: (Text, Value), fs: seq<(Text, Canon)>) {
    exists f :: f in fs && EntryUnfolds(heap, platform, e, f)
  }

  lemma EntriesStrict(platform: Platform, properties: seq<(Text, Slot)>)
    requires forall p :: p in properties ==> p.1.Data?
    requires KeysDistinct(Renamed(platform, properties))
    ensures StrictlySorted(NormalizedEntries(platform, properties))
  {
    KeysDistinctPermuted(Renamed(platform, properties), NormalizedEntries(platform, properties));
    AscendingDistinctIsStrict(NormalizedEntries(platform, properties));
  }

  lemma EntriesAlign(heap: Heap, platform: Platform, entries: seq<(Text, Value)>, fs: seq<(Text, Canon)>)
    requires StrictlySorted(entries) && StrictlySorted(fs)
    requires forall e :: e in entries ==> EntryAmong(heap, platform, e, fs)
    requires forall f :: f in fs ==> HasKey(entries, f.0)
    ensures |entries| == |fs| && forall i: nat :: i < |fs| ==> EntryUnfolds(heap, platform, entries[i], fs[i])
  {
    forall e | e in entries ensures HasKey(fs, e.0) {
      var f :| f in fs && EntryUnfolds(heap, platform, e, f);
    }
    SameKeysAlign(entries, fs);
    forall i: nat | i < |fs| ensures EntryUnfolds(heap, platform, entries[i], fs[i]) {
      assert entries[i] in entries;
      var f :| f in fs && EntryUnfolds(heap, platform, entries[i], f);
      SameKeyIsSameField(fs, f, fs[i]);
    }
  }

  lemma {:induction false} EntriesComplete(heap: Heap, platform: Platform, entries: seq<(Text, Value)>,
          fs: seq<(Text, Canon)>, previous: Option<Text>, ancestors: set<nat>, size: nat)
    requires Closed(heap) && forall f :: f in entries ==> Within(heap, f.1)
    requires StrictlySorted(entries) && |entries| == |fs|
    requires forall i: nat :: i < |fs| ==> EntryUnfolds(heap, platform, entries[i], fs[i])
    requires previous.Some? ==> forall e :: e in entries ==> Below(previous.value, e.0)
    requires FieldsSize(fs) <= size && Above(heap, platform, ancestors, size)
    ensures Entries(heap, platform, entries, previous, ancestors) == Ok(fs)
    decreases size, 1, |fs|
  {
    if fs != [] {
      assert EntryUnfolds(heap, platform, entries[0], fs[0]);
      assert entries[0] in entries;
      if previous.Some? {
        BelowIrreflexive(previous.value);
      }
      AboveWeaker(heap, platform, ancestors, size, Size(fs[0].1));
      NodeComplete(heap, platform, entries[0].1, fs[0].1, ancestors);
      StrictTail(entries);
      forall i: nat | i < |fs[1..]| ensures EntryUnfolds(heap, platform, entries[1..][i], fs[1..][i]) {
        assert EntryUnfolds(heap, platform, entries[i + 1], fs[i + 1]);
      }
      EntriesComplete(heap, platform, entries[1..], fs[1..], Some(entries[0].0), ancestors, size);
      assert fs == [fs[0]] + fs[1..];
    }
  }

  /** Main result: from an empty ancestor set the traversal returns a tree exactly when the value
      unfolds to it. Shared objects are accepted, since unfolding copies them; an object on its own
      path is not, since no finite tree contains itself. */
  lemma NodeExact(heap: Heap, platform: Platform, v: Value, t: Canon)
    requires Closed(heap) && Within(heap, v)
    ensures Node(heap, platform, v, {}) == Ok(t) <==> Unfolds(heap, platform, v, t)
  {
    if Node(heap, platform, v, {}) == Ok(t) {
      NodeUnfolds(heap, platform, v, {});
    }
    if Unfolds(heap, platform, v, t) {
      NodeComplete(heap, platform, v, t, {});
    }
  }
}
