/** Where a canonicalization error comes from, and exactly when it is a cycle. */
module CanonicalCycles {
  import opened Wrappers
  import opened Texts
  import opened Fields
  import opened CanonicalNode
  import opened CanonicalMeaning

  ghost predicate Child(heap: Heap, v: Value, child: Value) {
    && v.Ref? && v.id in heap
    && match heap[v.id]
       case Array(_, _, slots) => exists s: Slot :: Some(s) in slots && !s.Accessor? && s.value == child
       case Plain(_, properties) => exists p :: p in properties && !p.1.Accessor? && p.1.value == child
       case Exotic => false
  }

  /** A walk along properties and elements of the object graph. */
  ghost predicate Walk(heap: Heap, w: seq<Value>) {
    w != [] && (|w| == 1 || (Child(heap, w[0], w[1]) && Walk(heap, w[1..])))
  }

  /** The last value of the walk already lies on it: an object on its own path. */
  ghost predicate Loops(w: seq<Value>) {
    w != [] && w[|w| - 1].Ref? && w[|w| - 1] in w[..|w| - 1]
  }

  ghost predicate OnOwnPath(heap: Heap, v: Value) {
    exists w :: Walk(heap, w) && w[0] == v && Loops(w)
  }

  /** The value at hand is itself unacceptable, whatever lies below it. */
  ghost predicate Fault(heap: Heap, platform: Platform, v: Value, e: ErrorCode) {
    if !v.Ref? then LeafCause(platform, v, e)
    else v.id in heap && ObjectFault(platform, heap[v.id], e)
  }

  /** A defect of the object, a hole in an array, or two keys with the same normal form. */
  ghost predicate ObjectFault(platform: Platform, o: Object, e: ErrorCode) {
    || DefectCause(o, e)
    || (e == UndefinedValue && o.Array? && None in o.slots)
    || (e == KeyCollision && o.Plain? && exists i: nat, j: nat :: Collide(platform, o.properties, i, j))
  }

  predicate Collide(platform: Platform, properties: seq<(Text, Slot)>, i: nat, j: nat) {
    i < j < |properties| && platform.nfc(properties[i].0) == platform.nfc(properties[j].0)
  }

  /** The walk explains the error: it ends at a faulty value, or for a cycle at an ancestor or at
      an object it has already passed. */
  ghost predicate Explains(heap: Heap, platform: Platform, w: seq<Value>, e: ErrorCode, ancestors: set<nat>) {
    && Walk(heap, w)
    && var last := w[|w| - 1];
       Fault(heap, platform, last, e) || (e == Cycle && last.Ref? && (last.id in ancestors || Loops(w)))
  }

  lemma ExplainsFromParent(heap: Heap, platform: Platform, v: Value, w: seq<Value>, e: ErrorCode, ancestors: set<nat>)
    requires v.Ref? && Explains(heap, platform, w, e, ancestors + {v.id}) && Child(heap, v, w[0])
    ensures Explains(heap, platform, [v] + w, e, ancestors)
  {
    var longer := [v] + w;
    assert longer[1..] == w;
    var last := w[|w| - 1];
    if !Fault(heap, platform, last, e) {
      assert longer[..|longer| - 1] == [v] + w[..|w| - 1];
      if last.id == v.id {
        assert last == v;
      }
    }
  }

  lemma {:induction false} ErrorHasCause(heap: Heap, platform: Platform, v: Value,
          ancestors: set<nat>) returns (w: seq<Value>)
    requires Closed(heap) && Within(heap, v) && Node(heap, platform, v, ancestors).Err?
    ensures w != [] && w[0] == v
    ensures Explains(heap, platform, w, Node(heap, platform, v, ancestors).error, ancestors)
    decreases heap.Keys - ancestors, 0, 0
  {
    w := [v];
    if !v.Ref? {
      ScalarExact(platform, v);
    } else if v.id !in ancestors && ObjectDefect(heap[v.id]).Some? {
      ObjectDefectExact(heap[v.id]);
    } else if v.id !in ancestors {
      var e := Node(heap, platform, v, ancestors).error;
      if heap[v.id].Array? {
        var below := ItemsErrorCause(heap, platform, heap[v.id].slots, ancestors + {v.id});
        if below != [] {
          assert Child(heap, v, below[0]);
          ExplainsFromParent(heap, platform, v, below, e, ancestors);
          w := [v] + below;
        }
      } else {
        EntriesWithin(heap, platform, v.id);
        var entries := NormalizedEntries(platform, heap[v.id].properties);
        var below := EntriesErrorCause(heap, platform, entries, None, ancestors + {v.id});
        if below != [] {
          EntryIsChild(heap, platform, v, below[0]);
          ExplainsFromParent(heap, platform, v, below, e, ancestors);
          w := [v] + below;
        } else {
          if KeysDistinct(Renamed(platform, heap[v.id].properties)) {
            KeysDistinctPermuted(Renamed(platform, heap[v.id].properties), entries);
            assert false;
          }
          CollisionFound(platform, heap[v.id].properties);
        }
      }
    }
  }

  lemma CollisionFound(platform: Platform, properties: seq<(Text, Slot)>)
    requires forall p :: p in properties ==> p.1.Data?
    requires !KeysDistinct(Renamed(platform, properties))
    ensures exists i: nat, j: nat :: Collide(platform, properties, i, j)
  {
    var renamed := Renamed(platform, properties);
    var i: nat, j: nat :| i < j < |renamed| && renamed[i].0 == renamed[j].0;
    assert Collide(platform, properties, i, j);
  }

  lemma EntryIsChild(heap: Heap, platform: Platform, v: Value, x: Value)
    requires v.Ref? && v.id in heap && heap[v.id].Plain? && ObjectDefect(heap[v.id]).None?
    requires exists e :: e in NormalizedEntries(platform, heap[v.id].properties) && e.1 == x
    ensures Child(heap, v, x)
  {
    var e :| e in NormalizedEntries(platform, heap[v.id].properties) && e.1 == x;
    EntriesAre(platform, heap[v.id].properties, e);
  }

  lemma {:induction false} ItemsErrorCause(heap: Heap, platform: Platform, slots: seq<Option<Slot>>,
          ancestors: set<nat>) returns (w: seq<Value>)
    requires Closed(heap)
    requires forall s: Slot :: Some(s) in slots ==> s.Data? && SlotWithin(heap, s)
    requires Items(heap, platform, slots, ancestors).Err?
    ensures w == [] ==> None in slots && Items(heap, platform, slots, ancestors).error == UndefinedValue
    ensures w != [] ==> Explains(heap, platform, w, Items(heap, platform, slots, ancestors).error, ancestors)
    ensures w != [] ==> Some(Data(w[0])) in slots
    decreases heap.Keys - ancestors, 1, |slots|
  {
    assert slots[0] in slots;
    if slots[0].None? {
      w := [];
    } else {
      assert slots[0] == Some(slots[0].value);
      if Node(heap, platform, slots[0].value.value, ancestors).Err? {
        w := ErrorHasCause(heap, platform, slots[0].value.value, ancestors);
      } else {
        w := ItemsErrorCause(heap, platform, slots[1..], ancestors);
      }
    }
  }

  lemma {:induction false} EntriesErrorCause(heap: Heap, platform: Platform, entries: seq<(Text, Value)>,
          previous: Option<Text>, ancestors: set<nat>) returns (w: seq<Value>)
    requires Closed(heap) && forall f :: f in entries ==> Within(heap, f.1)
    requires Entries(heap, platform, entries, previous, ancestors).Err?
    ensures w == [] ==> Entries(heap, platform, entries, previous, ancestors).error == KeyCollision
    ensures w == [] ==> (previous.Some? && HasKey(entries, previous.value)) || !KeysDistinct(entries)
    ensures w != [] ==> Explains(heap, platform, w, Entries(heap, platform, entries, previous, ancestors).error, ancestors)
    ensures w != [] ==> exists e :: e in entries && e.1 == w[0]
    decreases heap.Keys - ancestors, 1, |entries|
  {
    assert entries[0] in entries;
    var rest := entries[1..];
    if previous == Some(entries[0].0) {
      w := [];
    } else if Node(heap, platform, entries[0].1, ancestors).Err? {
      w := ErrorHasCause(heap, platform, entries[0].1, ancestors);
    } else {
      w := EntriesErrorCause(heap, platform, rest, Some(entries[0].0), ancestors);
      if w == [] {
        if HasKey(rest, entries[0].0) {
          var f :| f in rest && f.0 == entries[0].0;
          var i: nat :| i < |rest| && rest[i] == f;
          assert entries[i + 1].0 == entries[0].0;
        } else {
          var i: nat, j: nat :| i < j < |rest| && rest[i].0 == rest[j].0;
          assert entries[i + 1].0 == entries[j + 1].0;
        }
      }
    }
  }

  // ---------------------------------------------------------------- cycles have no tree

  lemma ChildUnfolds(heap: Heap, platform: Platform, v: Value, t: Canon, x: Value) returns (u: Canon)
    requires Unfolds(heap, platform, v, t) && Child(heap, v, x)
    ensures Unfolds(heap, platform, x, u) && Size(u) < Size(t)
  {
    if t.CArray? {
      var slots := heap[v.id].slots;
      var s: Slot :| Some(s) in slots && !s.Accessor? && s.value == x;
      var i: nat :| i < |slots| && slots[i] == Some(s);
      assert ItemUnfolds(heap, platform, slots[i], t.items[i]);
      ItemIsSmaller(t.items, i);
      u := t.items[i];
    } else {
      var p :| p in heap[v.id].properties && !p.1.Accessor? && p.1.value == x;
      var f := FieldOf(heap, platform, v, t, p);
      FieldIsSmaller(t.fields, f);
      u := f.1;
    }
  }

  lemma {:induction false} WalkFrom(heap: Heap, w: seq<Value>, i: nat)
    requires Walk(heap, w) && i < |w|
    ensures Walk(heap, w[i..])
    decreases i
  {
    if i == 0 {
      assert w[0..] == w;
    } else {
      WalkFrom(heap, w[1..], i - 1);
      assert w[1..][i - 1..] == w[i..];
    }
  }

  lemma FirstStep(heap: Heap, w: seq<Value>)
    requires Walk(heap, w) && |w| > 1
    ensures Child(heap, w[0], w[1]) && Walk(heap, w[1..])
  {
  }

  lemma {:induction false} WalkDescends(heap: Heap, platform: Platform, w: seq<Value>, t: Canon,
          i: nat) returns (u: Canon)
    requires Walk(heap, w) && Unfolds(heap, platform, w[0], t) && i < |w|
    ensures Unfolds(heap, platform, w[i], u) && Size(u) + i <= Size(t)
    decreases i
  {
    u := t;
    if i > 0 {
      FirstStep(heap, w);
      var next := ChildUnfolds(heap, platform, w[0], t, w[1]);
      u := WalkDescends(heap, platform, w[1..], next, i - 1);
    }
  }

  lemma LoopHasNoTree(heap: Heap, platform: Platform, v: Value, t: Canon)
    requires OnOwnPath(heap, v)
    ensures !Unfolds(heap, platform, v, t)
  {
    if Unfolds(heap, platform, v, t) {
      var w :| Walk(heap, w) && w[0] == v && Loops(w);
      var last := |w| - 1;
      var i: nat :| i < last && w[i] == w[last];
      var u := WalkDescends(heap, platform, w, t, i);
      WalkFrom(heap, w, i);
      var x := WalkDescends(heap, platform, w[i..], u, last - i);
      UnfoldsUnique(heap, platform, w[i], u, x);
      assert false;
    }
  }

  /** A cycle error is never wrong, and a value with an object on its own path never succeeds. */
  lemma CycleSound(heap: Heap, platform: Platform, v: Value)
    requires Closed(heap) && Within(heap, v)
    ensures Node(heap, platform, v, {}) == Err(Cycle) ==> OnOwnPath(heap, v)
    ensures OnOwnPath(heap, v) ==> Node(heap, platform, v, {}).Err?
  {
    if Node(heap, platform, v, {}) == Err(Cycle) {
      var w := ErrorHasCause(heap, platform, v, {});
      NoObjectIsFaultyByCycle(heap, platform, w[|w| - 1]);
    }
    if OnOwnPath(heap, v) && Node(heap, platform, v, {}).Ok? {
      NodeUnfolds(heap, platform, v, {});
      LoopHasNoTree(heap, platform, v, Node(heap, platform, v, {}).value);
      assert false;
    }
  }

  lemma NoObjectIsFaultyByCycle(heap: Heap, platform: Platform, v: Value)
    ensures !Fault(heap, platform, v, Cycle)
  {
    if v.Ref? && v.id in heap && ObjectDefect(heap[v.id]).Some? {
      match heap[v.id]
      case Array(_, _, slots) =>
      case Plain(_, properties) =>
      case Exotic =>
    }
  }

  ghost predicate FaultFree(heap: Heap, platform: Platform, v: Value) {
    forall x, e :: Reaches(heap, v, x) ==> !Fault(heap, platform, x, e)
  }

  ghost predicate Reaches(heap: Heap, v: Value, x: Value) {
    exists w :: Walk(heap, w) && w[0] == v && w[|w| - 1] == x
  }

  /** For a value without any other fault below it, canonicalization reports a cycle exactly when
      some object lies on its own path, and succeeds exactly when none does; shared objects that
      are not their own ancestors are accepted. */
  lemma CycleExact(heap: Heap, platform: Platform, v: Value)
    requires Closed(heap) && Within(heap, v) && FaultFree(heap, platform, v)
    ensures Node(heap, platform, v, {}) == Err(Cycle) <==> OnOwnPath(heap, v)
    ensures Node(heap, platform, v, {}).Ok? <==> !OnOwnPath(heap, v)
  {
    CycleSound(heap, platform, v);
    if Node(heap, platform, v, {}).Err? {
      var e := Node(heap, platform, v, {}).error;
      var w := ErrorHasCause(heap, platform, v, {});
      assert Reaches(heap, v, w[|w| - 1]);
      assert !Fault(heap, platform, w[|w| - 1], e);
    }
  }
}
