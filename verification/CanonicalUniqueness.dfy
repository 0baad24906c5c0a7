/** The canonical form is unique: it survives parsing and canonicalizing again, and it does not
    depend on the order in which properties were created. */
module CanonicalUniqueness {
  import opened Wrappers
  import opened Texts
  import opened Fields
  import opened CanonicalNode
  import opened CanonicalMeaning
  import opened CanonicalText

  // ---------------------------------------------------------------- canonicalizing again

  /** What is assumed of NFC and of the UTC rendering of instants: both leave their own results alone. */
  ghost predicate Lawful(platform: Platform) {
    && (forall x: Text :: platform.nfc(platform.nfc(x)) == platform.nfc(x))
    && (forall x: Text :: platform.stamp(x).Instant? ==> Settled(platform, platform.stamp(x).text))
  }

  predicate Settled(platform: Platform, s: Text) {
    platform.nfc(s) == s && (platform.stamp(s) == NotATimestamp || platform.stamp(s) == Instant(s))
  }

  /** The value holds exactly the tree t, member by member, with nothing normalized or rendered: what
      parsing a text gives. */
  ghost predicate Holds(heap: Heap, v: Value, t: Canon)
    decreases t, 0
  {
    match t
    case CNull => v == Null
    case CBool(b) => v == Bool(b)
    case CInt(n) => v == Num(Integral(n))
    case CStr(s) => v == Str(s)
    case CArray(ts) =>
      && v.Ref? && v.id in heap && heap[v.id].Array? && Acceptable(heap[v.id])
      && |heap[v.id].slots| == |ts|
      && forall i: nat :: i < |ts| ==> ItemHolds(heap, heap[v.id].slots[i], ts[i])
    case CObject(fs) =>
      && v.Ref? && v.id in heap && heap[v.id].Plain? && Acceptable(heap[v.id])
      && KeysDistinct(heap[v.id].properties)
      && (forall p :: p in heap[v.id].properties ==> HeldAmong(heap, p, fs))
      && (forall f :: f in fs ==> HeldBy(heap, heap[v.id].properties, f))
  }

  ghost predicate ItemHolds(heap: Heap, slot: Option<Slot>, t: Canon)
    decreases t, 1
  {
    slot.Some? && slot.value.Data? && Holds(heap, slot.value.value, t)
  }

  ghost predicate MemberHolds(heap: Heap, p: (Text, Slot), f: (Text, Canon))
    decreases f, 1
  {
    f.0 == p.0 && p.1.Data? && Holds(heap, p.1.value, f.1)
  }

  ghost predicate HeldAmong(heap: Heap, p: (Text, Slot), fs: seq<(Text, Canon)>)
    decreases fs, 2
  {
    exists f :: f in fs && MemberHolds(heap, p, f)
  }

  ghost predicate HeldBy(heap: Heap, properties: seq<(Text, Slot)>, f: (Text, Canon))
    decreases f, 2
  {
    exists p :: p in properties && MemberHolds(heap, p, f)
  }

  /** Every string is settled and every key normalized. */
  ghost predicate Normalized(platform: Platform, t: Canon)
    decreases t
  {
    match t
    case CStr(s) => Settled(platform, s)
    case CArray(ts) => forall i: nat :: i < |ts| ==> Normalized(platform, ts[i])
    case CObject(fs) => forall f :: f in fs ==> platform.nfc(f.0) == f.0 && Normalized(platform, f.1)
    case CInt(n) => -MAX_SAFE_INTEGER <= n <= MAX_SAFE_INTEGER
    case _ => true
  }

  lemma {:induction false} ResultIsNormalized(heap: Heap, platform: Platform, v: Value, t: Canon)
    requires Lawful(platform) && Unfolds(heap, platform, v, t)
    ensures Normalized(platform, t)
    decreases t
  {
    match t
    case CArray(ts) =>
      forall i: nat | i < |ts| ensures Normalized(platform, ts[i]) {
        assert ItemUnfolds(heap, platform, heap[v.id].slots[i], ts[i]);
        ResultIsNormalized(heap, platform, heap[v.id].slots[i].value.value, ts[i]);
      }
    case CObject(fs) =>
      forall f | f in fs ensures platform.nfc(f.0) == f.0 && Normalized(platform, f.1) {
        var p := PropertyOf(heap, platform, v, t, f);
        ResultIsNormalized(heap, platform, p.1.value, f.1);
      }
    case _ =>
  }

  /** A held normalized tree is what its value unfolds to. */
  lemma {:induction false} HeldUnfolds(heap: Heap, platform: Platform, v: Value, t: Canon)
    requires Holds(heap, v, t) && Normalized(platform, t) && WellFormed(t)
    ensures Unfolds(heap, platform, v, t)
    decreases t
  {
    match t
    case CArray(ts) =>
      forall i: nat | i < |ts| ensures ItemUnfolds(heap, platform, heap[v.id].slots[i], ts[i]) {
        assert ItemHolds(heap, heap[v.id].slots[i], ts[i]);
        HeldUnfolds(heap, platform, heap[v.id].slots[i].value.value, ts[i]);
      }
    case CObject(fs) =>
      var properties := heap[v.id].properties;
      HeldKeysStayDistinct(heap, platform, v, fs);
      forall p | p in properties ensures AmongFields(heap, platform, p, fs) {
        assert HeldAmong(heap, p, fs);
        var f :| f in fs && MemberHolds(heap, p, f);
        HeldUnfolds(heap, platform, p.1.value, f.1);
        assert FieldUnfolds(heap, platform, p, f);
      }
      forall f | f in fs ensures AmongProperties(heap, platform, properties, f) {
        assert HeldBy(heap, properties, f);
        var p :| p in properties && MemberHolds(heap, p, f);
        HeldUnfolds(heap, platform, p.1.value, f.1);
        assert FieldUnfolds(heap, platform, p, f);
      }
    case _ =>
  }

  lemma HeldKeysStayDistinct(heap: Heap, platform: Platform, v: Value, fs: seq<(Text, Canon)>)
    requires Holds(heap, v, CObject(fs)) && Normalized(platform, CObject(fs))
    ensures KeysDistinct(Renamed(platform, heap[v.id].properties))
  {
    var properties := heap[v.id].properties;
    var renamed := Renamed(platform, properties);
    forall i: nat | i < |properties| ensures renamed[i].0 == properties[i].0 {
      assert properties[i] in properties;
      assert HeldAmong(heap, properties[i], fs);
      var f :| f in fs && MemberHolds(heap, properties[i], f);
    }
  }

  /** Canonicalizing a value that holds a normalized tree gives that very tree. */
  lemma HeldIsResult(heap: Heap, platform: Platform, v: Value, t: Canon)
    requires Closed(heap) && Within(heap, v)
    requires Holds(heap, v, t) && Normalized(platform, t) && WellFormed(t)
    ensures Node(heap, platform, v, {}) == Ok(t)
  {
    HeldUnfolds(heap, platform, v, t);
    NodeExact(heap, platform, v, t);
  }

  /** Idempotence through print and parse: when a value's canonical text is read back and the
      result, held by whatever objects, is canonicalized again, the same text comes out. */
  lemma CanonicalizeIdempotent(heap: Heap, platform: Platform, v: Value, parsedHeap: Heap, parsed: Value, t: Canon)
    requires Lawful(platform) && Closed(heap) && Within(heap, v) && Closed(parsedHeap) && Within(parsedHeap, parsed)
    requires CanonicalJson(heap, platform, v).Ok?
    requires Read(CanonicalJson(heap, platform, v).value) == Some((t, [])) && Holds(parsedHeap, parsed, t)
    ensures CanonicalJson(parsedHeap, platform, parsed) == CanonicalJson(heap, platform, v)
  {
    var first := Node(heap, platform, v, {}).value;
    NodeUnfolds(heap, platform, v, {});
    UnfoldsWellFormed(heap, platform, v, first);
    PrintReadsBack(first);
    ResultIsNormalized(heap, platform, v, first);
    HeldIsResult(parsedHeap, platform, parsed, first);
  }

  // ---------------------------------------------------------------- property order

  /** The same objects, up to the order in which the properties of plain objects were created. */
  ghost predicate SameUpToOrder(a: Heap, b: Heap) {
    && a.Keys == b.Keys
    && forall r :: r in a ==> SameObject(a[r], b[r])
  }

  ghost predicate SameObject(a: Object, b: Object) {
    || a == b
    || (a.Plain? && b.Plain? && a.symbolKeys == b.symbolKeys && multiset(a.properties) == multiset(b.properties))
  }

  lemma SameMembers<T>(xs: seq<T>, ys: seq<T>)
    requires multiset(xs) == multiset(ys)
    ensures forall x :: x in xs <==> x in ys
  {
    forall x ensures x in xs <==> x in ys {
      assert x in xs <==> x in multiset(xs);
      assert x in ys <==> x in multiset(ys);
    }
  }

  lemma RenamedStayDistinct(platform: Platform, xs: seq<(Text, Slot)>, ys: seq<(Text, Slot)>)
    requires multiset(xs) == multiset(ys) && forall p :: p in xs ==> p.1.Data?
    requires forall p :: p in ys ==> p.1.Data?
    requires KeysDistinct(Renamed(platform, xs))
    ensures KeysDistinct(Renamed(platform, ys))
  {
    SameMembers(xs, ys);
    var renamed := Renamed(platform, xs);
    forall i: nat, j: nat | i < j < |ys| ensures Renamed(platform, ys)[i].0 != Renamed(platform, ys)[j].0 {
      assert ys[i] in xs && ys[j] in xs;
      var a: nat :| a < |xs| && xs[a] == ys[i];
      var b: nat :| b < |xs| && xs[b] == ys[j];
      if a == b {
        TwiceCounts(ys, i, j);
        assert forall k: nat, l: nat :: k < l < |xs| && xs[k] == xs[l] ==> renamed[k].0 == renamed[l].0;
        OnceCounts(xs, ys[i]);
        assert false;
      }
      assert renamed[a].0 != renamed[b].0;
    }
  }

  lemma ObjectsAgree(platform: Platform, a: Object, b: Object)
    requires SameObject(a, b) && ObjectDefect(a).None?
    ensures ObjectDefect(b).None?
    ensures a.Plain? ==> (forall p :: p in a.properties <==> p in b.properties)
    ensures a.Plain? && KeysDistinct(Renamed(platform, a.properties)) ==> KeysDistinct(Renamed(platform, b.properties))
  {
    if a != b {
      SameMembers(a.properties, b.properties);
      if KeysDistinct(Renamed(platform, a.properties)) {
        RenamedStayDistinct(platform, a.properties, b.properties);
      }
    }
  }

  lemma {:induction false} UnfoldsAnyOrder(a: Heap, b: Heap, platform: Platform, v: Value, t: Canon)
    requires SameUpToOrder(a, b) && Unfolds(a, platform, v, t)
    ensures Unfolds(b, platform, v, t)
    decreases t
  {
    match t
    case CArray(ts) =>
      ObjectsAgree(platform, a[v.id], b[v.id]);
      forall i: nat | i < |ts| ensures ItemUnfolds(b, platform, b[v.id].slots[i], ts[i]) {
        assert ItemUnfolds(a, platform, a[v.id].slots[i], ts[i]);
        UnfoldsAnyOrder(a, b, platform, a[v.id].slots[i].value.value, ts[i]);
      }
    case CObject(fs) =>
      ObjectsAgree(platform, a[v.id], b[v.id]);
      forall p | p in b[v.id].properties ensures AmongFields(b, platform, p, fs) {
        var f := FieldOf(a, platform, v, t, p);
        UnfoldsAnyOrder(a, b, platform, p.1.value, f.1);
        assert FieldUnfolds(b, platform, p, f);
      }
      forall f | f in fs ensures AmongProperties(b, platform, b[v.id].properties, f) {
        var p := PropertyOf(a, platform, v, t, f);
        UnfoldsAnyOrder(a, b, platform, p.1.value, f.1);
        assert FieldUnfolds(b, platform, p, f);
      }
    case _ =>
  }

  /** Creating properties in another order changes neither success nor the canonical text. */
  lemma OrderIndependent(a: Heap, b: Heap, platform: Platform, v: Value)
    requires Closed(a) && Within(a, v) && Closed(b) && Within(b, v) && SameUpToOrder(a, b)
    ensures CanonicalJson(a, platform, v).Ok? <==> CanonicalJson(b, platform, v).Ok?
    ensures CanonicalJson(a, platform, v).Ok? ==> CanonicalJson(a, platform, v) == CanonicalJson(b, platform, v)
  {
    if Node(a, platform, v, {}).Ok? {
      var t := Node(a, platform, v, {}).value;
      NodeExact(a, platform, v, t);
      UnfoldsAnyOrder(a, b, platform, v, t);
      NodeExact(b, platform, v, t);
    }
    if Node(b, platform, v, {}).Ok? {
      var t := Node(b, platform, v, {}).value;
      NodeExact(b, platform, v, t);
      UnfoldsAnyOrder(b, a, platform, v, t);
      NodeExact(a, platform, v, t);
    }
  }
}
