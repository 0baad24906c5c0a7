/** `canonicalNode` on a graph of JavaScript objects (packages/trust/src/canonicalization.ts):
    key normalization and sorting, collisions, cycles, shared objects. */
module CanonicalNode {
  import opened Wrappers
  import opened Texts
  import opened Fields

  // ---------------------------------------------------------------- JavaScript values

  datatype Number = Integral(n: int) | NegativeZero | Fraction | NonFinite

  datatype Value =
    | Null | Bool(b: bool) | Str(text: Text) | Num(number: Number)
    | Undefined | Function | Symbol | BigInt | Binary
    | Ref(id: nat)

  /** How an own property is described. */
  datatype Slot = Data(value: Value) | Hidden(value: Value) | Accessor

  /** An object as `canonicalNode` inspects it. `symbolKeys` and `namedProperties` say whether the
      object has such keys; an array slot is None where the array has a hole. */
  datatype Object =
    | Array(symbolKeys: bool, namedProperties: bool, slots: seq<Option<Slot>>)
    | Plain(symbolKeys: bool, properties: seq<(Text, Slot)>)
    | Exotic

  /** Reference identifiers stand for object identity; the map is the object graph. */
  type Heap = map<nat, Object>

  predicate Within(heap: Heap, v: Value) {
    v.Ref? ==> v.id in heap
  }

  predicate SlotWithin(heap: Heap, s: Slot) {
    !s.Accessor? ==> Within(heap, s.value)
  }

  /** No dangling references. */
  ghost predicate Closed(heap: Heap) {
    forall r :: r in heap ==>
      match heap[r]
      case Array(_, _, slots) => forall s: Slot :: Some(s) in slots ==> SlotWithin(heap, s)
      case Plain(_, properties) => forall p :: p in properties ==> SlotWithin(heap, p.1)
      case Exotic => true
  }

  datatype Stamp = NotATimestamp | InvalidTime | Instant(text: Text)

  /** What the code takes from the platform: Unicode NFC, and reading a text that has the shape of
      an ISO timestamp as a UTC instant. */
  datatype Platform = Platform(nfc: Text -> Text, stamp: Text -> Stamp)

  datatype ErrorCode =
    | UndefinedValue | FunctionValue | SymbolKey | SymbolValue | BigIntValue | NonFiniteNumber | UnsafeInteger
    | FloatingPoint | BinaryValue | InvalidTimestamp | Cycle | NonPlainObject | KeyCollision

  datatype Canon =
    | CNull | CBool(b: bool) | CInt(n: int) | CStr(text: Text)
    | CArray(items: seq<Canon>) | CObject(fields: seq<(Text, Canon)>)

  const MAX_SAFE_INTEGER: int := 0x1F_FFFF_FFFF_FFFF

  function NormalizeString(platform: Platform, text: Text): Result<Text, ErrorCode> {
    var normalized := platform.nfc(text);
    match platform.stamp(normalized)
    case NotATimestamp => Ok(normalized)
    case InvalidTime => Err(InvalidTimestamp)
    case Instant(utc) => Ok(utc)
  }

  function Scalar(platform: Platform, v: Value): Result<Canon, ErrorCode>
    requires !v.Ref?
  {
    match v
    case Null => Ok(CNull)
    case Bool(b) => Ok(CBool(b))
    case Str(text) =>
      var s := NormalizeString(platform, text);
      if s.Ok? then Ok(CStr(s.value)) else Err(s.error)
    case Num(Integral(n)) => if -MAX_SAFE_INTEGER <= n <= MAX_SAFE_INTEGER then Ok(CInt(n)) else Err(UnsafeInteger)
    case Num(NegativeZero) => Ok(CInt(0))
    case Num(Fraction) => Err(FloatingPoint)
    case Num(NonFinite) => Err(NonFiniteNumber)
    case Undefined => Err(UndefinedValue)
    case Function => Err(FunctionValue)
    case Symbol => Err(SymbolValue)
    case BigInt => Err(BigIntValue)
    case Binary => Err(BinaryValue)
  }

  /** The string a text stands for: its NFC form, or the instant that form names. */
  predicate Renders(platform: Platform, text: Text, s: Text) {
    var normalized := platform.nfc(text);
    (platform.stamp(normalized) == NotATimestamp && s == normalized) || platform.stamp(normalized) == Instant(s)
  }

  /** The leaf t says what the value v is, up to NFC, the rendering of instants, and the sign of zero. */
  predicate Denotes(platform: Platform, v: Value, t: Canon) {
    match t
    case CNull => v == Null
    case CBool(b) => v == Bool(b)
    case CInt(n) => -MAX_SAFE_INTEGER <= n <= MAX_SAFE_INTEGER && (v == Num(Integral(n)) || (n == 0 && v == Num(NegativeZero)))
    case CStr(s) => v.Str? && Renders(platform, v.text, s)
    case CArray(_) => false
    case CObject(_) => false
  }

  /** Which value each error is for. */
  predicate LeafCause(platform: Platform, v: Value, e: ErrorCode) {
    match e
    case UndefinedValue => v == Undefined
    case FunctionValue => v == Function
    case SymbolValue => v == Symbol
    case BigIntValue => v == BigInt
    case BinaryValue => v == Binary
    case NonFiniteNumber => v == Num(NonFinite)
    case FloatingPoint => v == Num(Fraction)
    case UnsafeInteger => v.Num? && v.number.Integral? && !(-MAX_SAFE_INTEGER <= v.number.n <= MAX_SAFE_INTEGER)
    case InvalidTimestamp => v.Str? && platform.stamp(platform.nfc(v.text)) == InvalidTime
    case _ => false
  }

  /** A scalar is canonicalized to what it denotes, or refused for its own reason. */
  lemma ScalarExact(platform: Platform, v: Value)
    requires !v.Ref?
    ensures forall t :: Scalar(platform, v) == Ok(t) <==> Denotes(platform, v, t)
    ensures forall e :: Scalar(platform, v) == Err(e) <==> LeafCause(platform, v, e)
  {
  }

  /** The descriptor checks that precede any visit to a child. */
  function SlotDefect(slot: Slot): Option<ErrorCode> {
    if slot.Accessor? then Some(FunctionValue) else if slot.Hidden? then Some(NonPlainObject) else None
  }

  function ArrayDefect(slots: seq<Option<Slot>>): (r: Option<ErrorCode>)
    ensures r.None? <==> forall s: Slot :: Some(s) in slots ==> s.Data?
    ensures r.Some? ==> exists s: Slot :: Some(s) in slots && SlotDefect(s) == r
  {
    if slots == [] then None
    else
      assert slots == [slots[0]] + slots[1..];
      if slots[0].Some? && SlotDefect(slots[0].value).Some? then
        assert slots[0] in slots;
        SlotDefect(slots[0].value)
      else ArrayDefect(slots[1..])
  }

  function PropertyDefect(properties: seq<(Text, Slot)>): (r: Option<ErrorCode>)
    ensures r.None? <==> forall p :: p in properties ==> p.1.Data?
    ensures r.Some? ==> exists p :: p in properties && SlotDefect(p.1) == r
  {
    if properties == [] then None
    else
      assert properties == [properties[0]] + properties[1..];
      if SlotDefect(properties[0].1).Some? then
        assert properties[0] in properties;
        SlotDefect(properties[0].1)
      else PropertyDefect(properties[1..])
  }

  function ObjectDefect(o: Object): Option<ErrorCode> {
    match o
    case Exotic => Some(NonPlainObject)
    case Array(symbolKeys, namedProperties, slots) =>
      if symbolKeys then Some(SymbolKey)
      else if ArrayDefect(slots).Some? then ArrayDefect(slots)
      else if namedProperties then Some(NonPlainObject) else None
    case Plain(symbolKeys, properties) =>
      if symbolKeys then Some(SymbolKey) else PropertyDefect(properties)
  }

  /** An array or plain object of visible data, without symbol keys, and for an array without names. */
  ghost predicate Acceptable(o: Object) {
    match o
    case Exotic => false
    case Array(symbolKeys, namedProperties, slots) =>
      !symbolKeys && !namedProperties && forall s: Slot :: Some(s) in slots ==> s.Data?
    case Plain(symbolKeys, properties) => !symbolKeys && forall p :: p in properties ==> p.1.Data?
  }

  ghost predicate HasSlot(o: Object, s: Slot) {
    match o
    case Exotic => false
    case Array(_, _, slots) => Some(s) in slots
    case Plain(_, properties) => exists p :: p in properties && p.1 == s
  }

  /** Which defect each error is for. */
  ghost predicate DefectCause(o: Object, e: ErrorCode) {
    match e
    case SymbolKey => !o.Exotic? && o.symbolKeys
    case FunctionValue => HasSlot(o, Accessor)
    case NonPlainObject => o.Exotic? || (o.Array? && o.namedProperties) || exists v :: HasSlot(o, Hidden(v))
    case _ => false
  }

  lemma ObjectDefectExact(o: Object)
    ensures ObjectDefect(o).None? <==> Acceptable(o)
    ensures ObjectDefect(o).Some? ==> DefectCause(o, ObjectDefect(o).value)
  {
    match o
    case Exotic =>
    case Array(symbolKeys, namedProperties, slots) =>
      if !symbolKeys && ArrayDefect(slots).Some? {
        var s: Slot :| Some(s) in slots && SlotDefect(s) == ArrayDefect(slots);
        assert HasSlot(o, s);
        if s.Hidden? {
          assert HasSlot(o, Hidden(s.value));
        }
      }
    case Plain(symbolKeys, properties) =>
      if !symbolKeys && PropertyDefect(properties).Some? {
        var p :| p in properties && SlotDefect(p.1) == PropertyDefect(properties);
        assert HasSlot(o, p.1);
        if p.1.Hidden? {
          assert HasSlot(o, Hidden(p.1.value));
        }
      }
  }

  /** The properties under their normalized keys, in code-unit order of those keys. */
  function NormalizedEntries(platform: Platform, properties: seq<(Text, Slot)>): (r: seq<(Text, Value)>)
    requires forall p :: p in properties ==> p.1.Data?
    ensures KeysAscend(r)
  {
    SortFields(Renamed(platform, properties))
  }

  function Renamed(platform: Platform, properties: seq<(Text, Slot)>): (r: seq<(Text, Value)>)
    requires forall p :: p in properties ==> p.1.Data?
    ensures |r| == |properties|
    ensures forall i :: 0 <= i < |r| ==> r[i] == (platform.nfc(properties[i].0), properties[i].1.value)
  {
    seq(|properties|, i requires 0 <= i < |properties| =>
      assert properties[i] in properties; (platform.nfc(properties[i].0), properties[i].1.value))
  }

  lemma EntriesAre(platform: Platform, properties: seq<(Text, Slot)>, f: (Text, Value))
    requires forall p :: p in properties ==> p.1.Data?
    ensures f in NormalizedEntries(platform, properties) <==>
      exists p :: p in properties && f == (platform.nfc(p.0), p.1.value)
  {
    var renamed := Renamed(platform, properties);
    var entries := NormalizedEntries(platform, properties);
    assert f in entries <==> f in multiset(entries);
    assert f in renamed <==> f in multiset(renamed);
    if f in renamed {
      var i :| 0 <= i < |renamed| && renamed[i] == f;
      assert properties[i] in properties;
    }
    if exists p :: p in properties && f == (platform.nfc(p.0), p.1.value) {
      var p :| p in properties && f == (platform.nfc(p.0), p.1.value);
      var i :| 0 <= i < |properties| && properties[i] == p;
      assert renamed[i] == f;
    }
  }

  // ---------------------------------------------------------------- the traversal

  /** What `canonicalNode` returns for a value met below the given ancestors. Each visit adds an
      object of the finite graph to the path, so the recursion ends on every graph. */
  function Node(heap: Heap, platform: Platform, v: Value, ancestors: set<nat>): Result<Canon, ErrorCode>
    requires Closed(heap) && Within(heap, v)
    decreases heap.Keys - ancestors, 0, 0
  {
    if !v.Ref? then Scalar(platform, v)
    else if v.id in ancestors then Err(Cycle)
    else if ObjectDefect(heap[v.id]).Some? then Err(ObjectDefect(heap[v.id]).value)
    else
      assert v.id in heap.Keys - ancestors;
      match heap[v.id]
      case Array(_, _, slots) =>
        var items := Items(heap, platform, slots, ancestors + {v.id});
        if items.Ok? then Ok(CArray(items.value)) else Err(items.error)
      case Plain(_, properties) =>
        EntriesWithin(heap, platform, v.id);
        var fields := Entries(heap, platform, NormalizedEntries(platform, properties), None, ancestors + {v.id});
        if fields.Ok? then Ok(CObject(fields.value)) else Err(fields.error)
  }

  lemma EntriesWithin(heap: Heap, platform: Platform, r: nat)
    requires Closed(heap) && r in heap && heap[r].Plain? && ObjectDefect(heap[r]).None?
    ensures forall f :: f in NormalizedEntries(platform, heap[r].properties) ==> Within(heap, f.1)
  {
    forall f | f in NormalizedEntries(platform, heap[r].properties) ensures Within(heap, f.1) {
      EntriesAre(platform, heap[r].properties, f);
      var p :| p in heap[r].properties && f == (platform.nfc(p.0), p.1.value);
      assert SlotWithin(heap, p.1);
    }
  }

  function Items(heap: Heap, platform: Platform, slots: seq<Option<Slot>>,
          ancestors: set<nat>): Result<seq<Canon>, ErrorCode>
    requires Closed(heap)
    requires forall s: Slot :: Some(s) in slots ==> s.Data? && SlotWithin(heap, s)
    decreases heap.Keys - ancestors, 1, |slots|
  {
    if slots == [] then Ok([])
    else if slots[0].None? then Err(UndefinedValue)
    else
      assert slots[0] in slots && slots[0] == Some(slots[0].value);
      assert SlotWithin(heap, slots[0].value);
      var first := Node(heap, platform, slots[0].value.value, ancestors);
      if first.Err? then Err(first.error)
      else
        var rest := Items(heap, platform, slots[1..], ancestors);
        if rest.Err? then rest else Ok([first.value] + rest.value)
  }

  function Entries(heap: Heap, platform: Platform, entries: seq<(Text, Value)>, previous: Option<Text>,
          ancestors: set<nat>): Result<seq<(Text, Canon)>, ErrorCode>
    requires Closed(heap) && forall f :: f in entries ==> Within(heap, f.1)
    decreases heap.Keys - ancestors, 1, |entries|
  {
    if entries == [] then Ok([])
    else if previous == Some(entries[0].0) then Err(KeyCollision)
    else
      var first := Node(heap, platform, entries[0].1, ancestors);
      if first.Err? then Err(first.error)
      else
        var rest := Entries(heap, platform, entries[1..], Some(entries[0].0), ancestors);
        if rest.Err? then rest else Ok([(entries[0].0, first.value)] + rest.value)
  }

  /** The traversal as the code runs it: one mutable ancestor set, grown on the way down and
      restored on every way out. */
  class Canonicalizer {
    const heap: Heap
    const platform: Platform
    var ancestors: set<nat>

    constructor (heap: Heap, platform: Platform)
      ensures this.heap == heap && this.platform == platform && ancestors == {}
    {
      this.heap := heap;
      this.platform := platform;
      ancestors := {};
    }

    method Visit(v: Value) returns (r: Result<Canon, ErrorCode>)
      requires Closed(heap) && Within(heap, v)
      modifies this
      ensures ancestors == old(ancestors)
      ensures r == Node(heap, platform, v, old(ancestors))
      decreases heap.Keys - ancestors, 0, 0
    {
      if !v.Ref? {
        return Scalar(platform, v);
      }
      if v.id in ancestors {
        return Err(Cycle);
      }
      assert v.id in heap.Keys - ancestors;
      ancestors := ancestors + {v.id};
      var defect := ObjectDefect(heap[v.id]);
      if defect.Some? {
        r := Err(defect.value);
      } else {
        match heap[v.id]
        case Array(_, _, slots) =>
          var items := VisitItems(slots);
          r := if items.Ok? then Ok(CArray(items.value)) else Err(items.error);
        case Plain(_, properties) =>
          EntriesWithin(heap, platform, v.id);
          var fields := VisitEntries(NormalizedEntries(platform, properties));
          r := if fields.Ok? then Ok(CObject(fields.value)) else Err(fields.error);
      }
      ancestors := ancestors - {v.id};
    }

    method VisitItems(slots: seq<Option<Slot>>) returns (r: Result<seq<Canon>, ErrorCode>)
      requires Closed(heap)
      requires forall s: Slot :: Some(s) in slots ==> s.Data? && SlotWithin(heap, s)
      modifies this
      ensures ancestors == old(ancestors)
      ensures r == Items(heap, platform, slots, old(ancestors))
      decreases heap.Keys - ancestors, 1, 0
    {
      var result: seq<Canon> := [];
      var index := 0;
      ghost var wanted := Items(heap, platform, slots, ancestors);
      assert slots[0..] == slots;
      assert wanted.Ok? ==> [] + wanted.value == wanted.value;
      while index < |slots|
        invariant 0 <= index <= |slots| && ancestors == old(ancestors)
        invariant ItemsAfter(result, slots[index..], wanted)
      {
        if slots[index].None? {
          return Err(UndefinedValue);
        }
        assert slots[index] in slots && slots[index] == Some(slots[index].value);
        assert slots[index..][1..] == slots[index + 1..];
        var child := Visit(slots[index].value.value);
        if child.Err? {
          return Err(child.error);
        }
        ghost var tail := Items(heap, platform, slots[index + 1..], ancestors);
        assert tail.Ok? ==> result + ([child.value] + tail.value) == (result + [child.value]) + tail.value;
        result := result + [child.value];
        index := index + 1;
      }
      r := Ok(result);
      assert result + [] == result;
    }

    /** The result is what has been collected, followed by the result for what is left. */
    ghost predicate ItemsAfter(result: seq<Canon>, rest: seq<Option<Slot>>, wanted: Result<seq<Canon>, ErrorCode>)
      requires Closed(heap) && forall s: Slot :: Some(s) in rest ==> s.Data? && SlotWithin(heap, s)
      reads this
    {
      var tail := Items(heap, platform, rest, ancestors);
      wanted == if tail.Ok? then Ok(result + tail.value) else tail
    }

    method VisitEntries(entries: seq<(Text, Value)>) returns (r: Result<seq<(Text, Canon)>, ErrorCode>)
      requires Closed(heap) && forall f :: f in entries ==> Within(heap, f.1)
      modifies this
      ensures ancestors == old(ancestors)
      ensures r == Entries(heap, platform, entries, None, old(ancestors))
      decreases heap.Keys - ancestors, 1, 0
    {
      var result: seq<(Text, Canon)> := [];
      var previous: Option<Text> := None;
      var index := 0;
      ghost var wanted := Entries(heap, platform, entries, None, ancestors);
      assert entries[0..] == entries;
      assert wanted.Ok? ==> [] + wanted.value == wanted.value;
      while index < |entries|
        invariant 0 <= index <= |entries| && ancestors == old(ancestors)
        invariant EntriesAfter(result, entries[index..], previous, wanted)
      {
        var (key, value) := entries[index];
        if previous == Some(key) {
          return Err(KeyCollision);
        }
        previous := Some(key);
        assert entries[index] in entries;
        assert entries[index..][1..] == entries[index + 1..];
        var child := Visit(value);
        if child.Err? {
          return Err(child.error);
        }
        ghost var tail := Entries(heap, platform, entries[index + 1..], previous, ancestors);
        assert tail.Ok? ==> result + ([(key, child.value)] + tail.value) == (result + [(key, child.value)]) + tail.value;
        result := result + [(key, child.value)];
        index := index + 1;
      }
      r := Ok(result);
      assert result + [] == result;
    }

    ghost predicate EntriesAfter(result: seq<(Text, Canon)>, rest: seq<(Text, Value)>, previous: Option<Text>,
            wanted: Result<seq<(Text, Canon)>, ErrorCode>)
      requires Closed(heap) && forall f :: f in rest ==> Within(heap, f.1)
      reads this
    {
      var tail := Entries(heap, platform, rest, previous, ancestors);
      wanted == if tail.Ok? then Ok(result + tail.value) else tail
    }
  }
}
