/** Property lists ordered by key, and the order in which a JavaScript object lists its keys. */
module Fields {
  import opened Texts

  ghost predicate KeysAscend<T>(fs: seq<(Text, T)>) {
    forall i: nat, j: nat :: i < j < |fs| ==> AtMost(fs[i].0, fs[j].0)
  }

  /** Strictly ascending keys: the normal form of a set of properties with distinct keys. */
  ghost predicate StrictlySorted<T>(fs: seq<(Text, T)>) {
    forall i: nat, j: nat :: i < j < |fs| ==> Below(fs[i].0, fs[j].0)
  }

  lemma StrictTail<T>(fs: seq<(Text, T)>)
    requires StrictlySorted(fs) && fs != []
    ensures StrictlySorted(fs[1..])
    ensures forall f :: f in fs[1..] ==> Below(fs[0].0, f.0)
    ensures forall f :: f in fs <==> f == fs[0] || f in fs[1..]
  {
    assert fs == [fs[0]] + fs[1..];
    forall f | f in fs[1..] ensures Below(fs[0].0, f.0) {
      var j :| 0 <= j < |fs[1..]| && fs[1..][j] == f;
      assert Below(fs[0].0, fs[j + 1].0);
    }
    forall i: nat, j: nat | i < j < |fs[1..]| ensures Below(fs[1..][i].0, fs[1..][j].0) {
      assert Below(fs[i + 1].0, fs[j + 1].0);
    }
  }

  lemma StrictCons<T>(f: (Text, T), fs: seq<(Text, T)>)
    requires StrictlySorted(fs) && forall g :: g in fs ==> Below(f.0, g.0)
    ensures StrictlySorted([f] + fs)
  {
    var r := [f] + fs;
    forall i: nat, j: nat | i < j < |r| ensures Below(r[i].0, r[j].0) {
      assert r[j] == fs[j - 1];
      if i > 0 {
        assert Below(fs[i - 1].0, fs[j - 1].0);
      }
    }
  }

  lemma HeadIsMember<T>(xs: seq<T>)
    ensures xs != [] ==> xs[0] in xs
  {
  }

  /** Two strictly sorted lists with the same members are the same list. */
  lemma {:induction false} StrictlySortedUnique<T>(xs: seq<(Text, T)>, ys: seq<(Text, T)>)
    requires StrictlySorted(xs) && StrictlySorted(ys)
    requires forall f :: f in xs <==> f in ys
    ensures xs == ys
    decreases |xs|
  {
    HeadIsMember(xs);
    HeadIsMember(ys);
    if xs == [] || ys == [] {
      return;
    }
    StrictTail(xs);
    StrictTail(ys);
    var x, y := xs[0], ys[0];
    BelowIrreflexive(x.0);
    assert x == y by {
      if Below(x.0, y.0) && Below(y.0, x.0) {
        BelowTransitive(x.0, y.0, x.0);
        assert false;
      }
    }
    forall f ensures f in xs[1..] <==> f in ys[1..] {
      BelowIrreflexive(x.0);
    }
    StrictlySortedUnique(xs[1..], ys[1..]);
    assert xs == [x] + xs[1..] && ys == [y] + ys[1..];
  }

  function InsertField<T>(f: (Text, T), fs: seq<(Text, T)>): (r: seq<(Text, T)>)
    requires KeysAscend(fs)
    ensures KeysAscend(r)
    ensures multiset(r) == multiset(fs) + multiset{f}
  {
    if fs == [] then [f]
    else if AtMost(f.0, fs[0].0) then
      assert forall j: nat :: j < |fs| ==> AtMost(f.0, fs[j].0) by {
        forall j: nat | j < |fs| ensures AtMost(f.0, fs[j].0) {
          if j > 0 { AtMostTransitive(f.0, fs[0].0, fs[j].0); }
        }
      }
      [f] + fs
    else
      var r := InsertField(f, fs[1..]);
      assert fs == [fs[0]] + fs[1..];
      assert forall g :: g in r ==> AtMost(fs[0].0, g.0) by {
        BelowTotal(f.0, fs[0].0);
        forall g | g in r ensures AtMost(fs[0].0, g.0) {
          assert g in multiset(r);
          assert g == f || g in multiset(fs[1..]);
        }
      }
      [fs[0]] + r
  }

  /** Sort by key in code-unit order. */
  function SortFields<T>(fs: seq<(Text, T)>): (r: seq<(Text, T)>)
    ensures KeysAscend(r)
    ensures multiset(r) == multiset(fs)
  {
    if fs == [] then []
    else
      assert fs == [fs[0]] + fs[1..];
      InsertField(fs[0], SortFields(fs[1..]))
  }

  /** Assigning a property: a new key is added, an existing one gets the new value. */
  function PutField<T(!new)>(fs: seq<(Text, T)>, f: (Text, T)): (r: seq<(Text, T)>)
    requires StrictlySorted(fs)
    ensures StrictlySorted(r)
    ensures forall g :: g in r <==> g == f || (g in fs && g.0 != f.0)
  {
    if fs == [] then [f]
    else
      StrictTail(fs);
      BelowIrreflexive(f.0);
      if Below(f.0, fs[0].0) then
        assert forall g :: g in fs ==> Below(f.0, g.0) by {
          forall g | g in fs ensures Below(f.0, g.0) {
            if g != fs[0] { BelowTransitive(f.0, fs[0].0, g.0); }
          }
        }
        StrictCons(f, fs);
        [f] + fs
      else if f.0 == fs[0].0 then
        StrictCons(f, fs[1..]);
        [f] + fs[1..]
      else
        BelowTotal(f.0, fs[0].0);
        StrictCons(fs[0], PutField(fs[1..], f));
        [fs[0]] + PutField(fs[1..], f)
  }

  // ------------------------------------------------ distinct keys

  ghost predicate KeysDistinct<T>(fs: seq<(Text, T)>) {
    forall i: nat, j: nat :: i < j < |fs| ==> fs[i].0 != fs[j].0
  }

  lemma TwiceCounts<T>(xs: seq<T>, i: nat, j: nat)
    requires i < j < |xs| && xs[i] == xs[j]
    ensures multiset(xs)[xs[i]] >= 2
  {
    var front, back := xs[..j], xs[j..];
    assert xs == front + back;
    assert xs[i] in front && xs[i] in back by {
      assert front[i] == xs[i] && back[0] == xs[j];
    }
    assert multiset(xs)[xs[i]] == multiset(front)[xs[i]] + multiset(back)[xs[i]];
  }

  lemma {:induction false} OnceCounts<T>(xs: seq<T>, x: T)
    requires forall i: nat, j: nat :: i < j < |xs| ==> xs[i] != x || xs[j] != x
    ensures multiset(xs)[x] <= 1
  {
    if xs != [] {
      var rest := xs[1..];
      assert xs == [xs[0]] + rest;
      if xs[0] == x {
        assert x !in rest by {
          forall j: nat | j < |rest| ensures rest[j] != x {
            assert rest[j] == xs[j + 1];
          }
        }
        assert multiset(rest)[x] == 0;
      } else {
        assert forall i: nat :: i < |rest| ==> rest[i] == xs[i + 1];
        OnceCounts(rest, x);
      }
    }
  }

  /** Having distinct keys does not depend on the order of the list. */
  lemma KeysDistinctPermuted<T>(xs: seq<(Text, T)>, ys: seq<(Text, T)>)
    requires multiset(xs) == multiset(ys) && KeysDistinct(xs)
    ensures KeysDistinct(ys)
  {
    forall i: nat, j: nat | i < j < |ys| ensures ys[i].0 != ys[j].0 {
      assert ys[i] in multiset(xs) && ys[j] in multiset(xs);
      var a: nat :| a < |xs| && xs[a] == ys[i];
      var b: nat :| b < |xs| && xs[b] == ys[j];
      OnceCounts(xs, ys[i]);
      if ys[i] == ys[j] {
        TwiceCounts(ys, i, j);
        assert false;
      }
    }
  }

  lemma AscendingDistinctIsStrict<T>(fs: seq<(Text, T)>)
    ensures StrictlySorted(fs) <==> KeysAscend(fs) && KeysDistinct(fs)
  {
    if StrictlySorted(fs) {
      forall i: nat, j: nat | i < j < |fs| ensures fs[i].0 != fs[j].0 {
        BelowIrreflexive(fs[i].0);
      }
    }
  }

  lemma SameKeyIsSameField<T>(fs: seq<(Text, T)>, f: (Text, T), g: (Text, T))
    requires StrictlySorted(fs) && f in fs && g in fs && f.0 == g.0
    ensures f == g
  {
    var i: nat :| i < |fs| && fs[i] == f;
    var j: nat :| j < |fs| && fs[j] == g;
    BelowIrreflexive(f.0);
  }

  ghost predicate HasKey<T>(fs: seq<(Text, T)>, k: Text) {
    exists f :: f in fs && f.0 == k
  }

  /** Strictly sorted lists over the same keys list them at the same positions. */
  lemma {:induction false} SameKeysAlign<S, T>(xs: seq<(Text, S)>, ys: seq<(Text, T)>)
    requires StrictlySorted(xs) && StrictlySorted(ys)
    requires forall x :: x in xs ==> HasKey(ys, x.0)
    requires forall y :: y in ys ==> HasKey(xs, y.0)
    ensures |xs| == |ys|
    ensures forall i: nat :: i < |xs| ==> xs[i].0 == ys[i].0
    decreases |xs|
  {
    HeadIsMember(xs);
    HeadIsMember(ys);
    if xs == [] || ys == [] {
      return;
    }
    StrictTail(xs);
    StrictTail(ys);
    assert xs[0].0 == ys[0].0 by {
      LeastKey(xs, ys[0].0);
      LeastKey(ys, xs[0].0);
      AtMostAntisymmetric(xs[0].0, ys[0].0);
    }
    KeysBehindHead(xs, ys);
    KeysBehindHead(ys, xs);
    SameKeysAlign(xs[1..], ys[1..]);
    forall i: nat | i < |xs| ensures xs[i].0 == ys[i].0 {
      if i > 0 {
        assert xs[1..][i - 1].0 == ys[1..][i - 1].0;
      }
    }
  }

  lemma LeastKey<T>(xs: seq<(Text, T)>, k: Text)
    requires StrictlySorted(xs) && xs != [] && HasKey(xs, k)
    ensures AtMost(xs[0].0, k)
  {
    StrictTail(xs);
  }

  lemma KeysBehindHead<S, T>(xs: seq<(Text, S)>, ys: seq<(Text, T)>)
    requires StrictlySorted(xs) && StrictlySorted(ys) && xs != [] && ys != [] && xs[0].0 == ys[0].0
    requires forall x :: x in xs ==> HasKey(ys, x.0)
    ensures forall x :: x in xs[1..] ==> HasKey(ys[1..], x.0)
  {
    StrictTail(xs);
    StrictTail(ys);
    BelowIrreflexive(xs[0].0);
    forall x | x in xs[1..] ensures HasKey(ys[1..], x.0) {
      var y :| y in ys && y.0 == x.0;
      assert y in ys[1..];
    }
  }

  // ------------------------------------------------ enumeration order

  /** Decimal numerals without leading zeros below 2^32 - 1: the integer-like keys. */
  predicate IsIndexKey(k: Text) {
    && k != [] && |k| <= 10
    && (forall u | u in k :: 0x30 <= u <= 0x39)
    && (k[0] != 0x30 || |k| == 1)
    && (|k| == 10 ==> Below(k, [0x34, 0x32, 0x39, 0x34, 0x39, 0x36, 0x37, 0x32, 0x39, 0x35]))
  }

  /** Numerals compare by length first, then digit by digit. */
  predicate NumeralBelow(a: Text, b: Text) {
    |a| < |b| || (|a| == |b| && Below(a, b))
  }

  function InsertIndex<T(!new)>(f: (Text, T), fs: seq<(Text, T)>): (r: seq<(Text, T)>)
    ensures forall g :: g in r <==> g == f || g in fs
    ensures |r| == |fs| + 1
  {
    if fs == [] || NumeralBelow(f.0, fs[0].0) then [f] + fs else [fs[0]] + InsertIndex(f, fs[1..])
  }

  function IndexFields<T(!new)>(fs: seq<(Text, T)>): (r: seq<(Text, T)>)
    ensures forall g :: g in r <==> g in fs && IsIndexKey(g.0)
  {
    if fs == [] then []
    else
      assert fs == [fs[0]] + fs[1..];
      if IsIndexKey(fs[0].0) then InsertIndex(fs[0], IndexFields(fs[1..])) else IndexFields(fs[1..])
  }

  function NamedFields<T(!new)>(fs: seq<(Text, T)>): (r: seq<(Text, T)>)
    ensures forall g :: g in r <==> g in fs && !IsIndexKey(g.0)
  {
    if fs == [] then []
    else
      assert fs == [fs[0]] + fs[1..];
      if IsIndexKey(fs[0].0) then NamedFields(fs[1..]) else [fs[0]] + NamedFields(fs[1..])
  }

  /** The order in which `JSON.stringify` visits the properties: integer-like keys by value, then
      the others in the order they were assigned. */
  function Enumerate<T(!new)>(fs: seq<(Text, T)>): (r: seq<(Text, T)>)
    ensures forall g :: g in r <==> g in fs
  {
    IndexFields(fs) + NamedFields(fs)
  }

  function MapFields<S(!new), T(!new)>(fs: seq<(Text, S)>, m: S -> T): (r: seq<(Text, T)>)
    ensures |r| == |fs|
    ensures forall i :: 0 <= i < |fs| ==> r[i] == (fs[i].0, m(fs[i].1))
  {
    seq(|fs|, i requires 0 <= i < |fs| => (fs[i].0, m(fs[i].1)))
  }

  lemma MapTail<S(!new), T(!new)>(fs: seq<(Text, S)>, m: S -> T)
    requires fs != []
    ensures MapFields(fs, m)[0] == (fs[0].0, m(fs[0].1))
    ensures MapFields(fs, m)[1..] == MapFields(fs[1..], m)
  {
  }

  lemma MapCons<S(!new), T(!new)>(f: (Text, S), fs: seq<(Text, S)>, m: S -> T)
    ensures MapFields([f] + fs, m) == [(f.0, m(f.1))] + MapFields(fs, m)
  {
  }

  lemma {:induction false} InsertIndexMap<S(!new), T(!new)>(f: (Text, S), fs: seq<(Text, S)>, m: S -> T)
    ensures MapFields(InsertIndex(f, fs), m) == InsertIndex((f.0, m(f.1)), MapFields(fs, m))
  {
    if fs == [] || NumeralBelow(f.0, fs[0].0) {
      MapCons(f, fs, m);
    } else {
      MapTail(fs, m);
      InsertIndexMap(f, fs[1..], m);
      MapCons(fs[0], InsertIndex(f, fs[1..]), m);
    }
  }

  lemma {:induction false} IndexFieldsMap<S(!new), T(!new)>(fs: seq<(Text, S)>, m: S -> T)
    ensures MapFields(IndexFields(fs), m) == IndexFields(MapFields(fs, m))
  {
    if fs != [] {
      MapTail(fs, m);
      IndexFieldsMap(fs[1..], m);
      InsertIndexMap(fs[0], IndexFields(fs[1..]), m);
    }
  }

  lemma {:induction false} NamedFieldsMap<S(!new), T(!new)>(fs: seq<(Text, S)>, m: S -> T)
    ensures MapFields(NamedFields(fs), m) == NamedFields(MapFields(fs, m))
  {
    if fs != [] {
      MapTail(fs, m);
      NamedFieldsMap(fs[1..], m);
      MapCons(fs[0], NamedFields(fs[1..]), m);
    }
  }

  lemma MapConcat<S(!new), T(!new)>(xs: seq<(Text, S)>, ys: seq<(Text, S)>, m: S -> T)
    ensures MapFields(xs + ys, m) == MapFields(xs, m) + MapFields(ys, m)
  {
  }

  /** The enumeration order looks at keys only. */
  lemma EnumerateMap<S(!new), T(!new)>(fs: seq<(Text, S)>, m: S -> T)
    ensures MapFields(Enumerate(fs), m) == Enumerate(MapFields(fs, m))
  {
    IndexFieldsMap(fs, m);
    NamedFieldsMap(fs, m);
    MapConcat(IndexFields(fs), NamedFields(fs), m);
  }

  // ------------------------------------------------ what the enumeration order is

  ghost predicate NumeralsAscend<T>(fs: seq<(Text, T)>) {
    forall i: nat, j: nat :: i < j < |fs| ==> NumeralBelow(fs[i].0, fs[j].0)
  }

  lemma NumeralTransitive(a: Text, b: Text, c: Text)
    requires NumeralBelow(a, b) && NumeralBelow(b, c)
    ensures NumeralBelow(a, c)
  {
    if |a| == |b| == |c| {
      BelowTransitive(a, b, c);
    }
  }

  lemma NumeralTotal(a: Text, b: Text)
    requires a != b
    ensures NumeralBelow(a, b) || NumeralBelow(b, a)
  {
    BelowTotal(a, b);
  }

  lemma {:induction false} InsertIndexAscends<T(!new)>(f: (Text, T), fs: seq<(Text, T)>)
    requires NumeralsAscend(fs) && forall g :: g in fs ==> g.0 != f.0
    ensures NumeralsAscend(InsertIndex(f, fs))
    decreases |fs|
  {
    if fs != [] {
      var tail := fs[1..];
      assert fs == [fs[0]] + tail;
      assert NumeralsAscend(tail) by {
        forall i: nat, j: nat | i < j < |tail| ensures NumeralBelow(tail[i].0, tail[j].0) {
          assert NumeralBelow(fs[i + 1].0, fs[j + 1].0);
        }
      }
      var r := InsertIndex(f, fs);
      if NumeralBelow(f.0, fs[0].0) {
        NumeralCons(f, fs);
      } else {
        NumeralTotal(f.0, fs[0].0);
        InsertIndexAscends(f, tail);
        NumeralHead(fs);
        NumeralConsAll(fs[0], InsertIndex(f, tail));
      }
    }
  }

  lemma NumeralHead<T>(fs: seq<(Text, T)>)
    requires NumeralsAscend(fs) && fs != []
    ensures forall g :: g in fs[1..] ==> NumeralBelow(fs[0].0, g.0)
  {
    forall g | g in fs[1..] ensures NumeralBelow(fs[0].0, g.0) {
      var j :| 0 <= j < |fs[1..]| && fs[1..][j] == g;
      assert NumeralBelow(fs[0].0, fs[j + 1].0);
    }
  }

  lemma NumeralConsAll<T>(f: (Text, T), fs: seq<(Text, T)>)
    requires NumeralsAscend(fs) && forall g :: g in fs ==> NumeralBelow(f.0, g.0)
    ensures NumeralsAscend([f] + fs)
  {
    var r := [f] + fs;
    forall i: nat, j: nat | i < j < |r| ensures NumeralBelow(r[i].0, r[j].0) {
      assert r[j] == fs[j - 1];
      if i > 0 {
        assert NumeralBelow(fs[i - 1].0, fs[j - 1].0);
      }
    }
  }

  lemma NumeralCons<T>(f: (Text, T), fs: seq<(Text, T)>)
    requires NumeralsAscend(fs) && fs != [] && NumeralBelow(f.0, fs[0].0)
    ensures NumeralsAscend([f] + fs)
  {
    NumeralHead(fs);
    assert fs == [fs[0]] + fs[1..];
    forall g | g in fs ensures NumeralBelow(f.0, g.0) {
      if g != fs[0] {
        NumeralTransitive(f.0, fs[0].0, g.0);
      }
    }
    NumeralConsAll(f, fs);
  }

  lemma {:induction false} IndexFieldsAscend<T(!new)>(fs: seq<(Text, T)>)
    requires StrictlySorted(fs)
    ensures NumeralsAscend(IndexFields(fs))
    decreases |fs|
  {
    if fs != [] {
      StrictTail(fs);
      IndexFieldsAscend(fs[1..]);
      if IsIndexKey(fs[0].0) {
        forall g | g in IndexFields(fs[1..]) ensures g.0 != fs[0].0 {
          BelowIrreflexive(fs[0].0);
        }
        InsertIndexAscends(fs[0], IndexFields(fs[1..]));
      }
    }
  }

  lemma {:induction false} NamedFieldsAscend<T(!new)>(fs: seq<(Text, T)>)
    requires StrictlySorted(fs)
    ensures StrictlySorted(NamedFields(fs))
    decreases |fs|
  {
    if fs != [] {
      StrictTail(fs);
      NamedFieldsAscend(fs[1..]);
      if !IsIndexKey(fs[0].0) {
        StrictCons(fs[0], NamedFields(fs[1..]));
      }
    }
  }

  /** The enumeration of a sorted property list: integer-like keys come first, by value, and the others
      follow in code-unit order. */
  lemma EnumerateExact<T(!new)>(fs: seq<(Text, T)>, i: nat, j: nat)
    requires StrictlySorted(fs) && i < j < |Enumerate(fs)|
    ensures var a, b := Enumerate(fs)[i].0, Enumerate(fs)[j].0;
      if IsIndexKey(a) then !IsIndexKey(b) || NumeralBelow(a, b) else !IsIndexKey(b) && Below(a, b)
  {
    IndexFieldsAscend(fs);
    NamedFieldsAscend(fs);
    var index, named := IndexFields(fs), NamedFields(fs);
    if i < |index| {
      assert Enumerate(fs)[i] in index;
    } else {
      assert Enumerate(fs)[i] == named[i - |index|] && named[i - |index|] in named;
    }
    if j < |index| {
      assert Enumerate(fs)[j] in index;
    } else {
      assert Enumerate(fs)[j] == named[j - |index|] && named[j - |index|] in named;
    }
  }
}
