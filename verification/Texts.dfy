/** Shared vocabulary: failure types, JavaScript text as UTF-16 code units, its default
    sort order, and a sort by a text key. */

module Wrappers {
  datatype Option<+T> = None | Some(value: T)

  datatype Result<+T, +E> = Ok(value: T) | Err(error: E)
}

module Texts {
  /** A JavaScript string is a sequence of 16-bit code units; lone surrogates are allowed. */
  type CodeUnit = x: int | 0 <= x < 0x1_0000
  type Text = seq<CodeUnit>

  /** The order used by `<` on strings and by the default array sort: code unit by code unit. */
  predicate Below(a: Text, b: Text) {
    b != [] && (a == [] || a[0] < b[0] || (a[0] == b[0] && Below(a[1..], b[1..])))
  }

  /** The texts agree up to k, where the first one ends or has the smaller unit. */
  predicate DiffersAt(a: Text, b: Text, k: nat) {
    k <= |a| && k < |b| && a[..k] == b[..k] && (k == |a| || a[k] < b[k])
  }

  /** One text is below another exactly when at the first difference it has the smaller unit or none. */
  lemma {:induction false} BelowExact(a: Text, b: Text)
    ensures Below(a, b) <==> exists k: nat :: DiffersAt(a, b, k)
  {
    if b != [] && a != [] && a[0] == b[0] {
      BelowExact(a[1..], b[1..]);
      if Below(a, b) {
        var k: nat :| DiffersAt(a[1..], b[1..], k);
        assert a[..k + 1] == [a[0]] + a[1..][..k] && b[..k + 1] == [b[0]] + b[1..][..k];
        assert DiffersAt(a, b, k + 1);
      }
      if exists k: nat :: DiffersAt(a, b, k) {
        var k: nat :| DiffersAt(a, b, k);
        assert a[1..][..k - 1] == a[..k][1..] && b[1..][..k - 1] == b[..k][1..];
        assert DiffersAt(a[1..], b[1..], k - 1);
      }
    } else {
      assert Below(a, b) ==> DiffersAt(a, b, 0);
      forall k: nat | DiffersAt(a, b, k) ensures k == 0 {
        AgreesBefore(a, b, k);
      }
    }
  }

  lemma AgreesBefore(a: Text, b: Text, k: nat)
    requires DiffersAt(a, b, k)
    ensures k == 0 || (a != [] && b != [] && a[0] == b[0])
  {
    if k > 0 {
      assert a[..k][0] == b[..k][0];
    }
  }

  lemma {:induction false} BelowIrreflexive(a: Text)
    ensures !Below(a, a)
  {
    if a != [] {
      BelowIrreflexive(a[1..]);
    }
  }

  lemma {:induction false} BelowTransitive(a: Text, b: Text, c: Text)
    requires Below(a, b) && Below(b, c)
    ensures Below(a, c)
  {
    if a != [] && a[0] == b[0] && b[0] == c[0] {
      BelowTransitive(a[1..], b[1..], c[1..]);
    }
  }

  lemma {:induction false} BelowTotal(a: Text, b: Text)
    ensures a == b || Below(a, b) || Below(b, a)
  {
    if a != [] && b != [] && a[0] == b[0] {
      BelowTotal(a[1..], b[1..]);
      assert a == [a[0]] + a[1..] && b == [b[0]] + b[1..];
    }
  }

  predicate AtMost(a: Text, b: Text) {
    a == b || Below(a, b)
  }

  lemma AtMostTransitive(a: Text, b: Text, c: Text)
    requires AtMost(a, b) && AtMost(b, c)
    ensures AtMost(a, c)
  {
    if a != b && b != c {
      BelowTransitive(a, b, c);
    }
  }

  lemma AtMostAntisymmetric(a: Text, b: Text)
    requires AtMost(a, b) && AtMost(b, a)
    ensures a == b
  {
    if a != b {
      BelowTransitive(a, b, a);
      BelowIrreflexive(a);
    }
  }

  ghost predicate Sorted(xs: seq<Text>) {
    forall i, j :: 0 <= i < j < |xs| ==> AtMost(xs[i], xs[j])
  }

  function Insert(x: Text, xs: seq<Text>): (r: seq<Text>)
    requires Sorted(xs)
    ensures Sorted(r)
    ensures multiset(r) == multiset(xs) + multiset{x}
  {
    if xs == [] then [x]
    else if AtMost(x, xs[0]) then
      assert forall j :: 0 <= j < |xs| ==> AtMost(x, xs[j]) by {
        forall j | 0 <= j < |xs| ensures AtMost(x, xs[j]) {
          if j > 0 { AtMostTransitive(x, xs[0], xs[j]); }
        }
      }
      [x] + xs
    else
      var r := Insert(x, xs[1..]);
      assert xs == [xs[0]] + xs[1..];
      assert forall t :: t in r ==> AtMost(xs[0], t) by {
        BelowTotal(x, xs[0]);
        forall t | t in r ensures AtMost(xs[0], t) {
          assert t in multiset(r);
          assert t == x || t in multiset(xs[1..]);
        }
      }
      [xs[0]] + r
  }

  /** `[...xs].sort()`. */
  function SortTexts(xs: seq<Text>): (r: seq<Text>)
    ensures Sorted(r)
    ensures multiset(r) == multiset(xs)
    ensures |r| == |xs|
  {
    if xs == [] then []
    else
      assert xs == [xs[0]] + xs[1..];
      var r := Insert(xs[0], SortTexts(xs[1..]));
      assert |multiset(r)| == |multiset(xs)|;
      r
  }

  /** A sorted sequence is determined by its contents, so the sort forgets the input order. */
  lemma {:induction false} SortedUnique(xs: seq<Text>, ys: seq<Text>)
    requires Sorted(xs) && Sorted(ys) && multiset(xs) == multiset(ys)
    ensures xs == ys
  {
    if xs == [] {
      assert ys == [] by {
        assert |multiset(ys)| == 0;
      }
      return;
    }
    assert ys != [] by {
      assert xs[0] in multiset(ys);
    }
    assert xs[0] == ys[0] by {
      assert xs[0] in multiset(ys) && ys[0] in multiset(xs);
      FirstIsLeast(xs, ys[0]);
      FirstIsLeast(ys, xs[0]);
      AtMostAntisymmetric(xs[0], ys[0]);
    }
    assert xs == [xs[0]] + xs[1..] && ys == [ys[0]] + ys[1..];
    assert multiset(xs[1..]) == multiset(xs) - multiset{xs[0]};
    assert multiset(ys[1..]) == multiset(ys) - multiset{xs[0]};
    SortedUnique(xs[1..], ys[1..]);
  }

  lemma FirstIsLeast(xs: seq<Text>, t: Text)
    requires Sorted(xs) && t in xs
    ensures AtMost(xs[0], t)
  {
  }
}
