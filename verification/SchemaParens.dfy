/** Redundant outer parentheses in packages/database-reconciliation/src/schema-normalization.ts. */
module SchemaParens {
  import opened SchemaText

  /** Parenthesis depth and literal state; a quote behind a backslash does not count. */
  datatype Nesting = Nesting(depth: int, quoted: bool)

  function NestStep(n: Nesting, escaped: bool, c: char): Nesting {
    if c == '\'' && !escaped then n.(quoted := !n.quoted)
    else if n.quoted then n
    else if c == '(' then n.(depth := n.depth + 1)
    else if c == ')' then n.(depth := n.depth - 1)
    else n
  }

  /** The state after the first k characters. */
  function NestingAt(text: string, k: nat): Nesting
    requires k <= |text|
    decreases k
  {
    if k == 0 then Nesting(0, false)
    else NestStep(NestingAt(text, k - 1), k > 1 && text[k - 2] == '\\', text[k - 1])
  }

  /** A quote that no backslash precedes. */
  predicate QuoteAt(text: string, j: nat)
    requires j < |text|
  {
    text[j] == '\'' && (j > 0 ==> text[j - 1] != '\\')
  }

  function QuotesBefore(text: string, k: nat): set<nat>
    requires k <= |text|
  {
    set j: nat | j < k && QuoteAt(text, j)
  }

  /** The marks among the first k characters that stand outside literals: after an even number of quotes. */
  function MarksBefore(text: string, mark: char, k: nat): set<nat>
    requires k <= |text|
  {
    set j: nat | j < k && text[j] == mark && |QuotesBefore(text, j)| % 2 == 0
  }

  lemma OneMoreQuote(text: string, k: nat)
    requires k < |text|
    ensures |QuotesBefore(text, k + 1)|
         == |QuotesBefore(text, k)| + if QuoteAt(text, k) then 1 else 0
  {
    assert QuotesBefore(text, k + 1)
        == QuotesBefore(text, k) + if QuoteAt(text, k) then {k} else {};
  }

  lemma OneMoreMark(text: string, mark: char, k: nat)
    requires k < |text|
    ensures |MarksBefore(text, mark, k + 1)|
         == |MarksBefore(text, mark, k)| + if text[k] == mark && |QuotesBefore(text, k)| % 2 == 0 then 1 else 0
  {
    hide QuotesBefore;
    assert MarksBefore(text, mark, k + 1)
        == MarksBefore(text, mark, k) + if text[k] == mark && |QuotesBefore(text, k)| % 2 == 0 then {k} else {};
  }

  lemma NothingBefore(text: string)
    ensures QuotesBefore(text, 0) == {} && MarksBefore(text, '(', 0) == {} && MarksBefore(text, ')', 0) == {}
  {
  }

  /** The scan is inside a literal after an odd number of unescaped quotes, and its depth is what the
      parentheses outside literals open less what they close. */
  lemma {:induction false} NestingCounts(text: string, k: nat)
    requires k <= |text|
    ensures NestingAt(text, k).quoted <==> |QuotesBefore(text, k)| % 2 == 1
    ensures NestingAt(text, k).depth == |MarksBefore(text, '(', k)| - |MarksBefore(text, ')', k)|
    decreases k
  {
    hide QuotesBefore, MarksBefore;
    if k == 0 {
      NothingBefore(text);
    } else {
      NestingCounts(text, k - 1);
      OneMoreQuote(text, k - 1);
      OneMoreMark(text, '(', k - 1);
      OneMoreMark(text, ')', k - 1);
    }
  }

  /** Every closing parenthesis has its opening one, and nothing is left open, literals included. */
  predicate Balanced(text: string) {
    NestingAt(text, |text|) == Nesting(0, false) && forall k :: 0 <= k <= |text| ==> NestingAt(text, k).depth >= 0
  }

  /** The first parenthesis is closed by the last character. */
  predicate Enclosed(text: string) {
    && |text| >= 2 && text[0] == '(' && text[|text| - 1] == ')'
    && NestingAt(text, |text|).depth == 0
    && forall k :: 1 <= k < |text| ==> NestingAt(text, k).depth > 0
  }

  lemma {:induction false} NestingInside(text: string, inner: string, k: nat)
    requires text == "(" + inner + ")" && k <= |inner|
    ensures NestingAt(text, k + 1) == NestingAt(inner, k).(depth := NestingAt(inner, k).depth + 1)
    decreases k
  {
    if k > 0 {
      NestingInside(text, inner, k - 1);
      assert text[k] == inner[k - 1];
      assert k > 1 ==> text[k - 1] == inner[k - 2];
    } else {
      assert NestingAt(text, 1) == NestStep(NestingAt(text, 0), false, '(');
    }
  }

  predicate Wrapped(text: string, inner: string) {
    text == "(" + inner + ")"
  }

  /** The scan accepts exactly one pair of parentheses around a balanced text. */
  lemma EnclosedExact(text: string, inner: string)
    requires Wrapped(text, inner)
    ensures Enclosed(text) <==> Balanced(inner)
  {
    hide NestingAt;
    NestingInside(text, inner, |inner|);
    ClosingStep(text, inner);
    if Enclosed(text) {
      forall k | 0 <= k <= |inner|
        ensures NestingAt(inner, k).depth >= 0
      {
        NestingInside(text, inner, k);
        assert NestingAt(text, k + 1).depth > 0;
      }
    }
    if Balanced(inner) {
      forall k | 1 <= k < |text|
        ensures NestingAt(text, k).depth > 0
      {
        NestingInside(text, inner, k - 1);
        assert NestingAt(inner, k - 1).depth >= 0;
      }
    }
  }

  lemma ClosingStep(text: string, inner: string)
    requires Wrapped(text, inner)
    ensures var n := NestingAt(text, |text| - 1);
      NestingAt(text, |text|) == if n.quoted then n else n.(depth := n.depth - 1)
  {
  }

  /** `hasSingleOuterParenPair`. */
  method HasSingleOuterParenPair(value: string) returns (r: bool)
    ensures r <==> Enclosed(value)
  {
    if !(|value| > 0 && value[0] == '(') || !(|value| > 0 && value[|value| - 1] == ')') {
      return false;
    }
    var depth, inSingleQuote, index := 0, false, 0;
    while index < |value|
      invariant 0 <= index <= |value| && NestingAt(value, index) == Nesting(depth, inSingleQuote)
      invariant forall k :: 1 <= k <= index && k < |value| ==> NestingAt(value, k).depth > 0
    {
      var character := value[index];
      index := index + 1;
      assert NestingAt(value, index) == NestStep(NestingAt(value, index - 1), index > 1 && value[index - 2] == '\\', character);
      if character == '\'' && !(index > 1 && value[index - 2] == '\\') {
        inSingleQuote := !inSingleQuote;
        continue;
      }
      if inSingleQuote {
        continue;
      }
      if character == '(' {
        depth := depth + 1;
      }
      if character == ')' {
        depth := depth - 1;
        if depth == 0 && index < |value| {
          return false;
        }
      }
    }
    r := depth == 0;
  }

  /** `unwrapOuterParens`: layers of enclosing parentheses are taken off, with the space around them. */
  function Unwrap(value: string): string
    decreases |Trim(value)|
  {
    var text := Trim(value);
    if Enclosed(text) then
      TrimShrinks(text[1..|text| - 1]);
      Unwrap(text[1..|text| - 1])
    else text
  }

  lemma TrimShrinks(s: string)
    ensures |Trim(s)| <= |s|
  {
    var lead := TrimStartParts(s);
    TrimEndParts(TrimStart(s));
  }

  method UnwrapOuterParens(value: string) returns (result: string)
    ensures result == Unwrap(value)
  {
    result := Trim(value);
    var enclosed := HasSingleOuterParenPair(result);
    while enclosed
      invariant enclosed <==> Enclosed(result)
      invariant Unwrap(value) == if enclosed then Unwrap(result[1..|result| - 1]) else result
      decreases |result|
    {
      TrimShrinks(result[1..|result| - 1]);
      result := Trim(result[1..|result| - 1]);
      enclosed := HasSingleOuterParenPair(result);
    }
  }

  /** A text without an enclosing pair or space at its ends is what unwrapping leaves; unwrapping it again
      changes nothing. */
  lemma {:induction false} UnwrapSettles(value: string)
    ensures var r := Unwrap(value);
      !Enclosed(r) && Trim(r) == r && Unwrap(r) == r
    decreases |Trim(value)|
  {
    hide IsSpace, TrimStart, TrimEnd, Trim, Enclosed;
    var text := Trim(value);
    TrimTwice(value);
    if Enclosed(text) {
      EnclosedIsWide(text);
      TrimShrinks(text[1..|text| - 1]);
      UnwrapSettles(text[1..|text| - 1]);
    }
  }

  /** White space around a core. */
  predicate Around(text: string, lead: string, core: string, tail: string) {
    AllSpace(lead) && AllSpace(tail) && text == lead + core + tail
  }

  /** The core within n pairs of parentheses, each around a balanced text, with white space anywhere between. */
  ghost predicate Layered(text: string, core: string, n: nat)
    decreases n
  {
    if n == 0 then exists lead, tail :: Around(text, lead, core, tail)
    else exists lead, tail, wrapped, inner ::
      Around(text, lead, wrapped, tail) && Wrapped(wrapped, inner) && Balanced(inner) && Layered(inner, core, n - 1)
  }

  lemma SolidParts(s: string)
    ensures var r := Trim(s);
      StartsSolid(r) && EndsSolid(r) && exists lead, tail :: Around(s, lead, r, tail)
  {
    hide IsSpace, AllSpace, TrimStart, TrimEnd;
    var front := TrimStart(s);
    var lead := TrimStartParts(s);
    TrimEndParts(front);
    var core, tail := TrimEnd(front), front[|TrimEnd(front)|..];
    assert front == core + tail;
    assert lead + (core + tail) == lead + core + tail;
    assert Around(s, lead, core, tail);
  }

  lemma TrimIsCore(text: string, lead: string, core: string, tail: string)
    requires Around(text, lead, core, tail) && StartsSolid(core) && EndsSolid(core) && core != ""
    ensures Trim(text) == core
  {
    hide IsSpace, AllSpace, TrimStart, TrimEnd;
    assert text == lead + (core + tail);
    TrimStartUnique(text, lead, core + tail);
    TrimEndUnique(core + tail, core, tail);
  }

  lemma TrimToNothing(text: string, lead: string, tail: string)
    requires Around(text, lead, "", tail)
    ensures Trim(text) == ""
  {
    hide IsSpace, TrimStart, TrimEnd;
    NoSpaces();
    assert text == text + "" && text == "" + text && AllSpace(text);
    TrimStartUnique(text, text, "");
    TrimEndUnique("", "", "");
  }

  lemma WrappedIsSolid(text: string, inner: string)
    requires Wrapped(text, inner)
    ensures StartsSolid(text) && EndsSolid(text) && text != "" && text[1..|text| - 1] == inner
  {
    MarksAreSolid();
  }

  /** What unwrapping leaves lies within some number of enclosing pairs. */
  lemma {:induction false} UnwrapPeels(value: string) returns (n: nat)
    ensures Layered(value, Unwrap(value), n)
    decreases |Trim(value)|
  {
    hide IsSpace, AllSpace, Trim, Balanced, Around, Enclosed;
    var text := Trim(value);
    SolidParts(value);
    var lead, tail :| Around(value, lead, text, tail);
    if Enclosed(text) {
      EnclosedIsWide(text);
      var inner := text[1..|text| - 1];
      EnclosedExact(text, inner);
      TrimShrinks(inner);
      var layers := UnwrapPeels(inner);
      n := layers + 1;
    } else {
      n := 0;
    }
  }

  /** Whatever lies within enclosing pairs, and is itself neither enclosed nor ends in space, is what
      unwrapping leaves. */
  lemma {:induction false} UnwrapFinds(value: string, core: string, n: nat)
    requires Layered(value, core, n) && !Enclosed(core) && Trim(core) == core
    ensures Unwrap(value) == core
    decreases n
  {
    hide IsSpace, AllSpace, Trim, Balanced, Around, Enclosed;
    if n == 0 {
      var lead, tail :| Around(value, lead, core, tail);
      SolidParts(core);
      if core == "" {
        TrimToNothing(value, lead, tail);
      } else {
        TrimIsCore(value, lead, core, tail);
      }
    } else {
      var lead, tail, wrapped, inner :|
        Around(value, lead, wrapped, tail) && Wrapped(wrapped, inner) && Balanced(inner) && Layered(inner, core, n - 1);
      WrappedIsSolid(wrapped, inner);
      TrimIsCore(value, lead, wrapped, tail);
      EnclosedExact(wrapped, inner);
      UnwrapFinds(inner, core, n - 1);
    }
  }

  /** Unwrapping leaves exactly the text that lies within enclosing pairs and is itself not enclosed. */
  lemma UnwrapExact(value: string, core: string)
    ensures Unwrap(value) == core <==> !Enclosed(core) && Trim(core) == core && exists n :: Layered(value, core, n)
  {
    hide *;
    UnwrapSettles(value);
    var n := UnwrapPeels(value);
    if !Enclosed(core) && Trim(core) == core && exists n :: Layered(value, core, n) {
      var k :| Layered(value, core, k);
      UnwrapFinds(value, core, k);
    }
  }

  lemma EnclosedIsWide(text: string)
    requires Enclosed(text)
    ensures |text| >= 2 && Wrapped(text, text[1..|text| - 1])
  {
    assert text == [text[0]] + text[1..|text| - 1] + [text[|text| - 1]];
  }

  lemma TrimTwice(s: string)
    ensures Trim(Trim(s)) == Trim(s)
  {
    hide IsSpace;
    var front := TrimStart(s);
    var lead := TrimStartParts(s);
    TrimEndParts(front);
    var core := TrimEnd(front);
    NoSpaces();
    assert core == "" + core && core == core + "";
    TrimStartUnique(core, "", core);
    TrimEndUnique(core, core, "");
  }

  /** Unwrapping never separates parentheses that belong together: a balanced text stays balanced. */
  lemma {:induction false} UnwrapKeepsBalance(value: string)
    requires Balanced(Trim(value))
    ensures Balanced(Unwrap(value))
    decreases |Trim(value)|
  {
    hide IsSpace, TrimStart, TrimEnd, Trim, Balanced, NestingAt;
    var text := Trim(value);
    if Enclosed(text) {
      var inner := text[1..|text| - 1];
      assert Wrapped(text, inner);
      EnclosedExact(text, inner);
      TrimShrinks(inner);
      TrimKeepsBalance(inner);
      UnwrapKeepsBalance(inner);
    }
  }

  lemma {:induction false} NestingPastLead(lead: string, text: string, k: nat)
    requires AllSpace(lead) && k <= |text|
    ensures NestingAt(lead + text, |lead| + k) == NestingAt(text, k)
    decreases |lead| + k
  {
    MarksAreSolid();
    if k > 0 {
      NestingPastLead(lead, text, k - 1);
      assert (lead + text)[|lead| + k - 1] == text[k - 1];
      if k > 1 {
        assert (lead + text)[|lead| + k - 2] == text[k - 2];
      } else if lead != "" {
        assert (lead + text)[|lead| - 1] == lead[|lead| - 1];
      }
    } else if lead != "" {
      var init, c := lead[..|lead| - 1], lead[|lead| - 1];
      NestingPastLead(init, [c] + text, 0);
      assert lead + text == init + ([c] + text);
      assert (lead + text)[|lead| - 1] == c;
    }
  }

  lemma {:induction false} NestingOfPrefix(text: string, tail: string, k: nat)
    requires k <= |text|
    ensures NestingAt(text + tail, k) == NestingAt(text, k)
    decreases k
  {
    if k > 0 {
      NestingOfPrefix(text, tail, k - 1);
    }
  }

  lemma {:induction false} NestingPastTail(text: string, tail: string)
    requires AllSpace(tail)
    ensures NestingAt(text + tail, |text + tail|) == NestingAt(text, |text|)
    decreases |tail|
  {
    MarksAreSolid();
    if tail == "" {
      assert text + tail == text;
    } else {
      var init, c := tail[..|tail| - 1], tail[|tail| - 1];
      NestingPastTail(text, init);
      assert text + tail == (text + init) + [c];
      NestingOfPrefix(text + init, [c], |text + init|);
    }
  }

  lemma TrimKeepsBalance(value: string)
    requires Balanced(value)
    ensures Balanced(Trim(value))
  {
    hide IsSpace, AllSpace, NestingAt, TrimStart, TrimEnd;
    var front := TrimStart(value);
    var lead := TrimStartParts(value);
    TrimEndParts(front);
    var core, tail := TrimEnd(front), front[|TrimEnd(front)|..];
    assert front == core + tail;
    forall k | 0 <= k <= |core|
      ensures NestingAt(core, k) == NestingAt(value, |lead| + k)
    {
      NestingOfPrefix(core, tail, k);
      NestingPastLead(lead, front, k);
    }
    NestingPastTail(core, tail);
    NestingPastLead(lead, front, |front|);
  }
}
