/** The quote-aware expression scanners of packages/database-reconciliation/src/schema-normalization.ts. */
module SchemaText {
  // ---------------------------------------------------------------- characters and trimming

  /** JavaScript white space and line ends, the set of both `\s` and `trim`. */
  predicate IsSpace(c: char) {
    var n := c as int;
    9 <= n <= 13 || n == 32 || n == 0xa0 || n == 0x1680 || 0x2000 <= n <= 0x200a || n == 0x2028 || n == 0x2029
    || n == 0x202f || n == 0x205f || n == 0x3000 || n == 0xfeff
  }

  /** Case folding of the ASCII letters. */
  function Lower(c: char): char {
    if 'A' <= c <= 'Z' then ((c as int) + 32) as char else c
  }

  lemma LowerSettles(c: char)
    ensures Lower(Lower(c)) == Lower(c) && (IsSpace(Lower(c)) <==> IsSpace(c)) && (Lower(c) == '\'' <==> c == '\'')
    ensures IsSpace(c) ==> Lower(c) == c
  {
  }

  predicate AllSpace(s: string) {
    forall i :: 0 <= i < |s| ==> IsSpace(s[i])
  }

  function TrimStart(s: string): string
    decreases |s|
  {
    if s != "" && IsSpace(s[0]) then TrimStart(s[1..]) else s
  }

  function TrimEnd(s: string): string
    decreases |s|
  {
    if s != "" && IsSpace(s[|s| - 1]) then TrimEnd(s[..|s| - 1]) else s
  }

  lemma {:induction false} TrimEndParts(s: string)
    ensures TrimEnd(s) <= s && AllSpace(s[|TrimEnd(s)|..]) && EndsSolid(TrimEnd(s))
    decreases |s|
  {
    if s != "" && IsSpace(s[|s| - 1]) {
      var init := s[..|s| - 1];
      TrimEndParts(init);
      forall i | 0 <= i < |s| - |TrimEnd(init)|
        ensures IsSpace(s[|TrimEnd(init)|..][i])
      {
        if i < |init| - |TrimEnd(init)| {
          assert s[|TrimEnd(init)|..][i] == init[|TrimEnd(init)|..][i];
        }
      }
    }
  }

  /** The text is empty or ends in something visible. */
  predicate EndsSolid(s: string) {
    s != "" ==> !IsSpace(s[|s| - 1])
  }

  predicate StartsSolid(s: string) {
    s != "" ==> !IsSpace(s[0])
  }

  function Trim(s: string): string {
    TrimEnd(TrimStart(s))
  }

  lemma {:induction false} TrimStartParts(s: string) returns (lead: string)
    ensures AllSpace(lead) && s == lead + TrimStart(s) && StartsSolid(TrimStart(s))
    decreases |s|
  {
    if s != "" && IsSpace(s[0]) {
      var rest := TrimStartParts(s[1..]);
      lead := [s[0]] + rest;
      assert s == [s[0]] + s[1..];
    } else {
      lead := "";
    }
  }

  lemma NoSpaces()
    ensures AllSpace("")
  {
  }

  lemma MarksAreSolid()
    ensures !IsSpace('\'') && !IsSpace('"') && !IsSpace('(') && !IsSpace(')') && !IsSpace(',') && !IsSpace('\\')
    ensures IsSpace(' ') && IsSpace('\r') && IsSpace('\n')
  {
  }

  lemma {:induction false} TrimEndUnique(s: string, core: string, tail: string)
    requires s == core + tail && AllSpace(tail) && EndsSolid(core)
    ensures TrimEnd(s) == core
    decreases |tail|
  {
    if tail == "" {
      assert s == core;
    } else {
      assert s[..|s| - 1] == core + tail[..|tail| - 1];
      assert s[|s| - 1] == tail[|tail| - 1];
      TrimEndUnique(s[..|s| - 1], core, tail[..|tail| - 1]);
    }
  }

  lemma {:induction false} TrimStartUnique(s: string, head: string, core: string)
    requires s == head + core && AllSpace(head) && StartsSolid(core)
    ensures TrimStart(s) == core
    decreases |head|
  {
    if head == "" {
      assert s == core;
    } else {
      assert s[1..] == head[1..] + core;
      assert s[0] == head[0];
      TrimStartUnique(s[1..], head[1..], core);
    }
  }

  // ---------------------------------------------------------------- line ends

  /** Carriage return plus line feed becomes line feed. */
  function Unix(s: string): (r: string)
    ensures |r| <= |s|
    decreases |s|
  {
    if s == "" then ""
    else if StartsCrLf(s) then "\n" + Unix(s[2..])
    else [s[0]] + Unix(s[1..])
  }

  predicate HasCrLf(s: string) {
    exists i :: 0 <= i < |s| - 1 && s[i] == '\r' && s[i + 1] == '\n'
  }

  predicate StartsCrLf(s: string) {
    |s| > 1 && s[0] == '\r' && s[1] == '\n'
  }

  lemma HasCrLfTail(s: string)
    requires s != "" && !StartsCrLf(s)
    ensures HasCrLf(s) <==> HasCrLf(s[1..])
  {
    if HasCrLf(s) {
      var i :| 0 <= i < |s| - 1 && s[i] == '\r' && s[i + 1] == '\n';
      assert s[1..][i - 1] == '\r' && s[1..][i] == '\n';
    }
    if HasCrLf(s[1..]) {
      var i :| 0 <= i < |s[1..]| - 1 && s[1..][i] == '\r' && s[1..][i + 1] == '\n';
      assert s[i + 1] == '\r' && s[i + 2] == '\n';
    }
  }

  lemma {:induction false} UnixExact(s: string)
    ensures !HasCrLf(s) ==> Unix(s) == s
    ensures HasCrLf(s) ==> |Unix(s)| < |s|
    decreases |s|
  {
    if s != "" && !StartsCrLf(s) {
      HasCrLfTail(s);
      UnixExact(s[1..]);
    }
  }

  /** Each pair becomes one line feed; with `UnixExact` this says what every text becomes. */
  lemma {:induction false} UnixAtPair(before: string, after: string)
    ensures Unix(before + "\r\n" + after) == Unix(before) + "\n" + Unix(after)
    decreases |before|
  {
    var text := before + "\r\n" + after;
    if before == "" {
      assert text[2..] == after;
    } else if StartsCrLf(before) {
      assert text[2..] == before[2..] + "\r\n" + after;
      UnixAtPair(before[2..], after);
    } else {
      assert text[1..] == before[1..] + "\r\n" + after;
      UnixAtPair(before[1..], after);
    }
  }

  // ---------------------------------------------------------------- white space and case

  /** The scanner's state: emitted text, white space seen since, inside a literal. */
  datatype Folded = Folded(out: string, pending: bool, quoted: bool)

  function Gap(s: Folded): string {
    if s.pending && s.out != "" then " " else ""
  }

  function FoldStep(s: Folded, c: char): Folded {
    if c == '\'' then Folded(s.out + Gap(s) + [c], false, !s.quoted)
    else if !s.quoted && IsSpace(c) then s.(pending := true)
    else Folded(s.out + Gap(s) + [if s.quoted then c else Lower(c)], false, s.quoted)
  }

  function Fold(text: string): Folded
    decreases |text|
  {
    if text == "" then Folded("", false, false) else FoldStep(Fold(text[..|text| - 1]), text[|text| - 1])
  }

  lemma FoldSnoc(text: string, c: char)
    ensures Fold(text + [c]) == FoldStep(Fold(text), c)
  {
    assert (text + [c])[..|text|] == text;
  }

  lemma FoldNothing()
    ensures Fold("") == Folded("", false, false)
  {
  }

  /** The scan never grows the text, starts with something visible, and leaves no pending white space in
      a literal. */
  lemma {:induction false} FoldShape(text: string)
    ensures var s := Fold(text);
      && (s.quoted ==> !s.pending && s.out != "") && StartsSolid(s.out)
      && |s.out| + (if s.pending then 1 else 0) <= |text|
    decreases |text|
  {
    if text != "" {
      hide IsSpace, Fold;
      var c, before := text[|text| - 1], text[..|text| - 1];
      assert text == before + [c];
      FoldShape(before);
      FoldSnoc(before, c);
      LowerSettles(c);
      MarksAreSolid();
    }
  }

  /** `normalizeExpressionWhitespaceAndCase`. */
  function FoldExpression(value: string): string {
    Trim(Fold(Unix(value)).out)
  }

  method NormalizeExpressionWhitespaceAndCase(value: string) returns (r: string)
    ensures r == FoldExpression(value)
  {
    hide Fold, Unix, Trim, IsSpace, Lower;
    var input := Unix(value);
    FoldNothing();
    assert input[..0] == "";
    var result := "";
    var pendingWhitespace, inSingleQuote, index := false, false, 0;
    while index < |input|
      invariant 0 <= index <= |input|
      invariant Fold(input[..index]) == Folded(result, pendingWhitespace, inSingleQuote)
    {
      var character := input[index];
      assert input[..index + 1] == input[..index] + [character];
      FoldSnoc(input[..index], character);
      FoldShape(input[..index]);
      if character == '\'' && inSingleQuote && index + 1 < |input| && input[index + 1] == '\'' {
        assert input[..index + 2] == input[..index + 1] + [input[index + 1]];
        FoldSnoc(input[..index + 1], input[index + 1]);
        result := result + "'" + "'";
        index := index + 2;
        continue;
      }
      if character == '\'' {
        inSingleQuote := !inSingleQuote;
        if pendingWhitespace && |result| > 0 {
          result := result + " ";
        }
        pendingWhitespace := false;
        result := result + [character];
        index := index + 1;
        continue;
      }
      if !inSingleQuote && IsSpace(character) {
        pendingWhitespace := true;
        index := index + 1;
        continue;
      }
      if pendingWhitespace && |result| > 0 {
        result := result + " ";
      }
      pendingWhitespace := false;
      result := result + [if inSingleQuote then character else Lower(character)];
      index := index + 1;
    }
    assert input[..index] == input;
    r := Trim(result);
  }

  /** Feeding the emitted text back reproduces the state, white space pending apart. */
  lemma {:induction false} FoldReproduces(text: string)
    ensures Fold(Fold(text).out) == Fold(text).(pending := false)
    decreases |text|
  {
    if text != "" {
      hide Fold, IsSpace, Lower, FoldStep;
      var c, before := text[|text| - 1], text[..|text| - 1];
      assert text == before + [c];
      FoldSnoc(before, c);
      FoldShape(before);
      FoldReproduces(before);
      StepReproduces(Fold(before), c);
    }
  }

  lemma StepReproduces(s: Folded, c: char)
    requires Fold(s.out) == s.(pending := false) && (s.quoted ==> !s.pending)
    ensures Fold(FoldStep(s, c).out) == FoldStep(s, c).(pending := false)
  {
    hide Fold, IsSpace, Lower;
    MarksAreSolid();
    LowerSettles(c);
    if c == '\'' || s.quoted || !IsSpace(c) {
      var d := if s.quoted || c == '\'' then c else Lower(c);
      if Gap(s) == "" {
        assert s.out + "" == s.out;
        FoldSnoc(s.out, d);
      } else {
        FoldSnoc(s.out, ' ');
        FoldSnoc(s.out + " ", d);
      }
    }
  }

  lemma FoldSpaceStep(s: Folded, c: char)
    requires IsSpace(c) && (s.quoted ==> !s.pending)
    ensures var t := FoldStep(s, c);
      s.out <= t.out && AllSpace(t.out[|s.out|..])
  {
    hide IsSpace;
    LowerSettles(c);
    MarksAreSolid();
  }

  lemma {:induction false} FoldPrefix(text: string, tail: string)
    requires AllSpace(tail)
    ensures Fold(text).out <= Fold(text + tail).out && AllSpace(Fold(text + tail).out[|Fold(text).out|..])
    decreases |tail|
  {
    hide Fold, IsSpace, FoldStep;
    if tail == "" {
      assert text + tail == text;
    } else {
      var init, c := tail[..|tail| - 1], tail[|tail| - 1];
      FoldPrefix(text, init);
      assert text + tail == (text + init) + [c];
      FoldSnoc(text + init, c);
      FoldShape(text + init);
      FoldSpaceStep(Fold(text + init), c);
      SpacesJoin(Fold(text).out, Fold(text + init).out, Fold(text + tail).out);
    }
  }

  lemma SpacesJoin(a: string, b: string, c: string)
    requires a <= b <= c && AllSpace(b[|a|..]) && AllSpace(c[|b|..])
    ensures a <= c && AllSpace(c[|a|..])
  {
    forall i | 0 <= i < |c[|a|..]|
      ensures IsSpace(c[|a|..][i])
    {
      if i < |b| - |a| {
        assert c[|a|..][i] == b[|a|..][i];
      } else {
        assert c[|a|..][i] == c[|b|..][i - (|b| - |a|)];
      }
    }
  }

  lemma FoldEndsSolid(text: string)
    requires EndsSolid(text)
    ensures EndsSolid(Fold(text).out) && (Fold(text).out == "" <==> text == "")
  {
    if text != "" {
      hide Fold, IsSpace;
      var c := text[|text| - 1];
      assert text == text[..|text| - 1] + [c];
      FoldSnoc(text[..|text| - 1], c);
      LowerSettles(c);
    }
  }

  /** The final trim amounts to trimming the end of the input. */
  lemma FoldExpressionCore(value: string)
    ensures FoldExpression(value) == Fold(TrimEnd(Unix(value))).out
  {
    hide Fold, IsSpace, Unix, TrimEnd, TrimStart, AllSpace;
    var input := Unix(value);
    var core := TrimEnd(input);
    TrimEndParts(input);
    var tail := input[|core|..];
    assert input == core + tail;
    FoldPrefix(core, tail);
    FoldEndsSolid(core);
    FoldShape(input);
    var out, solid := Fold(input).out, Fold(core).out;
    NoSpaces();
    assert out == "" + out;
    TrimStartUnique(out, "", out);
    assert out == solid + out[|solid|..];
    TrimEndUnique(out, solid, out[|solid|..]);
  }

  // ---------------------------------------------------------------- exact idempotence

  /** The number of quotes is odd: the text ends inside a literal. */
  predicate Inside(text: string)
    decreases |text|
  {
    text != "" && (Inside(text[..|text| - 1]) != (text[|text| - 1] == '\''))
  }

  lemma InsideSnoc(text: string, c: char)
    ensures Inside(text + [c]) <==> Inside(text) != (c == '\'')
  {
    assert (text + [c])[..|text|] == text;
  }

  /** A carriage return right before a line feed stands inside a literal. */
  predicate LiteralCrLf(text: string) {
    exists i :: 0 <= i < |text| - 1 && text[i] == '\r' && text[i + 1] == '\n' && Inside(text[..i])
  }

  predicate EndsInCr(text: string) {
    text != "" && text[|text| - 1] == '\r'
  }

  lemma LiteralCrLfSnoc(text: string, c: char)
    ensures LiteralCrLf(text + [c]) <==> LiteralCrLf(text) || (c == '\n' && EndsInCr(text) && Inside(text))
  {
    hide Inside;
    var longer := text + [c];
    if LiteralCrLf(longer) {
      var i :| 0 <= i < |longer| - 1 && longer[i] == '\r' && longer[i + 1] == '\n' && Inside(longer[..i]);
      if i + 1 < |text| {
        assert longer[..i] == text[..i];
      } else {
        assert longer[..i] == text[..i];
        assert text == text[..i] + ['\r'];
        InsideSnoc(text[..i], '\r');
      }
    }
    if LiteralCrLf(text) {
      var i :| 0 <= i < |text| - 1 && text[i] == '\r' && text[i + 1] == '\n' && Inside(text[..i]);
      assert longer[..i] == text[..i] && longer[i] == '\r' && longer[i + 1] == '\n';
    }
    if c == '\n' && EndsInCr(text) && Inside(text) {
      var i := |text| - 1;
      assert text == text[..i] + ['\r'];
      InsideSnoc(text[..i], '\r');
      assert longer[..i] == text[..i] && longer[i] == '\r' && longer[i + 1] == '\n';
    }
  }

  lemma HasCrLfSnoc(text: string, c: char)
    ensures HasCrLf(text + [c]) <==> HasCrLf(text) || (c == '\n' && EndsInCr(text))
  {
    var longer := text + [c];
    if HasCrLf(longer) {
      var i :| 0 <= i < |longer| - 1 && longer[i] == '\r' && longer[i + 1] == '\n';
      if i + 1 < |text| {
        assert text[i] == '\r' && text[i + 1] == '\n';
      }
    }
    if HasCrLf(text) {
      var i :| 0 <= i < |text| - 1 && text[i] == '\r' && text[i + 1] == '\n';
      assert longer[i] == '\r' && longer[i + 1] == '\n';
    }
    if c == '\n' && EndsInCr(text) {
      assert longer[|text| - 1] == '\r' && longer[|text|] == '\n';
    }
  }

  /** The emitted text has line-end pairs exactly where the input has them inside literals. */
  ghost predicate SameLineEnds(s: Folded, text: string) {
    && (s.quoted <==> Inside(text))
    && (s.quoted ==> (EndsInCr(s.out) <==> EndsInCr(text)))
    && (!s.quoted ==> !EndsInCr(s.out))
    && (HasCrLf(s.out) <==> LiteralCrLf(text))
  }

  lemma {:induction false} FoldCrLf(text: string)
    ensures SameLineEnds(Fold(text), text)
    decreases |text|
  {
    if text != "" {
      hide Fold, FoldStep, SameLineEnds;
      var c, before := text[|text| - 1], text[..|text| - 1];
      assert text == before + [c];
      FoldSnoc(before, c);
      FoldShape(before);
      FoldCrLf(before);
      StepCrLf(Fold(before), before, c);
    }
  }

  lemma StepCrLf(s: Folded, before: string, c: char)
    requires SameLineEnds(s, before) && (s.quoted ==> !s.pending)
    ensures SameLineEnds(FoldStep(s, c), before + [c])
  {
    hide Lower, IsSpace, LiteralCrLf, HasCrLf, Inside;
    InsideSnoc(before, c);
    LiteralCrLfSnoc(before, c);
    MarksAreSolid();
    LowerSettles(c);
    if c == '\'' || s.quoted || !IsSpace(c) {
      var d := if s.quoted || c == '\'' then c else Lower(c);
      if Gap(s) == "" {
        assert s.out + "" == s.out;
        HasCrLfSnoc(s.out, d);
      } else {
        HasCrLfSnoc(s.out, ' ');
        HasCrLfSnoc(s.out + " ", d);
      }
    }
  }

  /** Folding twice is folding once exactly when no carriage return stands before a line feed inside a
      literal once line ends are converted; white space at the very end does not matter. */
  lemma FoldIdempotentExact(value: string)
    ensures FoldExpression(FoldExpression(value)) == FoldExpression(value) <==> !LiteralCrLf(TrimEnd(Unix(value)))
  {
    hide Fold, IsSpace, Unix, HasCrLf, LiteralCrLf, TrimEnd, FoldExpression, Inside;
    var core := TrimEnd(Unix(value));
    var once := Fold(core).out;
    TrimEndParts(Unix(value));
    FoldExpressionCore(value);
    FoldExpressionCore(once);
    FoldCrLf(core);
    UnixExact(once);
    if HasCrLf(once) {
      TrimEndParts(Unix(once));
      FoldShape(TrimEnd(Unix(once)));
    } else {
      FoldEndsSolid(core);
      FoldReproduces(core);
      NoSpaces();
      assert once == once + "";
      TrimEndUnique(once, once, "");
    }
  }

  /** An input on which folding is not idempotent. */
  lemma FoldNotIdempotent()
    ensures FoldExpression(FoldExpression("'\r\r\n'")) != FoldExpression("'\r\r\n'")
  {
    hide Fold, FoldExpression;
    var value, input := "'\r\r\n'", "'\r\n'";
    assert value[1..] == "\r\r\n'" && value[1..][1..] == "\r\n'" && value[1..][1..][2..] == "'" && "'"[1..] == "";
    assert Unix("'") == "'";
    assert Unix("\r\n'") == "\n'";
    assert Unix("\r\r\n'") == "\r\n'";
    assert Unix(value) == input;
    MarksAreSolid();
    NoSpaces();
    assert input == input + "";
    TrimEndUnique(input, input, "");
    assert input[..1] == "'" && "'"[..0] == "";
    assert Inside(input[..1]);
    assert LiteralCrLf(input);
    FoldIdempotentExact(value);
  }
}
