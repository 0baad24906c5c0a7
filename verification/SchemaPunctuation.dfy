/** The punctuation scanner of packages/database-reconciliation/src/schema-normalization.ts, and what both
    scanners keep of quoted literals. */
module SchemaPunctuation {
  import opened Wrappers
  import opened SchemaText

  /** The scanner's state: settled text, white space after it, whether spaces are being skipped, inside a
      literal. White space before the first visible character is left out, as the final trim does. */
  datatype Spaced = Spaced(out: string, pend: string, skip: bool, quoted: bool)

  function SpaceStep(s: Spaced, c: char): Spaced {
    if s.quoted then Spaced(s.out + [c], "", false, c != '\'')
    else if c == '\'' then Spaced(s.out + s.pend + [c], "", false, true)
    else if c == '(' then Spaced(s.out + s.pend + [c], "", true, false)
    else if c == ')' then Spaced(s.out + [c], "", false, false)
    else if c == ',' then Spaced(s.out + [c], " ", true, false)
    else if c == ' ' && s.skip then s
    else if IsSpace(c) then Spaced(s.out, if s.out == "" then "" else s.pend + [c], false, false)
    else Spaced(s.out + s.pend + [c], "", false, false)
  }

  function Space(text: string): Spaced
    decreases |text|
  {
    if text == "" then Spaced("", "", false, false) else SpaceStep(Space(text[..|text| - 1]), text[|text| - 1])
  }

  lemma SpaceNothing()
    ensures Space("") == Spaced("", "", false, false)
  {
  }

  lemma SpaceSnoc(text: string, c: char)
    ensures Space(text + [c]) == SpaceStep(Space(text), c)
  {
    assert (text + [c])[..|text|] == text;
  }

  /** `normalizeExpressionPunctuation`. */
  function SpaceExpression(value: string): string {
    Space(TrimEnd(value)).out
  }

  predicate Shaped(s: Spaced) {
    && StartsSolid(s.out) && AllSpace(s.pend) && (s.quoted ==> s.pend == "" && s.out != "" && !s.skip)
    && (!s.quoted ==> EndsSolid(s.out)) && (s.out == "" ==> s.pend == "" && !s.skip)
  }

  lemma StepShaped(s: Spaced, c: char)
    requires Shaped(s)
    ensures Shaped(SpaceStep(s, c))
  {
    hide IsSpace;
    MarksAreSolid();
  }

  lemma {:induction false} SpaceShaped(text: string)
    ensures Shaped(Space(text))
    decreases |text|
  {
    if text != "" {
      hide Space, Shaped, SpaceStep;
      var c, before := text[|text| - 1], text[..|text| - 1];
      assert text == before + [c];
      SpaceSnoc(before, c);
      SpaceShaped(before);
      StepShaped(Space(before), c);
    } else {
      NoSpaces();
    }
  }

  // ---------------------------------------------------------------- idempotence

  /** Scanning what was emitted leads back to where the scan stands. */
  predicate Reproduced(s: Spaced) {
    && Space(s.out + s.pend) == s
    && Space(s.out).out == s.out && Space(s.out).quoted == s.quoted
  }

  lemma AppendNothing(a: string, b: string)
    ensures a + "" == a && (a + b) + "" == a + b
  {
  }

  lemma StepReproduced(s: Spaced, c: char)
    requires Shaped(s) && Reproduced(s)
    ensures Reproduced(SpaceStep(s, c))
  {
    hide IsSpace, Space, AllSpace;
    MarksAreSolid();
    var t := SpaceStep(s, c);
    AppendNothing(s.out, s.pend);
    AppendNothing(t.out, "");
    SpaceSnoc(s.out + s.pend, c);
    SpaceSnoc(s.out, c);
    if !s.quoted && c == ',' {
      SpaceSnoc(t.out, ' ');
    } else if !s.quoted && IsSpace(c) {
      assert s.out + (s.pend + [c]) == s.out + s.pend + [c];
    }
  }

  lemma {:induction false} SpaceReproduced(text: string)
    ensures Reproduced(Space(text))
    decreases |text|
  {
    if text != "" {
      hide Space, SpaceStep, Reproduced, Shaped;
      var c, before := text[|text| - 1], text[..|text| - 1];
      assert text == before + [c];
      SpaceSnoc(before, c);
      SpaceShaped(before);
      SpaceReproduced(before);
      StepReproduced(Space(before), c);
    } else {
      SpaceNothing();
      AppendNothing("", "");
    }
  }

  lemma SpaceEndsSolid(text: string)
    requires EndsSolid(text)
    ensures EndsSolid(Space(text).out)
  {
    if text != "" {
      hide IsSpace, Space;
      MarksAreSolid();
      var c := text[|text| - 1];
      assert text == text[..|text| - 1] + [c];
      SpaceSnoc(text[..|text| - 1], c);
    } else {
      SpaceNothing();
    }
  }

  /** Normalizing punctuation twice is normalizing it once, for every text. */
  lemma SpaceIdempotent(value: string)
    ensures SpaceExpression(SpaceExpression(value)) == SpaceExpression(value)
  {
    hide IsSpace, Space, TrimEnd, AllSpace;
    var core := TrimEnd(value);
    TrimEndParts(value);
    SpaceEndsSolid(core);
    SpaceReproduced(core);
    var once := Space(core).out;
    NoSpaces();
    assert once == once + "";
    TrimEndUnique(once, once, "");
  }

  // ---------------------------------------------------------------- the loop

  lemma {:induction false} SpacePrefix(text: string, tail: string)
    requires AllSpace(tail)
    ensures Space(text).out <= Space(text + tail).out && AllSpace(Space(text + tail).out[|Space(text).out|..])
    decreases |tail|
  {
    hide Space, IsSpace, SpaceStep, Shaped;
    if tail == "" {
      assert text + tail == text;
    } else {
      var init, c := tail[..|tail| - 1], tail[|tail| - 1];
      SpacePrefix(text, init);
      assert text + tail == (text + init) + [c];
      SpaceSnoc(text + init, c);
      SpaceAppendsSpace(Space(text + init), c);
      SpacesJoin(Space(text).out, Space(text + init).out, Space(text + tail).out);
    }
  }

  lemma SpaceAppendsSpace(s: Spaced, c: char)
    requires IsSpace(c)
    ensures s.out <= SpaceStep(s, c).out && AllSpace(SpaceStep(s, c).out[|s.out|..])
  {
    hide IsSpace;
    MarksAreSolid();
  }

  /** What the loop has built: the settled text with the white space around it. */
  ghost predicate Built(result: string, s: Spaced) {
    if s.out == "" then AllSpace(result)
    else exists lead :: AllSpace(lead) && result == lead + s.out + s.pend
  }

  lemma BuiltWith(result: string, lead: string, s: Spaced)
    requires AllSpace(lead) && result == lead + s.out + s.pend && (s.out == "" ==> s.pend == "")
    ensures Built(result, s)
  {
  }

  lemma BuiltLead(result: string, s: Spaced) returns (lead: string)
    requires Built(result, s) && (s.out == "" ==> s.pend == "")
    ensures AllSpace(lead) && result == lead + s.out + s.pend
  {
    if s.out == "" {
      lead := result;
    } else {
      lead :| AllSpace(lead) && result == lead + s.out + s.pend;
    }
  }

  lemma Regroup(a: string, b: string, c: string, d: string)
    ensures a + b + c + d == a + (b + c + d)
    ensures a + b + "" == a + b
  {
  }

  /** Appending a character that settles the white space before it. */
  lemma BuiltAppend(result: string, s: Spaced, c: char, t: Spaced)
    requires Built(result, s) && Shaped(s) && t.out == s.out + s.pend + [c] && t.pend == ""
    ensures Built(result + [c], t)
  {
    hide AllSpace;
    var lead := BuiltLead(result, s);
    Regroup(lead, s.out, s.pend, [c]);
    Regroup(lead, t.out, "", "");
    BuiltWith(result + [c], lead, t);
  }

  /** Trimming the end takes the white space that is not settled. */
  lemma BuiltTrim(result: string, s: Spaced)
    requires Built(result, s) && Shaped(s) && !s.quoted
    ensures Built(TrimEnd(result), s.(pend := ""))
    ensures s.out == "" ==> TrimEnd(result) == ""
  {
    hide IsSpace, TrimEnd, AllSpace;
    var lead := BuiltLead(result, s);
    if s.out == "" {
      NoSpaces();
      assert result == "" + result;
      TrimEndUnique(result, "", result);
      BuiltWith("", "", s.(pend := ""));
    } else {
      assert (lead + s.out)[|lead + s.out| - 1] == s.out[|s.out| - 1];
      TrimEndUnique(result, lead + s.out, s.pend);
      assert lead + s.out + "" == lead + s.out;
      BuiltWith(lead + s.out, lead, s.(pend := ""));
    }
  }

  /** Trimming the whole result gives the settled text, less white space that an open literal ends in. */
  lemma BuiltFinal(result: string, s: Spaced)
    requires Built(result, s) && Shaped(s)
    ensures Trim(result) == TrimEnd(s.out)
  {
    hide IsSpace, TrimEnd, TrimStart, AllSpace;
    var lead := BuiltLead(result, s);
    NoSpaces();
    if s.out == "" {
      assert result == result + "";
      TrimStartUnique(result, result, "");
    } else {
      assert lead + s.out + s.pend == lead + (s.out + s.pend);
      TrimStartUnique(result, lead, s.out + s.pend);
      TrimEndParts(s.out);
      var solid := TrimEnd(s.out);
      var rest := s.out[|solid|..];
      assert s.out + s.pend == solid + (rest + s.pend);
      assert AllSpace(rest + s.pend) by {
        SpacesJoin("", rest, rest + s.pend);
      }
      TrimEndUnique(s.out + s.pend, solid, rest + s.pend);
    }
  }

  lemma SpaceExpressionCore(value: string)
    ensures TrimEnd(Space(value).out) == SpaceExpression(value)
  {
    hide IsSpace, Space, TrimEnd, AllSpace;
    var core := TrimEnd(value);
    TrimEndParts(value);
    assert value == core + value[|core|..];
    SpacePrefix(core, value[|core|..]);
    SpaceEndsSolid(core);
    var out, solid := Space(value).out, Space(core).out;
    assert out == solid + out[|solid|..];
    TrimEndUnique(out, solid, out[|solid|..]);
  }

  lemma BuiltSpace(result: string, s: Spaced, c: char)
    requires Built(result, s) && Shaped(s) && !s.quoted && IsSpace(c) && !(c == ' ' && s.skip)
    ensures Built(result + [c], SpaceStep(s, c))
  {
    hide IsSpace;
    MarksAreSolid();
    var lead := BuiltLead(result, s);
    if s.out != "" {
      assert result + [c] == lead + s.out + (s.pend + [c]);
      BuiltWith(result + [c], lead, SpaceStep(s, c));
    }
  }

  lemma BuiltComma(result: string, s: Spaced)
    requires Built(result, s) && Shaped(s) && !s.quoted
    ensures Built(TrimEnd(result) + ", ", SpaceStep(s, ','))
  {
    hide IsSpace, TrimEnd, AllSpace;
    BuiltTrim(result, s);
    var lead := BuiltLead(TrimEnd(result), s.(pend := ""));
    assert TrimEnd(result) + ", " == lead + (s.out + [',']) + " ";
    BuiltWith(TrimEnd(result) + ", ", lead, SpaceStep(s, ','));
  }

  lemma BuiltClose(result: string, s: Spaced)
    requires Built(result, s) && Shaped(s) && !s.quoted
    ensures Built(TrimEnd(result) + ")", SpaceStep(s, ')'))
  {
    hide IsSpace, TrimEnd, AllSpace;
    BuiltTrim(result, s);
    var lead := BuiltLead(TrimEnd(result), s.(pend := ""));
    assert TrimEnd(result) + ")" == lead + (s.out + [')']) + "";
    BuiltWith(TrimEnd(result) + ")", lead, SpaceStep(s, ')'));
  }

  /** Any other character is appended as it is. */
  lemma BuiltOther(result: string, s: Spaced, c: char)
    requires Built(result, s) && Shaped(s)
    requires s.quoted || (c != ')' && c != ',' && !IsSpace(c))
    ensures Built(result + [c], SpaceStep(s, c))
  {
    hide IsSpace, AllSpace;
    MarksAreSolid();
    assert s.out + "" == s.out;
    BuiltAppend(result, s, c, SpaceStep(s, c));
  }

  /** What is known before character index is read. */
  ghost predicate At(value: string, index: nat, result: string, quoted: bool) {
    && index <= |value| && Built(result, Space(value[..index])) && Space(value[..index]).quoted == quoted
    && (Space(value[..index]).skip && index < |value| ==> value[index] != ' ')
  }

  lemma Advance(value: string, index: nat)
    requires index < |value|
    ensures Space(value[..index + 1]) == SpaceStep(Space(value[..index]), value[index])
    ensures Shaped(Space(value[..index])) && Shaped(Space(value[..index + 1]))
  {
    assert value[..index + 1] == value[..index] + [value[index]];
    SpaceSnoc(value[..index], value[index]);
    SpaceShaped(value[..index]);
    SpaceShaped(value[..index + 1]);
  }

  /** The inner loops: spaces after an opening parenthesis or a comma are passed over. */
  method SkipSpaces(value: string, from: nat) returns (index: nat)
    requires from < |value| && !Space(value[..from + 1]).quoted && Space(value[..from + 1]).skip
    ensures from <= index < |value| && Space(value[..index + 1]) == Space(value[..from + 1])
    ensures index + 1 < |value| ==> value[index + 1] != ' '
  {
    hide Space;
    index := from;
    while index + 1 < |value| && value[index + 1] == ' '
      invariant from <= index < |value| && Space(value[..index + 1]) == Space(value[..from + 1])
    {
      Advance(value, index + 1);
      index := index + 1;
    }
  }

  /** One round of the outer loop. */
  method SpaceOne(value: string, index: nat, result: string, quoted: bool)
    returns (next: nat, grown: string, inside: bool)
    requires index < |value| && At(value, index, result, quoted)
    ensures index < next && At(value, next, grown, inside)
  {
    hide Space, IsSpace, Built, Shaped;
    var c := value[index];
    ghost var s := Space(value[..index]);
    MarksAreSolid();
    Advance(value, index);
    next, inside := index + 1, quoted;
    if c == '\'' && quoted && index + 1 < |value| && value[index + 1] == '\'' {
      BuiltOther(result, s, c);
      Advance(value, index + 1);
      BuiltOther(result + [c], SpaceStep(s, c), '\'');
      grown := result + [c] + ['\''];
      next := index + 2;
    } else if c == '\'' {
      BuiltOther(result, s, c);
      inside := !quoted;
      grown := result + [c];
    } else if quoted {
      BuiltOther(result, s, c);
      grown := result + [c];
    } else if c == '(' {
      BuiltOther(result, s, c);
      grown := result + [c];
      var last := SkipSpaces(value, index);
      next := last + 1;
    } else if c == ')' {
      BuiltClose(result, s);
      grown := TrimEnd(result) + ")";
    } else if c == ',' {
      BuiltComma(result, s);
      grown := TrimEnd(result) + ", ";
      var last := SkipSpaces(value, index);
      next := last + 1;
    } else {
      if IsSpace(c) {
        BuiltSpace(result, s, c);
      } else {
        BuiltOther(result, s, c);
      }
      grown := result + [c];
    }
  }

  method NormalizeExpressionPunctuation(value: string) returns (r: string)
    ensures r == SpaceExpression(value)
  {
    hide Space, Built, Shaped, SpaceExpression;
    var result, inSingleQuote, index := "", false, 0;
    SpaceNothing();
    assert value[..0] == "";
    NoSpaces();
    assert "" + "" + "" == "";
    BuiltWith("", "", Space(""));
    while index < |value|
      invariant index <= |value| && At(value, index, result, inSingleQuote)
      decreases |value| - index
    {
      index, result, inSingleQuote := SpaceOne(value, index, result, inSingleQuote);
    }
    assert value[..index] == value;
    SpaceShaped(value);
    BuiltFinal(result, Space(value));
    SpaceExpressionCore(value);
    r := Trim(result);
  }

  // ---------------------------------------------------------------- literals

  /** The closed literals of a text, in order, and the content of one left open. */
  datatype Literals = Literals(closed: seq<string>, open: Option<string>)

  function LiteralStep(l: Literals, c: char): Literals {
    match l.open
    case None => if c == '\'' then l.(open := Some("")) else l
    case Some(text) => if c == '\'' then Literals(l.closed + [text], None) else l.(open := Some(text + [c]))
  }

  function LiteralsOf(text: string): Literals
    decreases |text|
  {
    if text == "" then Literals([], None) else LiteralStep(LiteralsOf(text[..|text| - 1]), text[|text| - 1])
  }

  lemma LiteralsSnoc(text: string, c: char)
    ensures LiteralsOf(text + [c]) == LiteralStep(LiteralsOf(text), c)
  {
    assert (text + [c])[..|text|] == text;
  }

  lemma {:induction false} LiteralsPastSpace(text: string, tail: string)
    requires AllSpace(tail)
    ensures LiteralsOf(text + tail).closed == LiteralsOf(text).closed
    ensures LiteralsOf(text).open.None? ==> LiteralsOf(text + tail) == LiteralsOf(text)
    ensures LiteralsOf(text + tail).open.Some? <==> LiteralsOf(text).open.Some?
    decreases |tail|
  {
    hide LiteralsOf, IsSpace;
    if tail == "" {
      assert text + tail == text;
    } else {
      var init, c := tail[..|tail| - 1], tail[|tail| - 1];
      LiteralsPastSpace(text, init);
      assert text + tail == (text + init) + [c];
      LiteralsSnoc(text + init, c);
      MarksAreSolid();
    }
  }

  lemma FoldStepLiterals(s: Folded, l: Literals, c: char)
    requires LiteralsOf(s.out) == l && (s.quoted <==> l.open.Some?) && (s.quoted ==> !s.pending)
    ensures LiteralsOf(FoldStep(s, c).out) == LiteralStep(l, c)
    ensures FoldStep(s, c).quoted <==> LiteralStep(l, c).open.Some?
  {
    hide LiteralsOf, IsSpace, Lower;
    MarksAreSolid();
    LowerSettles(c);
    if c == '\'' || s.quoted || !IsSpace(c) {
      var d := if s.quoted || c == '\'' then c else Lower(c);
      if Gap(s) == "" {
        assert s.out + "" == s.out;
        LiteralsSnoc(s.out, d);
      } else {
        LiteralsSnoc(s.out, ' ');
        LiteralsSnoc(s.out + " ", d);
      }
    }
  }

  lemma {:induction false} FoldKeepsLiterals(text: string)
    ensures LiteralsOf(Fold(text).out) == LiteralsOf(text)
    ensures Fold(text).quoted <==> LiteralsOf(text).open.Some?
    decreases |text|
  {
    if text != "" {
      hide Fold, FoldStep, LiteralsOf, LiteralStep;
      var c, before := text[|text| - 1], text[..|text| - 1];
      assert text == before + [c];
      FoldSnoc(before, c);
      FoldShape(before);
      LiteralsSnoc(before, c);
      FoldKeepsLiterals(before);
      FoldStepLiterals(Fold(before), LiteralsOf(before), c);
    }
  }

  lemma SpaceStepLiterals(s: Spaced, l: Literals, c: char)
    requires LiteralsOf(s.out) == l && (s.quoted <==> l.open.Some?) && Shaped(s)
    ensures LiteralsOf(SpaceStep(s, c).out) == LiteralStep(l, c)
    ensures SpaceStep(s, c).quoted <==> LiteralStep(l, c).open.Some?
  {
    hide LiteralsOf, IsSpace, AllSpace;
    MarksAreSolid();
    LiteralsSnoc(s.out, c);
    LiteralsPastSpace(s.out, s.pend);
    LiteralsSnoc(s.out + s.pend, c);
  }

  lemma {:induction false} SpaceKeepsLiterals(text: string)
    ensures LiteralsOf(Space(text).out) == LiteralsOf(text)
    ensures Space(text).quoted <==> LiteralsOf(text).open.Some?
    decreases |text|
  {
    if text != "" {
      hide Space, SpaceStep, LiteralsOf, LiteralStep, Shaped;
      var c, before := text[|text| - 1], text[..|text| - 1];
      assert text == before + [c];
      SpaceSnoc(before, c);
      SpaceShaped(before);
      LiteralsSnoc(before, c);
      SpaceKeepsLiterals(before);
      SpaceStepLiterals(Space(before), LiteralsOf(before), c);
    }
  }

  /** Both scanners keep every closed literal, character by character and in order, once line ends are
      converted. */
  lemma ScannersKeepClosedLiterals(value: string)
    ensures LiteralsOf(FoldExpression(value)).closed == LiteralsOf(Unix(value)).closed
    ensures LiteralsOf(SpaceExpression(value)).closed == LiteralsOf(value).closed
  {
    hide Fold, Space, LiteralsOf, TrimEnd, FoldExpression, AllSpace;
    var input := Unix(value);
    FoldExpressionCore(value);
    TrimEndParts(input);
    FoldKeepsLiterals(TrimEnd(input));
    assert input == TrimEnd(input) + input[|TrimEnd(input)|..];
    LiteralsPastSpace(TrimEnd(input), input[|TrimEnd(input)|..]);
    TrimEndParts(value);
    SpaceKeepsLiterals(TrimEnd(value));
    assert value == TrimEnd(value) + value[|TrimEnd(value)|..];
    LiteralsPastSpace(TrimEnd(value), value[|TrimEnd(value)|..]);
  }
}
