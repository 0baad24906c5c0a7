/** `splitTopLevelCsv` of packages/database-reconciliation/src/migration-parser.ts against joining. */
module MigrationParser {
  import opened SchemaText

  /** Parenthesis depth, never below zero, and the two kinds of quotes. */
  datatype Mode = Mode(depth: nat, single: bool, double: bool)

  const TOP := Mode(0, false, false)

  function ModeStep(m: Mode, c: char): Mode {
    if c == '\'' && !m.double then m.(single := !m.single)
    else if c == '"' && !m.single then m.(double := !m.double)
    else if m.single || m.double then m
    else if c == '(' then m.(depth := m.depth + 1)
    else if c == ')' then m.(depth := if m.depth == 0 then 0 else m.depth - 1)
    else m
  }

  function ModeOf(text: string): Mode
    decreases |text|
  {
    if text == "" then TOP else ModeStep(ModeOf(text[..|text| - 1]), text[|text| - 1])
  }

  /** No comma of the text separates fields. */
  predicate Whole(text: string)
    decreases |text|
  {
    text == "" || (Whole(text[..|text| - 1]) && !(text[|text| - 1] == ',' && ModeOf(text[..|text| - 1]) == TOP))
  }

  /** A field that may stand last: visible, trimmed, without a separating comma. */
  predicate IsLast(f: string) {
    f != "" && StartsSolid(f) && EndsSolid(f) && Whole(f)
  }

  /** A field that may stand anywhere: its parentheses and quotes are closed as well. */
  predicate IsField(f: string) {
    IsLast(f) && ModeOf(f) == TOP
  }

  predicate AreFields(fields: seq<string>) {
    && (forall i :: 0 <= i < |fields| - 1 ==> IsField(fields[i]))
    && (fields != [] ==> IsLast(fields[|fields| - 1]))
  }

  // ---------------------------------------------------------------- the splitter

  /** The parts found, and the text since the last separating comma. */
  datatype Cells = Cells(parts: seq<string>, current: string)

  function Flush(s: Cells): seq<string> {
    if Trim(s.current) == "" then s.parts else s.parts + [Trim(s.current)]
  }

  function CellStep(s: Cells, c: char): Cells {
    if c == ',' && ModeOf(s.current) == TOP then Cells(Flush(s), "") else Cells(s.parts, s.current + [c])
  }

  function CellsFrom(s: Cells, text: string): Cells
    decreases |text|
  {
    if text == "" then s else CellStep(CellsFrom(s, text[..|text| - 1]), text[|text| - 1])
  }

  function Split(value: string): seq<string> {
    Flush(CellsFrom(Cells([], ""), value))
  }

  lemma ModeSnoc(text: string, c: char)
    ensures ModeOf(text + [c]) == ModeStep(ModeOf(text), c)
    ensures Whole(text + [c]) <==> Whole(text) && !(c == ',' && ModeOf(text) == TOP)
  {
    assert (text + [c])[..|text|] == text;
  }

  lemma CellsSnoc(s: Cells, text: string, c: char)
    ensures CellsFrom(s, text + [c]) == CellStep(CellsFrom(s, text), c)
  {
    assert (text + [c])[..|text|] == text;
  }

  method SplitTopLevelCsv(value: string) returns (parts: seq<string>)
    ensures parts == Split(value)
  {
    hide ModeOf, CellsFrom, Trim;
    parts := [];
    var current, depth, inSingleQuote, inDoubleQuote, index := "", 0, false, false, 0;
    StartOfScan(value);
    while index < |value|
      invariant 0 <= index <= |value| && depth >= 0
      invariant CellsFrom(Cells([], ""), value[..index]) == Cells(parts, current)
      invariant ModeOf(current) == Mode(depth, inSingleQuote, inDoubleQuote)
    {
      var character := value[index];
      assert value[..index + 1] == value[..index] + [character];
      CellsSnoc(Cells([], ""), value[..index], character);
      ModeSnoc(current, character);
      StartOfScan("");
      index := index + 1;
      if character == '\'' && !inDoubleQuote {
        inSingleQuote := !inSingleQuote;
        current := current + [character];
        continue;
      }
      if character == '"' && !inSingleQuote {
        inDoubleQuote := !inDoubleQuote;
        current := current + [character];
        continue;
      }
      if !inSingleQuote && !inDoubleQuote {
        if character == '(' {
          depth := depth + 1;
        } else if character == ')' {
          depth := if depth - 1 > 0 then depth - 1 else 0;
        } else if character == ',' && depth == 0 {
          if |Trim(current)| > 0 {
            parts := parts + [Trim(current)];
          }
          current := "";
          continue;
        }
      }
      current := current + [character];
    }
    assert value[..index] == value;
    if |Trim(current)| > 0 {
      parts := parts + [Trim(current)];
    }
  }

  lemma StartOfScan(value: string)
    ensures CellsFrom(Cells([], ""), value[..0]) == Cells([], "") && ModeOf("") == TOP
  {
    assert value[..0] == "";
  }

  // ---------------------------------------------------------------- splitting what was joined

  /** Fields joined by a comma and some white space. */
  function Join(fields: seq<string>, gap: string): string
    decreases |fields|
  {
    if fields == [] then ""
    else if |fields| == 1 then fields[0]
    else Join(fields[..|fields| - 1], gap) + "," + gap + fields[|fields| - 1]
  }

  lemma {:induction false} CellsConcat(s: Cells, a: string, b: string)
    ensures CellsFrom(s, a + b) == CellsFrom(CellsFrom(s, a), b)
    decreases |b|
  {
    if b == "" {
      assert a + b == a;
    } else {
      var init, c := b[..|b| - 1], b[|b| - 1];
      CellsConcat(s, a, init);
      assert b == init + [c] && a + b == (a + init) + [c];
      CellsSnoc(s, a + init, c);
      CellsSnoc(CellsFrom(s, a), init, c);
    }
  }

  /** White space in front changes neither the mode nor the separating commas. */
  lemma {:induction false} ModePastLead(lead: string, text: string)
    requires AllSpace(lead)
    ensures ModeOf(lead + text) == ModeOf(text) && (Whole(lead + text) <==> Whole(text))
    decreases |lead| + |text|
  {
    hide ModeOf, Whole, IsSpace;
    MarksAreSolid();
    if text != "" {
      var init, c := text[..|text| - 1], text[|text| - 1];
      ModePastLead(lead, init);
      assert text == init + [c] && lead + text == (lead + init) + [c];
      ModeSnoc(init, c);
      ModeSnoc(lead + init, c);
    } else if lead != "" {
      var init, c := lead[..|lead| - 1], lead[|lead| - 1];
      ModePastLead(init, "");
      assert init + "" == init && lead + text == init + [c];
      ModeSnoc(init, c);
    } else {
      assert lead + text == text;
    }
  }

  /** Nor does white space behind it. */
  lemma {:induction false} ModePastTail(text: string, tail: string)
    requires AllSpace(tail)
    ensures ModeOf(text + tail) == ModeOf(text) && (Whole(text + tail) <==> Whole(text))
    decreases |tail|
  {
    hide ModeOf, Whole, IsSpace;
    MarksAreSolid();
    if tail == "" {
      assert text + tail == text;
    } else {
      var init, c := tail[..|tail| - 1], tail[|tail| - 1];
      ModePastTail(text, init);
      assert text + tail == (text + init) + [c];
      ModeSnoc(text + init, c);
    }
  }

  /** A whole text behind white space is collected without a split. */
  lemma {:induction false} WholeIsCollected(parts: seq<string>, lead: string, text: string)
    requires AllSpace(lead) && Whole(text)
    ensures CellsFrom(Cells(parts, lead), text) == Cells(parts, lead + text)
    decreases |text|
  {
    hide ModeOf, Whole, CellsFrom, IsSpace;
    if text == "" {
      EmptyCells(Cells(parts, lead));
      assert lead + text == lead;
    } else {
      var init, c := text[..|text| - 1], text[|text| - 1];
      assert text == init + [c] && lead + text == (lead + init) + [c];
      ModeSnoc(init, c);
      WholeIsCollected(parts, lead, init);
      CellsSnoc(Cells(parts, lead), init, c);
      ModePastLead(lead, init);
    }
  }

  lemma EmptyCells(s: Cells)
    ensures CellsFrom(s, "") == s
  {
  }

  lemma TrimAround(lead: string, f: string)
    requires AllSpace(lead) && f != "" && StartsSolid(f) && EndsSolid(f)
    ensures Trim(lead + f) == f
  {
    hide IsSpace;
    TrimStartUnique(lead + f, lead, f);
    NoSpaces();
    assert f == f + "";
    TrimEndUnique(f, f, "");
  }

  /** After the joined fields the last one is being collected. */
  lemma {:induction false} JoinIsCollected(fields: seq<string>, gap: string) returns (lead: string)
    requires AreFields(fields) && fields != [] && AllSpace(gap)
    ensures AllSpace(lead)
    ensures CellsFrom(Cells([], ""), Join(fields, gap)) == Cells(fields[..|fields| - 1], lead + fields[|fields| - 1])
    decreases |fields|
  {
    hide ModeOf, Whole, CellsFrom, IsSpace, Trim, Flush;
    var f := fields[|fields| - 1];
    NoSpaces();
    if |fields| == 1 {
      lead := "";
      WholeIsCollected([], "", f);
    } else {
      var before := fields[..|fields| - 1];
      var prior := JoinIsCollected(before, gap);
      var s := Cells(before[..|before| - 1], prior + before[|before| - 1]);
      assert Join(fields, gap) == Join(before, gap) + [','] + (gap + f);
      CellsSnoc(Cells([], ""), Join(before, gap), ',');
      CommaFlushes(before, prior);
      CellsConcat(Cells([], ""), Join(before, gap) + [','], gap + f);
      ModePastLead(gap, f);
      WholeIsCollected(before, "", gap + f);
      assert "" + (gap + f) == gap + f;
      lead := gap;
    }
  }

  lemma CommaFlushes(before: seq<string>, lead: string)
    requires before != [] && AllSpace(lead) && IsField(before[|before| - 1])
    ensures CellStep(Cells(before[..|before| - 1], lead + before[|before| - 1]), ',') == Cells(before, "")
  {
    hide ModeOf, Whole, IsSpace, Trim;
    ModePastLead(lead, before[|before| - 1]);
    TrimAround(lead, before[|before| - 1]);
    assert before[..|before| - 1] + [before[|before| - 1]] == before;
  }

  /** Splitting inverts joining, whatever white space follows the commas. */
  lemma SplitInvertsJoin(fields: seq<string>, gap: string)
    requires AreFields(fields) && AllSpace(gap)
    ensures Split(Join(fields, gap)) == fields
  {
    if fields == [] {
      EmptyCells(Cells([], ""));
    } else {
      hide ModeOf, Whole, CellsFrom, IsSpace, Trim, Join;
      var lead := JoinIsCollected(fields, gap);
      TrimAround(lead, fields[|fields| - 1]);
      assert fields[..|fields| - 1] + [fields[|fields| - 1]] == fields;
    }
  }

  // ---------------------------------------------------------------- what a split consists of

  predicate Collected(s: Cells) {
    (forall i :: 0 <= i < |s.parts| ==> IsField(s.parts[i])) && Whole(s.current)
  }

  lemma TrimmedIsLast(text: string)
    requires Whole(text) && Trim(text) != ""
    ensures IsLast(Trim(text)) && (ModeOf(text) == TOP ==> ModeOf(Trim(text)) == TOP)
  {
    hide ModeOf, Whole, IsSpace, AllSpace, TrimStart, TrimEnd;
    var lead := TrimStartParts(text);
    var front := TrimStart(text);
    TrimEndParts(front);
    var core := Trim(text);
    assert front == core + front[|core|..];
    ModePastLead(lead, front);
    ModePastTail(core, front[|core|..]);
    assert core[0] == front[0];
  }

  lemma StepCollected(s: Cells, c: char)
    requires Collected(s)
    ensures Collected(CellStep(s, c))
  {
    hide ModeOf, IsSpace, Trim;
    ModeSnoc(s.current, c);
    if c == ',' && ModeOf(s.current) == TOP && Trim(s.current) != "" {
      TrimmedIsLast(s.current);
    }
  }

  lemma {:induction false} SplitCollects(text: string)
    ensures Collected(CellsFrom(Cells([], ""), text))
    decreases |text|
  {
    if text != "" {
      SplitCollects(text[..|text| - 1]);
      StepCollected(CellsFrom(Cells([], ""), text[..|text| - 1]), text[|text| - 1]);
    }
  }

  /** Every split consists of fields, so joining and splitting it again gives the same fields. */
  lemma SplitJoinSplit(value: string, gap: string)
    requires AllSpace(gap)
    ensures AreFields(Split(value)) && Split(Join(Split(value), gap)) == Split(value)
  {
    hide ModeOf, Whole, CellsFrom, IsSpace, Trim, Join;
    var s := CellsFrom(Cells([], ""), value);
    SplitCollects(value);
    if Trim(s.current) != "" {
      TrimmedIsLast(s.current);
    }
    SplitInvertsJoin(Split(value), gap);
  }

  // ---------------------------------------------------------------- every text is pieces between commas

  /** Pieces without a separating comma, each but the last with its parentheses and quotes closed. */
  predicate ArePieces(pieces: seq<string>) {
    && pieces != [] && (forall i :: 0 <= i < |pieces| ==> Whole(pieces[i]))
    && (forall i :: 0 <= i < |pieces| - 1 ==> ModeOf(pieces[i]) == TOP)
  }

  function Commas(pieces: seq<string>): string
    decreases |pieces|
  {
    if pieces == [] then ""
    else if |pieces| == 1 then pieces[0]
    else Commas(pieces[..|pieces| - 1]) + "," + pieces[|pieces| - 1]
  }

  /** The trimmed pieces that are not blank. */
  function Visible(pieces: seq<string>): seq<string>
    decreases |pieces|
  {
    if pieces == [] then []
    else
      var last := Trim(pieces[|pieces| - 1]);
      Visible(pieces[..|pieces| - 1]) + if last == "" then [] else [last]
  }

  lemma CommasSnoc(pieces: seq<string>, piece: string)
    ensures Commas(pieces + [piece]) == if pieces == [] then piece else Commas(pieces) + "," + piece
    ensures Visible(pieces + [piece]) == Flush(Cells(Visible(pieces), piece))
  {
    assert (pieces + [piece])[..|pieces|] == pieces;
  }

  lemma {:induction false} PiecesCollected(pieces: seq<string>, last: string)
    requires ArePieces(pieces + [last])
    ensures CellsFrom(Cells([], ""), Commas(pieces + [last])) == Cells(Visible(pieces), last)
    decreases |pieces|
  {
    hide ModeOf, Whole, CellsFrom, Trim, Commas, Visible;
    CommasSnoc(pieces, last);
    assert (pieces + [last])[|pieces|] == last;
    NoSpaces();
    WholeIsCollected(Visible(pieces), "", last);
    assert "" + last == last;
    if pieces == [] {
      NothingVisible();
    } else {
      var init, before := pieces[..|pieces| - 1], pieces[|pieces| - 1];
      assert pieces == init + [before];
      forall i | 0 <= i < |pieces|
        ensures pieces[i] == (pieces + [last])[i]
      {
      }
      PiecesCollected(init, before);
      CommasSnoc(init, before);
      CellsSnoc(Cells([], ""), Commas(pieces), ',');
      CellsConcat(Cells([], ""), Commas(pieces) + ",", last);
    }
  }

  lemma NothingVisible()
    ensures Visible([]) == []
  {
  }

  /** Pieces that a separating comma may follow. */
  predicate AreClosed(pieces: seq<string>) {
    forall i :: 0 <= i < |pieces| ==> Whole(pieces[i]) && ModeOf(pieces[i]) == TOP
  }

  lemma ClosedThenLast(pieces: seq<string>, last: string)
    ensures AreClosed(pieces) && Whole(last) ==> ArePieces(pieces + [last])
    ensures AreClosed(pieces) && Whole(last) && ModeOf(last) == TOP ==> AreClosed(pieces + [last])
  {
    hide ModeOf, Whole;
  }

  lemma CommasGrow(pieces: seq<string>, piece: string, c: char)
    ensures Commas(pieces + [piece] + [""]) == Commas(pieces + [piece]) + ","
    ensures Commas(pieces + [piece + [c]]) == Commas(pieces + [piece]) + [c]
  {
    hide Commas;
    CommasSnoc(pieces, piece);
    CommasSnoc(pieces + [piece], "");
    CommasSnoc(pieces, piece + [c]);
  }

  lemma {:induction false} PiecesExist(value: string) returns (pieces: seq<string>, last: string)
    ensures AreClosed(pieces) && Whole(last) && value == Commas(pieces + [last])
    decreases |value|
  {
    if value == "" {
      pieces, last := [], "";
    } else {
      hide ModeOf, Whole, Commas, AreClosed;
      var c := value[|value| - 1];
      var before, piece := PiecesExist(value[..|value| - 1]);
      assert value == value[..|value| - 1] + [c];
      CommasGrow(before, piece, c);
      ClosedThenLast(before, piece);
      ModeSnoc(piece, c);
      EmptyPiece();
      if c == ',' && ModeOf(piece) == TOP {
        pieces, last := before + [piece], "";
      } else {
        pieces, last := before, piece + [c];
      }
    }
  }

  lemma EmptyPiece()
    ensures Whole("") && ModeOf("") == TOP
  {
  }

  /** Splitting a text gives its pieces between separating commas, trimmed, without the blank ones; and every
      text consists of such pieces. */
  lemma SplitExact(pieces: seq<string>, value: string)
    ensures ArePieces(pieces) ==> Split(Commas(pieces)) == Visible(pieces)
    ensures exists p :: ArePieces(p) && Commas(p) == value
  {
    hide CellsFrom, Commas, Visible, Trim;
    if ArePieces(pieces) {
      var init, last := pieces[..|pieces| - 1], pieces[|pieces| - 1];
      assert pieces == init + [last];
      PiecesCollected(init, last);
      CommasSnoc(init, last);
    }
    var some, end := PiecesExist(value);
    ClosedThenLast(some, end);
  }
}
