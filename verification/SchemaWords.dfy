/** What the white-space and punctuation scanners of packages/database-reconciliation/src/schema-normalization.ts
    make of a text, said without scanning: words one space apart, and gaps decided by their neighbours. */
module SchemaWords {
  import opened Wrappers
  import opened SchemaText
  import opened SchemaPunctuation

  // ---------------------------------------------------------------- letters

  /** The small letter of a capital one; every other character is its own. */
  function SmallLetter(c: char): char {
    match c
    case 'A' => 'a' case 'B' => 'b' case 'C' => 'c' case 'D' => 'd' case 'E' => 'e' case 'F' => 'f'
    case 'G' => 'g' case 'H' => 'h' case 'I' => 'i' case 'J' => 'j' case 'K' => 'k' case 'L' => 'l'
    case 'M' => 'm' case 'N' => 'n' case 'O' => 'o' case 'P' => 'p' case 'Q' => 'q' case 'R' => 'r'
    case 'S' => 's' case 'T' => 't' case 'U' => 'u' case 'V' => 'v' case 'W' => 'w' case 'X' => 'x'
    case 'Y' => 'y' case 'Z' => 'z'
    case _ => c
  }

  lemma LowerExact(c: char)
    ensures Lower(c) == SmallLetter(c)
  {
  }

  // ---------------------------------------------------------------- words

  /** The words of a text: maximal runs without white space, where white space inside a literal does not
      count; letters outside literals in small. */
  datatype Words = Words(done: seq<string>, current: string, quoted: bool)

  function WordStep(w: Words, c: char): Words {
    if w.quoted then w.(current := w.current + [c], quoted := c != '\'')
    else if IsSpace(c) then if w.current == "" then w else Words(w.done + [w.current], "", false)
    else w.(current := w.current + [Lower(c)], quoted := c == '\'')
  }

  function WordsIn(text: string): Words
    decreases |text|
  {
    if text == "" then Words([], "", false) else WordStep(WordsIn(text[..|text| - 1]), text[|text| - 1])
  }

  function WordsOf(text: string): seq<string> {
    var w := WordsIn(text);
    if w.current == "" then w.done else w.done + [w.current]
  }

  /** Words one space apart. */
  function SpacedOut(words: seq<string>): string
    decreases |words|
  {
    if words == [] then ""
    else if |words| == 1 then words[0]
    else SpacedOut(words[..|words| - 1]) + " " + words[|words| - 1]
  }

  lemma SpacedSnoc(words: seq<string>, word: string)
    ensures SpacedOut(words + [word]) == if words == [] then word else SpacedOut(words) + " " + word
  {
    assert (words + [word])[..|words|] == words;
  }

  /** The scanner stands where the words do. */
  ghost predicate Aligned(s: Folded, w: Words) {
    && s.quoted == w.quoted && (w.quoted ==> w.current != "")
    && (if w.current == "" then s.out == SpacedOut(w.done) && (s.out == "" <==> w.done == []) && (w.done != [] ==> s.pending)
        else s.out == SpacedOut(w.done + [w.current]) && s.out != "" && !s.pending)
  }

  lemma StepAligned(s: Folded, w: Words, c: char)
    requires Aligned(s, w)
    ensures Aligned(FoldStep(s, c), WordStep(w, c))
  {
    hide IsSpace, Lower, SpacedOut;
    MarksAreSolid();
    LowerSettles(c);
    QuoteIsSmall();
    SpacedSnoc(w.done, w.current);
    SpacedSnoc(w.done, WordStep(w, c).current);
    SpacedNothing();
    if c != '\'' && !w.quoted && IsSpace(c) {
    } else {
      var d := if w.quoted || c == '\'' then c else Lower(c);
      if w.current == "" {
        assert w.current + [d] == [d];
        if w.done != [] {
          assert SpacedOut(w.done) + " " + [d] == s.out + Gap(s) + [d];
        } else {
          assert s.out + Gap(s) + [d] == [d];
        }
      } else {
        assert s.out + Gap(s) == s.out;
        assert SpacedOut(w.done) + " " + w.current + [d] == SpacedOut(w.done) + " " + (w.current + [d]);
      }
    }
  }

  lemma SpacedNothing()
    ensures SpacedOut([]) == ""
  {
  }

  lemma QuoteIsSmall()
    ensures Lower('\'') == '\''
  {
  }

  lemma {:induction false} FoldAligned(text: string)
    ensures Aligned(Fold(text), WordsIn(text))
    decreases |text|
  {
    if text != "" {
      hide Aligned, FoldStep, WordStep;
      FoldAligned(text[..|text| - 1]);
      StepAligned(Fold(text[..|text| - 1]), WordsIn(text[..|text| - 1]), text[|text| - 1]);
    }
  }

  /** Normalizing white space and case gives the words of the text one space apart. */
  lemma FoldSpacesWords(value: string)
    ensures FoldExpression(value) == SpacedOut(WordsOf(TrimEnd(Unix(value))))
  {
    hide TrimEnd, Unix, FoldExpression, Fold;
    FoldExpressionCore(value);
    FoldAligned(TrimEnd(Unix(value)));
  }

  // ---------------------------------------------------------------- gaps

  /** A visible character, the white space before it, and whether it stands outside literals. */
  datatype Item = Item(gap: string, c: char, outside: bool)

  datatype Items = Items(items: seq<Item>, gap: string, quoted: bool)

  function ItemStep(t: Items, c: char): Items {
    if t.quoted then Items(t.items + [Item("", c, false)], "", c != '\'')
    else if IsSpace(c) then t.(gap := t.gap + [c])
    else Items(t.items + [Item(t.gap, c, true)], "", c == '\'')
  }

  function ItemsIn(text: string): Items
    decreases |text|
  {
    if text == "" then Items([], "", false) else ItemStep(ItemsIn(text[..|text| - 1]), text[|text| - 1])
  }

  function DropBlanks(gap: string): string
    decreases |gap|
  {
    if gap != "" && gap[0] == ' ' then DropBlanks(gap[1..]) else gap
  }

  predicate Is(item: Item, c: char) {
    item.outside && item.c == c
  }

  /** The gap that stays behind an item: none of its blanks after an opening parenthesis, and exactly one
      blank more after a comma. */
  function GapAfter(last: Item, gap: string): string {
    if Is(last, '(') then DropBlanks(gap) else if Is(last, ',') then " " + DropBlanks(gap) else gap
  }

  /** The gap between two neighbours: none before a closing parenthesis or a comma. */
  function GapBetween(last: Item, item: Item): string {
    if Is(item, ')') || Is(item, ',') then "" else GapAfter(last, item.gap)
  }

  function Rendered(items: seq<Item>): string
    decreases |items|
  {
    if items == [] then ""
    else if |items| == 1 then [items[0].c]
    else Rendered(items[..|items| - 1]) + GapBetween(items[|items| - 2], items[|items| - 1]) + [items[|items| - 1].c]
  }

  lemma RenderedSnoc(items: seq<Item>, item: Item)
    ensures Rendered(items + [item])
         == if items == [] then [item.c] else Rendered(items) + GapBetween(items[|items| - 1], item) + [item.c]
  {
    hide GapBetween;
    assert (items + [item])[..|items|] == items;
  }

  ghost predicate SameGaps(s: Spaced, t: Items) {
    && s.quoted == t.quoted && (t.quoted ==> t.items != [] && t.gap == "" && s.pend == "" && !s.skip)
    && s.out == Rendered(t.items) && (s.out == "" <==> t.items == [])
    && (if t.items == [] then s.pend == "" && !s.skip
        else
          var last := t.items[|t.items| - 1];
          && s.pend == GapAfter(last, t.gap)
          && (s.skip <==> (Is(last, '(') || Is(last, ',')) && DropBlanks(t.gap) == ""))
  }

  lemma {:induction false} DropBlanksSnoc(gap: string, c: char)
    ensures DropBlanks(gap + [c]) == if DropBlanks(gap) == "" && c == ' ' then "" else DropBlanks(gap) + [c]
    decreases |gap|
  {
    if gap == "" {
      assert gap + [c] == [c] && [c][1..] == "";
      assert DropBlanks("") == "";
    } else {
      assert (gap + [c])[1..] == gap[1..] + [c];
      if gap[0] == ' ' {
        DropBlanksSnoc(gap[1..], c);
      }
    }
  }

  lemma StepSameGaps(s: Spaced, t: Items, c: char)
    requires SameGaps(s, t)
    ensures SameGaps(SpaceStep(s, c), ItemStep(t, c))
  {
    hide IsSpace, Rendered, DropBlanks;
    MarksAreSolid();
    NoBlanks();
    if t.quoted {
      RenderedSnoc(t.items, Item("", c, false));
    } else if IsSpace(c) {
      DropBlanksSnoc(t.gap, c);
    } else {
      RenderedSnoc(t.items, Item(t.gap, c, true));
    }
  }

  lemma NoBlanks()
    ensures DropBlanks("") == ""
  {
  }

  lemma {:induction false} SpaceSameGaps(text: string)
    ensures SameGaps(Space(text), ItemsIn(text))
    decreases |text|
  {
    if text != "" {
      hide SameGaps, SpaceStep, ItemStep;
      SpaceSameGaps(text[..|text| - 1]);
      StepSameGaps(Space(text[..|text| - 1]), ItemsIn(text[..|text| - 1]), text[|text| - 1]);
    }
  }

  /** Normalizing punctuation keeps every visible character and decides each gap by its two neighbours. */
  lemma SpaceDecidesGaps(value: string)
    ensures SpaceExpression(value) == Rendered(ItemsIn(TrimEnd(value)).items)
  {
    hide TrimEnd, Space;
    SpaceSameGaps(TrimEnd(value));
  }
}
