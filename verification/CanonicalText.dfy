/** The canonical text: what `JSON.stringify` prints for a canonical tree, and reading it back.
    String syntax as in section 7 of RFC 8259. */
module CanonicalText {
  import opened Wrappers
  import opened Texts
  import opened Fields
  import opened CanonicalNode
  import opened CanonicalMeaning

  const QUOTE: CodeUnit := 0x22
  const BACKSLASH: CodeUnit := 0x5C
  const COMMA: CodeUnit := 0x2C
  const COLON: CodeUnit := 0x3A
  const MINUS: CodeUnit := 0x2D
  const OPEN_BRACKET: CodeUnit := 0x5B
  const CLOSE_BRACKET: CodeUnit := 0x5D
  const OPEN_BRACE: CodeUnit := 0x7B
  const CLOSE_BRACE: CodeUnit := 0x7D
  const NULL_TEXT: Text := [0x6E, 0x75, 0x6C, 0x6C]
  const TRUE_TEXT: Text := [0x74, 0x72, 0x75, 0x65]
  const FALSE_TEXT: Text := [0x66, 0x61, 0x6C, 0x73, 0x65]

  predicate IsDigit(u: CodeUnit) {
    0x30 <= u <= 0x39
  }

  predicate IsHighSurrogate(u: CodeUnit) {
    0xD800 <= u <= 0xDBFF
  }

  predicate IsLowSurrogate(u: CodeUnit) {
    0xDC00 <= u <= 0xDFFF
  }

  // ---------------------------------------------------------------- printing

  function PrintNat(n: nat): Text {
    if n < 10 then [0x30 + n] else PrintNat(n / 10) + [0x30 + n % 10]
  }

  function PrintInt(n: int): Text {
    if n < 0 then [MINUS] + PrintNat(-n) else PrintNat(n)
  }

  function HexDigit(n: nat): CodeUnit
    requires n < 16
  {
    if n < 10 then 0x30 + n else 0x61 + (n - 10)
  }

  /** `\u` and four lower-case hexadecimal digits. */
  function UnicodeEscape(u: CodeUnit): Text {
    [BACKSLASH, 0x75, HexDigit(u / 16 / 16 / 16), HexDigit(u / 16 / 16 % 16), HexDigit(u / 16 % 16), HexDigit(u % 16)]
  }

  /** Short escapes where JSON has them, `\u` for other controls and for lone surrogates. */
  function EscapeUnit(u: CodeUnit): Text {
    if u == QUOTE || u == BACKSLASH then [BACKSLASH, u]
    else if u == 0x08 then [BACKSLASH, 0x62]
    else if u == 0x09 then [BACKSLASH, 0x74]
    else if u == 0x0A then [BACKSLASH, 0x6E]
    else if u == 0x0C then [BACKSLASH, 0x66]
    else if u == 0x0D then [BACKSLASH, 0x72]
    else if u < 0x20 || IsHighSurrogate(u) || IsLowSurrogate(u) then UnicodeEscape(u)
    else [u]
  }

  function Escape(s: Text): Text {
    if s == [] then []
    else if |s| > 1 && IsHighSurrogate(s[0]) && IsLowSurrogate(s[1]) then [s[0], s[1]] + Escape(s[2..])
    else EscapeUnit(s[0]) + Escape(s[1..])
  }

  function PrintString(s: Text): Text {
    [QUOTE] + Escape(s) + [QUOTE]
  }

  function Print(t: Canon): Text
    decreases t, 0
  {
    match t
    case CNull => NULL_TEXT
    case CBool(b) => if b then TRUE_TEXT else FALSE_TEXT
    case CInt(n) => PrintInt(n)
    case CStr(s) => PrintString(s)
    case CArray(ts) => [OPEN_BRACKET] + JoinItems(PrintItems(ts)) + [CLOSE_BRACKET]
    case CObject(fs) => [OPEN_BRACE] + JoinFields(Enumerate(PrintFields(fs))) + [CLOSE_BRACE]
  }

  function PrintItems(ts: seq<Canon>): (r: seq<Text>)
    ensures |r| == |ts|
    ensures forall i :: 0 <= i < |ts| ==> r[i] == Print(ts[i])
    decreases ts, 1
  {
    seq(|ts|, i requires 0 <= i < |ts| => Print(ts[i]))
  }

  function PrintFields(fs: seq<(Text, Canon)>): (r: seq<(Text, Text)>)
    ensures |r| == |fs|
    ensures forall i :: 0 <= i < |fs| ==> r[i] == PrintField(fs[i])
    decreases fs, 1
  {
    seq(|fs|, i requires 0 <= i < |fs| => PrintField(fs[i]))
  }

  function PrintField(f: (Text, Canon)): (Text, Text)
    decreases f, 1
  {
    (f.0, Print(f.1))
  }

  function JoinItems(items: seq<Text>): Text {
    if items == [] then []
    else if |items| == 1 then items[0]
    else items[0] + [COMMA] + JoinItems(items[1..])
  }

  function PrintMember(g: (Text, Text)): Text {
    PrintString(g.0) + [COLON] + g.1
  }

  function JoinFields(fields: seq<(Text, Text)>): Text {
    if fields == [] then []
    else
      var first := PrintMember(fields[0]);
      if |fields| == 1 then first else first + [COMMA] + JoinFields(fields[1..])
  }

  // ---------------------------------------------------------------- reading

  function ReadDigits(s: Text, value: nat): (nat, Text) {
    if s != [] && IsDigit(s[0]) then ReadDigits(s[1..], value * 10 + (s[0] - 0x30)) else (value, s)
  }

  function HexValue(u: CodeUnit): Option<nat> {
    if IsDigit(u) then Some(u - 0x30)
    else if 0x61 <= u <= 0x66 then Some(u - 0x61 + 10)
    else if 0x41 <= u <= 0x46 then Some(u - 0x41 + 10)
    else None
  }

  function ReadHex(s: Text): Option<CodeUnit>
    requires |s| >= 4
  {
    var a, b, c, d := HexValue(s[0]), HexValue(s[1]), HexValue(s[2]), HexValue(s[3]);
    if a.Some? && b.Some? && c.Some? && d.Some? && a.value < 16 && b.value < 16 && c.value < 16 && d.value < 16 then
      Some(a.value * 4096 + b.value * 256 + c.value * 16 + d.value)
    else None
  }

  function ShortEscape(u: CodeUnit): Option<CodeUnit> {
    if u == QUOTE || u == BACKSLASH || u == 0x2F then Some(u)
    else if u == 0x62 then Some(0x08)
    else if u == 0x66 then Some(0x0C)
    else if u == 0x6E then Some(0x0A)
    else if u == 0x72 then Some(0x0D)
    else if u == 0x74 then Some(0x09)
    else None
  }

  /** The characters up to the closing quote, and the text behind it. */
  function ReadChars(s: Text): Option<(Text, Text)>
    decreases |s|
  {
    if s == [] || s[0] < 0x20 then None
    else if s[0] == QUOTE then Some(([], s[1..]))
    else if s[0] != BACKSLASH then
      var rest := ReadChars(s[1..]);
      if rest.None? then None else Some(([s[0]] + rest.value.0, rest.value.1))
    else if |s| >= 2 && ShortEscape(s[1]).Some? then
      var rest := ReadChars(s[2..]);
      if rest.None? then None else Some(([ShortEscape(s[1]).value] + rest.value.0, rest.value.1))
    else if |s| >= 6 && s[1] == 0x75 && ReadHex(s[2..6]).Some? then
      var rest := ReadChars(s[6..]);
      if rest.None? then None else Some(([ReadHex(s[2..6]).value] + rest.value.0, rest.value.1))
    else None
  }

  lemma {:induction false} ReadCharsShrinks(s: Text)
    ensures ReadChars(s).Some? ==> |ReadChars(s).value.1| < |s|
    decreases |s|
  {
    if s != [] && s[0] >= 0x20 && s[0] != QUOTE {
      if s[0] != BACKSLASH {
        ReadCharsShrinks(s[1..]);
      } else if |s| >= 2 && ShortEscape(s[1]).Some? {
        ReadCharsShrinks(s[2..]);
      } else if |s| >= 6 && s[1] == 0x75 && ReadHex(s[2..6]).Some? {
        ReadCharsShrinks(s[6..]);
      }
    }
  }

  lemma {:induction false} ReadDigitsShrinks(s: Text, value: nat)
    ensures |ReadDigits(s, value).1| <= |s|
  {
    if s != [] && IsDigit(s[0]) {
      ReadDigitsShrinks(s[1..], value * 10 + (s[0] - 0x30));
    }
  }

  /** A digit that is not a leading zero. */
  predicate StartsNumeral(s: Text) {
    s != [] && IsDigit(s[0]) && !(s[0] == 0x30 && |s| > 1 && IsDigit(s[1]))
  }

  /** A reader for JSON texts without insignificant white space whose numbers are integers. An
      object is built by assigning its members one by one. */
  function Read(s: Text): (r: Option<(Canon, Text)>)
    ensures r.Some? ==> |r.value.1| < |s|
    decreases |s|, 0
  {
    if s == [] then None
    else if NULL_TEXT <= s then Some((CNull, s[4..]))
    else if TRUE_TEXT <= s then Some((CBool(true), s[4..]))
    else if FALSE_TEXT <= s then Some((CBool(false), s[5..]))
    else if StartsNumeral(s) then
      ReadDigitsShrinks(s[1..], s[0] - 0x30);
      var (n, rest) := ReadDigits(s, 0);
      Some((CInt(n), rest))
    else if s[0] == MINUS && StartsNumeral(s[1..]) then
      ReadDigitsShrinks(s[1..], 0);
      var (n, rest) := ReadDigits(s[1..], 0);
      Some((CInt(0 - n), rest))
    else if s[0] == QUOTE then
      ReadCharsShrinks(s[1..]);
      var c := ReadChars(s[1..]);
      if c.None? then None else Some((CStr(c.value.0), c.value.1))
    else if s[0] == OPEN_BRACKET then
      if |s| > 1 && s[1] == CLOSE_BRACKET then Some((CArray([]), s[2..]))
      else
        var items := ReadItems(s[1..]);
        if items.None? then None else Some((CArray(items.value.0), items.value.1))
    else if s[0] == OPEN_BRACE then
      if |s| > 1 && s[1] == CLOSE_BRACE then Some((CObject([]), s[2..]))
      else
        var fields := ReadFields(s[1..], []);
        if fields.None? then None else Some((CObject(fields.value.0), fields.value.1))
    else None
  }

  function ReadItems(s: Text): (r: Option<(seq<Canon>, Text)>)
    ensures r.Some? ==> |r.value.1| < |s|
    decreases |s|, 1
  {
    var first := Read(s);
    if first.None? || first.value.1 == [] then None
    else
      var rest := first.value.1;
      if rest[0] == CLOSE_BRACKET then Some(([first.value.0], rest[1..]))
      else if rest[0] == COMMA then
        var more := ReadItems(rest[1..]);
        if more.None? then None else Some(([first.value.0] + more.value.0, more.value.1))
      else None
  }

  function ReadFields(s: Text, soFar: seq<(Text, Canon)>): (r: Option<(seq<(Text, Canon)>, Text)>)
    requires StrictlySorted(soFar)
    ensures r.Some? ==> |r.value.1| < |s|
    decreases |s|, 1
  {
    if s == [] || s[0] != QUOTE then None
    else
      ReadCharsShrinks(s[1..]);
      var key := ReadChars(s[1..]);
      if key.None? || key.value.1 == [] || key.value.1[0] != COLON then None
      else
        var value := Read(key.value.1[1..]);
        if value.None? || value.value.1 == [] then None
        else
          var rest := value.value.1;
          var fields := PutField(soFar, (key.value.0, value.value.0));
          if rest[0] == CLOSE_BRACE then Some((fields, rest[1..]))
          else if rest[0] == COMMA then ReadFields(rest[1..], fields)
          else None
  }

  /** Exactly the quote, the backslash, controls and lone surrogates are escaped: in two characters where
      JSON has a short escape, else as four lower-case hexadecimal digits. */
  lemma EscapeUnitForm(u: CodeUnit)
    ensures var e := EscapeUnit(u);
      var short := u == QUOTE || u == BACKSLASH || u == 0x08 || u == 0x09 || u == 0x0A || u == 0x0C || u == 0x0D;
      if short then |e| == 2 && e[0] == BACKSLASH && e[1] != 0x2F && ShortEscape(e[1]) == Some(u)
      else if u < 0x20 || 0xD800 <= u <= 0xDFFF then
        |e| == 6 && e[0] == BACKSLASH && e[1] == 0x75 && ReadHex(e[2..]) == Some(u)
        && forall k :: 2 <= k < 6 ==> !(0x41 <= e[k] <= 0x46)
      else e == [u]
  {
    HexReadBack(u, []);
    assert UnicodeEscape(u)[2..] == UnicodeEscape(u)[2..6];
  }

  // ---------------------------------------------------------------- reading back what was printed

  predicate NoDigit(rest: Text) {
    rest == [] || !IsDigit(rest[0])
  }

  lemma {:induction false} NatStarts(n: nat)
    ensures PrintNat(n) != [] && IsDigit(PrintNat(n)[0]) && (PrintNat(n)[0] == 0x30 ==> n == 0)
  {
    if n >= 10 {
      NatStarts(n / 10);
    }
  }

  lemma {:induction false} DigitsReadBack(n: nat, rest: Text)
    ensures ReadDigits(PrintNat(n) + rest, 0) == ReadDigits(rest, n)
  {
    if n < 10 {
      assert (PrintNat(n) + rest)[1..] == rest;
    } else {
      var last := [0x30 + n % 10];
      DigitsReadBack(n / 10, last + rest);
      assert PrintNat(n) + rest == PrintNat(n / 10) + (last + rest);
      assert (last + rest)[1..] == rest;
    }
  }

  lemma NumeralReadBack(n: nat, rest: Text)
    requires NoDigit(rest)
    ensures StartsNumeral(PrintNat(n) + rest)
    ensures ReadDigits(PrintNat(n) + rest, 0) == (n, rest)
  {
    NatStarts(n);
    DigitsReadBack(n, rest);
    var s := PrintNat(n) + rest;
    if s[0] == 0x30 {
      assert PrintNat(0) == [0x30];
      assert |s| > 1 ==> s[1] == rest[0];
    }
  }

  lemma Assoc(a: Text, b: Text, c: Text)
    ensures (a + b) + c == a + (b + c)
  {
  }

  lemma Behind(head: Text, rest: Text)
    ensures (head + rest)[|head|..] == rest
  {
  }

  lemma HexDigitsReadBack(a: nat, b: nat, c: nat, d: nat)
    requires a < 16 && b < 16 && c < 16 && d < 16
    ensures ReadHex([HexDigit(a), HexDigit(b), HexDigit(c), HexDigit(d)]) == Some(a * 4096 + b * 256 + c * 16 + d)
  {
    assert HexValue(HexDigit(a)) == Some(a) && HexValue(HexDigit(b)) == Some(b);
    assert HexValue(HexDigit(c)) == Some(c) && HexValue(HexDigit(d)) == Some(d);
  }

  lemma HexReadBack(u: CodeUnit, after: Text)
    ensures var s := UnicodeEscape(u) + after;
      ReadHex(s[2..6]) == Some(u) && s[6..] == after
  {
    var s := UnicodeEscape(u) + after;
    var q := u / 16;
    var r := q / 16;
    HexDigitsReadBack(r / 16, r % 16, q % 16, u % 16);
    assert s[2..6] == [HexDigit(r / 16), HexDigit(r % 16), HexDigit(q % 16), HexDigit(u % 16)];
  }

  lemma PlainUnitReadBack(u: CodeUnit, after: Text, tail: (Text, Text))
    requires u >= 0x20 && u != QUOTE && u != BACKSLASH && ReadChars(after) == Some(tail)
    ensures ReadChars([u] + after) == Some(([u] + tail.0, tail.1))
  {
    Behind([u], after);
  }

  /** One escaped code unit in front of a text that reads as `tail`. */
  lemma UnitReadBack(u: CodeUnit, after: Text, tail: (Text, Text))
    requires ReadChars(after) == Some(tail)
    ensures ReadChars(EscapeUnit(u) + after) == Some(([u] + tail.0, tail.1))
  {
    var e := EscapeUnit(u);
    if |e| == 1 {
      PlainUnitReadBack(u, after, tail);
    } else if |e| == 2 {
      Behind(e, after);
    } else {
      HexReadBack(u, after);
    }
  }

  /** Escaped characters in front of a closing quote. */
  lemma {:induction false} CharsReadBack(s: Text, closing: Text, rest: Text)
    requires ReadChars(closing) == Some(([], rest))
    ensures ReadChars(Escape(s) + closing) == Some((s, rest))
    decreases |s|
  {
    if s == [] {
      assert Escape(s) + closing == closing;
    } else if |s| > 1 && IsHighSurrogate(s[0]) && IsLowSurrogate(s[1]) {
      CharsReadBack(s[2..], closing, rest);
      var after := Escape(s[2..]) + closing;
      PlainUnitReadBack(s[1], after, (s[2..], rest));
      PlainUnitReadBack(s[0], [s[1]] + after, ([s[1]] + s[2..], rest));
      Assoc([s[0], s[1]], Escape(s[2..]), closing);
      assert [s[0], s[1]] + after == [s[0]] + ([s[1]] + after);
      assert s == [s[0]] + ([s[1]] + s[2..]);
    } else {
      CharsReadBack(s[1..], closing, rest);
      UnitReadBack(s[0], Escape(s[1..]) + closing, (s[1..], rest));
      Assoc(EscapeUnit(s[0]), Escape(s[1..]), closing);
      assert s == [s[0]] + s[1..];
    }
  }

  /** A printed string in front of any text: what is read behind the opening quote. */
  lemma StringReadBack(s: Text, rest: Text)
    ensures var text := PrintString(s) + rest;
      text[0] == QUOTE && ReadChars(text[1..]) == Some((s, rest))
  {
    var closing := [QUOTE] + rest;
    Behind([QUOTE], rest);
    CharsReadBack(s, closing, rest);
    var text := PrintString(s) + rest;
    assert text == [QUOTE] + (Escape(s) + closing);
    Behind([QUOTE], Escape(s) + closing);
  }

  /** Trees whose objects have distinct keys in normal order, which is all the traversal builds. */
  ghost predicate WellFormed(t: Canon)
    decreases t
  {
    match t
    case CArray(ts) => forall i: nat :: i < |ts| ==> WellFormed(ts[i])
    case CObject(fs) => StrictlySorted(fs) && forall f :: f in fs ==> WellFormed(f.1)
    case _ => true
  }

  lemma PrintStarts(t: Canon)
    ensures Print(t) != [] && Print(t)[0] != CLOSE_BRACKET && Print(t)[0] != CLOSE_BRACE
  {
    if t.CInt? {
      NatStarts(if t.n < 0 then -t.n else t.n);
    }
  }

  lemma {:induction false} ReadPrinted(t: Canon, rest: Text)
    requires WellFormed(t) && NoDigit(rest)
    ensures Read(Print(t) + rest) == Some((t, rest))
    decreases Size(t), 1
  {
    match t
    case CNull => Behind(NULL_TEXT, rest);
    case CBool(b) => BoolReadBack(b, rest);
    case CInt(n) => IntReadBack(n, rest);
    case CStr(text) =>
      StringReadBack(text, rest);
      NotAWord(PrintString(text) + rest);
    case CArray(ts) => ArrayReadBack(ts, rest);
    case CObject(fs) => ObjectReadBack(fs, rest);
  }

  lemma BoolReadBack(b: bool, rest: Text)
    ensures Read(Print(CBool(b)) + rest) == Some((CBool(b), rest))
  {
    var s := Print(CBool(b)) + rest;
    assert s[0] != NULL_TEXT[0];
    if b {
      assert s[4..] == rest;
    } else {
      assert s[0] != TRUE_TEXT[0];
      assert s[5..] == rest;
    }
  }

  lemma IntReadBack(n: int, rest: Text)
    requires NoDigit(rest)
    ensures Read(PrintInt(n) + rest) == Some((CInt(n), rest))
  {
    var s := PrintInt(n) + rest;
    if n < 0 {
      NumeralReadBack(-n, rest);
      assert s[1..] == PrintNat(-n) + rest;
      NotAWord(s);
    } else {
      NumeralReadBack(n, rest);
      NotAWord(s);
    }
  }

  lemma NotAWord(s: Text)
    requires s != [] && s[0] != 0x6E && s[0] != 0x74 && s[0] != 0x66
    ensures !(NULL_TEXT <= s) && !(TRUE_TEXT <= s) && !(FALSE_TEXT <= s)
  {
  }

  lemma ReadArray(body: Text)
    ensures var s := [OPEN_BRACKET] + body;
      Read(s) ==
        if body != [] && body[0] == CLOSE_BRACKET then Some((CArray([]), body[1..]))
        else
          var items := ReadItems(body);
          if items.None? then None else Some((CArray(items.value.0), items.value.1))
  {
    NotAWord([OPEN_BRACKET] + body);
    Behind([OPEN_BRACKET], body);
    if body != [] {
      assert ([OPEN_BRACKET] + body)[2..] == body[1..];
    }
  }

  lemma LastItem(s: Text, t: Canon, rest: Text)
    requires Read(s) == Some((t, [CLOSE_BRACKET] + rest))
    ensures ReadItems(s) == Some(([t], rest))
  {
    Behind([CLOSE_BRACKET], rest);
  }

  lemma NextItem(s: Text, t: Canon, more: Text, ts: seq<Canon>, rest: Text)
    requires Read(s) == Some((t, [COMMA] + more)) && ReadItems(more) == Some((ts, rest))
    ensures ReadItems(s) == Some(([t] + ts, rest))
  {
    Behind([COMMA], more);
  }

  lemma {:induction false} ArrayReadBack(ts: seq<Canon>, rest: Text)
    requires WellFormed(CArray(ts)) && NoDigit(rest)
    ensures Read(Print(CArray(ts)) + rest) == Some((CArray(ts), rest))
    decreases Size(CArray(ts)), 0
  {
    var joined := JoinItems(PrintItems(ts));
    var body := joined + ([CLOSE_BRACKET] + rest);
    assert Print(CArray(ts)) + rest == [OPEN_BRACKET] + body;
    ReadArray(body);
    if ts == [] {
      assert body == [CLOSE_BRACKET] + rest;
      Behind([CLOSE_BRACKET], rest);
    } else {
      ItemsReadBack(ts, rest);
      JoinItemsStarts(ts);
      assert body[0] == joined[0];
    }
  }

  lemma JoinItemsStarts(ts: seq<Canon>)
    requires ts != []
    ensures JoinItems(PrintItems(ts)) != [] && JoinItems(PrintItems(ts))[0] != CLOSE_BRACKET
  {
    PrintStarts(ts[0]);
    assert PrintItems(ts)[0] == Print(ts[0]);
  }

  lemma JoinItemsTail(ts: seq<Canon>)
    requires |ts| > 1
    ensures JoinItems(PrintItems(ts)) == Print(ts[0]) + ([COMMA] + JoinItems(PrintItems(ts[1..])))
  {
    assert PrintItems(ts)[1..] == PrintItems(ts[1..]);
    Assoc(Print(ts[0]), [COMMA], JoinItems(PrintItems(ts[1..])));
  }

  lemma {:induction false} ItemsReadBack(ts: seq<Canon>, rest: Text)
    requires ts != [] && forall i: nat :: i < |ts| ==> WellFormed(ts[i])
    ensures ReadItems(JoinItems(PrintItems(ts)) + ([CLOSE_BRACKET] + rest)) == Some((ts, rest))
    decreases ItemsSize(ts), 1
  {
    var closing := [CLOSE_BRACKET] + rest;
    if |ts| == 1 {
      ReadPrinted(ts[0], closing);
      LastItem(Print(ts[0]) + closing, ts[0], rest);
      assert JoinItems(PrintItems(ts)) == Print(ts[0]);
      assert ts == [ts[0]];
    } else {
      var joined := JoinItems(PrintItems(ts[1..]));
      var more := joined + closing;
      ItemsReadBack(ts[1..], rest);
      ReadPrinted(ts[0], [COMMA] + more);
      NextItem(Print(ts[0]) + ([COMMA] + more), ts[0], more, ts[1..], rest);
      JoinItemsTail(ts);
      Assoc(Print(ts[0]), [COMMA] + joined, closing);
      Assoc([COMMA], joined, closing);
      assert ts == [ts[0]] + ts[1..];
    }
  }

  // ---------------------------------------------------------------- objects

  function PutAll(soFar: seq<(Text, Canon)>, fs: seq<(Text, Canon)>): (r: seq<(Text, Canon)>)
    requires StrictlySorted(soFar)
    ensures StrictlySorted(r)
    decreases |fs|
  {
    if fs == [] then soFar else PutAll(PutField(soFar, fs[0]), fs[1..])
  }

  ghost predicate KeysDecide(fs: seq<(Text, Canon)>) {
    forall f, g :: f in fs && g in fs && f.0 == g.0 ==> f == g
  }

  lemma {:induction false} PutAllMembers(soFar: seq<(Text, Canon)>, fs: seq<(Text, Canon)>)
    requires StrictlySorted(soFar) && KeysDecide(soFar + fs)
    ensures forall f :: f in PutAll(soFar, fs) <==> f in soFar + fs
    decreases |fs|
  {
    if fs != [] {
      var put := PutField(soFar, fs[0]);
      assert fs == [fs[0]] + fs[1..];
      assert forall f :: f in put <==> f in soFar || f == fs[0] by {
        forall f ensures f in put <==> f in soFar || f == fs[0] {
          if f in soFar && f.0 == fs[0].0 {
            assert f in soFar + fs && fs[0] in soFar + fs;
          }
        }
      }
      assert forall f :: f in put + fs[1..] <==> f in soFar + fs;
      PutAllMembers(put, fs[1..]);
    }
  }

  /** Assigning the members in enumeration order rebuilds the normal form. */
  lemma PutAllRestores(fs: seq<(Text, Canon)>)
    requires StrictlySorted(fs)
    ensures PutAll([], Enumerate(fs)) == fs
  {
    var gs := Enumerate(fs);
    forall f, g | f in [] + gs && g in [] + gs && f.0 == g.0 ensures f == g {
      SameKeyIsSameField(fs, f, g);
    }
    PutAllMembers([], gs);
    StrictlySortedUnique(PutAll([], gs), fs);
  }

  lemma ReadObject(body: Text)
    ensures var s := [OPEN_BRACE] + body;
      Read(s) ==
        if body != [] && body[0] == CLOSE_BRACE then Some((CObject([]), body[1..]))
        else
          var fields := ReadFields(body, []);
          if fields.None? then None else Some((CObject(fields.value.0), fields.value.1))
  {
    NotAWord([OPEN_BRACE] + body);
    Behind([OPEN_BRACE], body);
    if body != [] {
      assert ([OPEN_BRACE] + body)[2..] == body[1..];
    }
  }

  lemma PrintedObject(fs: seq<(Text, Canon)>, rest: Text)
    ensures Print(CObject(fs)) + rest == [OPEN_BRACE] + (JoinFields(Enumerate(PrintFields(fs))) + ([CLOSE_BRACE] + rest))
  {
    var joined := JoinFields(Enumerate(PrintFields(fs)));
    Assoc([OPEN_BRACE] + joined, [CLOSE_BRACE], rest);
    Assoc([OPEN_BRACE], joined, [CLOSE_BRACE] + rest);
  }

  lemma JoinFieldsStarts(printed: seq<(Text, Text)>)
    ensures printed == [] ==> JoinFields(printed) == []
    ensures printed != [] ==> JoinFields(printed) != [] && JoinFields(printed)[0] == QUOTE
  {
  }

  lemma MembersAreSmaller(fs: seq<(Text, Canon)>)
    requires WellFormed(CObject(fs))
    ensures forall g :: g in Enumerate(fs) ==> WellFormed(g.1) && Size(g.1) < FieldsSize(fs)
    ensures Enumerate(fs) == [] ==> fs == []
  {
    forall g | g in Enumerate(fs) ensures WellFormed(g.1) && Size(g.1) < FieldsSize(fs) {
      FieldIsSmaller(fs, g);
    }
    HeadIsMember(fs);
  }

  lemma {:induction false} ObjectReadBack(fs: seq<(Text, Canon)>, rest: Text)
    requires WellFormed(CObject(fs)) && NoDigit(rest)
    ensures Read(Print(CObject(fs)) + rest) == Some((CObject(fs), rest))
    decreases Size(CObject(fs)), 0
  {
    var gs := Enumerate(fs);
    var printed := Enumerate(PrintFields(fs));
    var body := JoinFields(printed) + ([CLOSE_BRACE] + rest);
    PrintedObject(fs, rest);
    ReadObject(body);
    PrintedInOrder(fs);
    MembersAreSmaller(fs);
    JoinFieldsStarts(printed);
    if gs == [] {
      assert body == [CLOSE_BRACE] + rest;
      Behind([CLOSE_BRACE], rest);
    } else {
      FieldsReadBack(gs, printed, [], rest, FieldsSize(fs));
      PutAllRestores(fs);
    }
  }

  lemma PrintedInOrder(fs: seq<(Text, Canon)>)
    ensures var printed, gs := Enumerate(PrintFields(fs)), Enumerate(fs);
      |printed| == |gs| && forall i: nat :: i < |gs| ==> printed[i] == PrintField(gs[i])
  {
    assert PrintFields(fs) == MapFields(fs, Print);
    EnumerateMap(fs, Print);
    var gs := Enumerate(fs);
    assert Enumerate(PrintFields(fs)) == MapFields(gs, Print);
  }

  lemma LastField(s: Text, soFar: seq<(Text, Canon)>, g: (Text, Canon), member: Text, rest: Text)
    requires StrictlySorted(soFar) && s != [] && s[0] == QUOTE && ReadChars(s[1..]) == Some((g.0, [COLON] + member))
    requires Read(member) == Some((g.1, [CLOSE_BRACE] + rest))
    ensures ReadFields(s, soFar) == Some((PutField(soFar, g), rest))
  {
    Behind([COLON], member);
    Behind([CLOSE_BRACE], rest);
  }

  lemma NextField(s: Text, soFar: seq<(Text, Canon)>, g: (Text, Canon), member: Text, more: Text)
    requires StrictlySorted(soFar) && s != [] && s[0] == QUOTE && ReadChars(s[1..]) == Some((g.0, [COLON] + member))
    requires Read(member) == Some((g.1, [COMMA] + more))
    ensures ReadFields(s, soFar) == ReadFields(more, PutField(soFar, g))
  {
    Behind([COLON], member);
    Behind([COMMA], more);
  }

  /** A printed `"key":value` in front of a text, cut behind the key. */
  lemma MemberParts(key: Text, value: Text, after: Text)
    ensures var s := PrintMember((key, value)) + after;
      s[0] == QUOTE && ReadChars(s[1..]) == Some((key, [COLON] + (value + after)))
  {
    var tail := [COLON] + (value + after);
    StringReadBack(key, tail);
    assert PrintMember((key, value)) + after == PrintString(key) + tail;
  }

  lemma {:induction false} FieldsReadBack(gs: seq<(Text, Canon)>, printed: seq<(Text, Text)>,
          soFar: seq<(Text, Canon)>, rest: Text, size: nat)
    requires gs != [] && |printed| == |gs| && forall i: nat :: i < |gs| ==> printed[i] == PrintField(gs[i])
    requires forall g :: g in gs ==> WellFormed(g.1) && Size(g.1) < size
    requires StrictlySorted(soFar)
    ensures ReadFields(JoinFields(printed) + ([CLOSE_BRACE] + rest), soFar) == Some((PutAll(soFar, gs), rest))
    decreases size, 1, |gs|
  {
    var g := gs[0];
    var closing := [CLOSE_BRACE] + rest;
    assert printed[0] == (g.0, Print(g.1)) && g in gs;
    if |gs| == 1 {
      MemberParts(g.0, Print(g.1), closing);
      ReadPrinted(g.1, closing);
      LastField(PrintMember(printed[0]) + closing, soFar, g, Print(g.1) + closing, rest);
      assert JoinFields(printed) == PrintMember(printed[0]);
      assert PutAll(soFar, gs) == PutAll(PutField(soFar, g), []);
    } else {
      var joined := JoinFields(printed[1..]);
      var more := joined + closing;
      MemberParts(g.0, Print(g.1), [COMMA] + more);
      ReadPrinted(g.1, [COMMA] + more);
      NextField(PrintMember(printed[0]) + ([COMMA] + more), soFar, g, Print(g.1) + ([COMMA] + more), more);
      FieldsReadBack(gs[1..], printed[1..], PutField(soFar, g), rest, size);
      assert JoinFields(printed) == PrintMember(printed[0]) + [COMMA] + joined;
      Assoc(PrintMember(printed[0]), [COMMA], joined);
      Assoc(PrintMember(printed[0]), [COMMA] + joined, closing);
      Assoc([COMMA], joined, closing);
    }
  }

  // ---------------------------------------------------------------- unique texts

  /** Printing loses nothing: the text of a well-formed tree reads back as that tree. */
  lemma PrintReadsBack(t: Canon)
    requires WellFormed(t)
    ensures Read(Print(t)) == Some((t, []))
  {
    ReadPrinted(t, []);
    assert Print(t) + [] == Print(t);
  }

  lemma {:induction false} UnfoldsWellFormed(heap: Heap, platform: Platform, v: Value, t: Canon)
    requires Unfolds(heap, platform, v, t)
    ensures WellFormed(t)
    decreases t
  {
    match t
    case CArray(ts) =>
      forall i: nat | i < |ts| ensures WellFormed(ts[i]) {
        assert ItemUnfolds(heap, platform, heap[v.id].slots[i], ts[i]);
        UnfoldsWellFormed(heap, platform, heap[v.id].slots[i].value.value, ts[i]);
      }
    case CObject(fs) =>
      forall f | f in fs ensures WellFormed(f.1) {
        var p := PropertyOf(heap, platform, v, t, f);
        UnfoldsWellFormed(heap, platform, p.1.value, f.1);
      }
    case _ =>
  }

  /** `canonicalize(value).json`, the option and size checks aside. */
  function CanonicalJson(heap: Heap, platform: Platform, v: Value): Result<Text, ErrorCode>
    requires Closed(heap) && Within(heap, v)
  {
    var t := Node(heap, platform, v, {});
    if t.Ok? then Ok(Print(t.value)) else Err(t.error)
  }

  /** Equal canonical texts come from equal canonical values only, whatever graphs they came from. */
  lemma EqualTextEqualValue(heap1: Heap, heap2: Heap, platform: Platform, v1: Value, v2: Value)
    requires Closed(heap1) && Within(heap1, v1) && Closed(heap2) && Within(heap2, v2)
    requires CanonicalJson(heap1, platform, v1).Ok? && CanonicalJson(heap1, platform, v1) == CanonicalJson(heap2, platform, v2)
    ensures Node(heap1, platform, v1, {}) == Node(heap2, platform, v2, {})
  {
    var t1, t2 := Node(heap1, platform, v1, {}).value, Node(heap2, platform, v2, {}).value;
    NodeUnfolds(heap1, platform, v1, {});
    NodeUnfolds(heap2, platform, v2, {});
    UnfoldsWellFormed(heap1, platform, v1, t1);
    UnfoldsWellFormed(heap2, platform, v2, t2);
    PrintReadsBack(t1);
    PrintReadsBack(t2);
  }
}
