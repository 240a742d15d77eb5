/** Which texts cJSON_Parse accepts and what they mean, told on the text alone: the strings
    and values of RFC 8259 as they are spelled, with blanks where the parser allows them. */
module JsonGrammar {
  import opened CString
  import opened JsonValue
  import opened JsonText
  import opened JsonUnicode

  // ---------------------------------------------------------------- strings

  /** One character of a string as it is spelled: by itself, by one of the two-character
      escapes, by the escape of a code point, or by a \u escape with bad digits. */
  datatype Piece =
    | Plain(c: char)
    | Short(letter: char)
    | Point(spelling: string, code: nat)
    | Bad(digits: string)

  predicate LegalPiece(piece: Piece)
  {
    match piece
    case Plain(c) => c != '\\'
    case Short(letter) => letter in ['\"', '\\', '/', 'b', 'f', 'n', 'r', 't']
    case Point(t, code) => Scalar(code) && Spells(t, code) && |t| == if code < 0x10000 then 6 else 12
    case Bad(digits) => |digits| == 4 && !AllHex(digits)
  }

  function PieceText(piece: Piece): (t: string)
  {
    match piece
    case Plain(c) => [c]
    case Short(letter) => ['\\', letter]
    case Point(t, code) => t
    case Bad(digits) => "\\u" + digits
  }

  /** What it stands for: the table of section 7 of RFC 8259, by code points. */
  function PieceMeans(piece: Piece): string
    requires LegalPiece(piece)
  {
    match piece
    case Plain(c) => [c]
    case Short(letter) =>
      if letter == '\"' then [0x22 as char]
      else if letter == '\\' then [0x5C as char]
      else if letter == '/' then [0x2F as char]
      else if letter == 'b' then [0x08 as char]
      else if letter == 'f' then [0x0C as char]
      else if letter == 'n' then [0x0A as char]
      else if letter == 'r' then [0x0D as char]
      else [0x09 as char]
    case Point(t, code) => Utf8(code)
    case Bad(digits) => [0 as char]
  }

  predicate LegalPieces(ps: seq<Piece>)
  {
    forall i :: 0 <= i < |ps| ==> LegalPiece(ps[i])
  }

  function PiecesText(ps: seq<Piece>): string
  {
    if ps == [] then "" else PieceText(ps[0]) + PiecesText(ps[1..])
  }

  function PiecesMean(ps: seq<Piece>): string
    requires LegalPieces(ps)
  {
    if ps == [] then "" else PieceMeans(ps[0]) + PiecesMean(ps[1..])
  }

  /** Decoding one piece and what follows. */
  lemma DecodePiece(piece: Piece, rest: string)
    requires LegalPiece(piece)
    ensures Decode(PieceText(piece) + rest) == Cons(PieceMeans(piece), Decode(rest))
  {
    var t := PieceText(piece);
    var p := t + rest;
    match piece
    case Plain(c) => assert p[1..] == rest;
    case Short(letter) => assert p[0] == '\\' && p[1] == letter && p[2..] == rest;
    case Point(u, code) =>
      PointStarts(u, code);
      PointReads(u, code, rest);
      assert p[0] == u[0] && p[1] == u[1] && p[|u|..] == rest;
    case Bad(digits) =>
      assert p[0] == '\\' && p[1] == 'u' && p[6..] == rest;
      BadReads(digits, rest);
  }

  lemma PointStarts(u: string, code: nat)
    requires code <= 0x10FFFF && Spells(u, code)
    ensures |u| >= 6 && u[0] == '\\' && u[1] == 'u'
  {
    hide Hex4Text, HighOf, LowOf;
    assert u[..2][0] == u[0] && u[..2][1] == u[1];
  }

  lemma PointReads(u: string, code: nat, rest: string)
    requires LegalPiece(Point(u, code))
    ensures Utf16Literal(u + rest) == Some((Utf8(code), |u|))
  {
    hide Utf16Literal, Utf8, Hex4Text, HighOf, LowOf;
    var p := u + rest;
    assert p[..2] == u[..2] && p[2..6] == u[2..6];
    if code >= 0x10000 { assert p[6..8] == u[6..8] && p[8..12] == u[8..12]; }
    SpelledIsRead(p, code);
  }

  lemma BadReads(digits: string, rest: string)
    requires |digits| == 4 && !AllHex(digits)
    ensures Utf16Literal("\\u" + digits + rest) == Some(("\0", 6))
  {
    var p := "\\u" + digits + rest;
    assert p[2..6] == digits;
  }

  lemma {:induction false} DecodePieces(ps: seq<Piece>, rest: string)
    requires LegalPieces(ps)
    ensures Decode(PiecesText(ps) + rest) == Cons(PiecesMean(ps), Decode(rest))
  {
    hide Decode, PieceText, PieceMeans, LegalPiece;
    if ps == [] {
      assert "" + rest == rest;
      ConsNothing(Decode(rest));
    } else {
      DecodePiece(ps[0], PiecesText(ps[1..]) + rest);
      DecodePieces(ps[1..], rest);
      assert PieceText(ps[0]) + (PiecesText(ps[1..]) + rest) == PiecesText(ps) + rest;
      ConsTwice(PieceMeans(ps[0]), PiecesMean(ps[1..]), Decode(rest));
    }
  }

  lemma ConsNothing(r: Option<string>)
    ensures Cons("", r) == r
  {
    if r.Some? { assert "" + r.value == r.value; }
  }

  lemma ConsTwice(a: string, b: string, r: Option<string>)
    ensures Cons(a, Cons(b, r)) == Cons(a + b, r)
  {
    if r.Some? { assert a + (b + r.value) == (a + b) + r.value; }
  }

  /** A lone backslash at the very end of the content takes the closing quote along. */
  predicate LegalTail(tail: string)
  {
    tail == "" || tail == "\\"
  }

  function TailMeans(tail: string): string
  {
    if tail == "" then "" else "\""
  }

  lemma DecodeTail(tail: string)
    requires LegalTail(tail)
    ensures Decode(tail) == Some(TailMeans(tail))
  {
    assert tail != "" ==> |tail| == 1 && tail[0] == '\\';
    assert Decode("") == Some("");
    assert "\"" + "" == "\"";
  }

  /** The first piece of a content that decodes. */
  lemma FirstPiece(p: string) returns (piece: Piece)
    requires p != "" && p != "\\" && Decode(p).Some?
    ensures LegalPiece(piece) && PieceText(piece) != "" && PieceText(piece) <= p
    ensures Decode(p[|PieceText(piece)|..]).Some?
  {
    if p[0] != '\\' {
      piece := Plain(p[0]);
      assert [p[0]] == p[..1];
    } else if p[1] != 'u' {
      piece := Short(p[1]);
      assert ['\\', p[1]] == p[..2];
    } else {
      piece := LiteralPiece(p);
    }
  }

  lemma LiteralPiece(p: string) returns (piece: Piece)
    requires |p| >= 2 && p[0] == '\\' && p[1] == 'u' && Utf16Literal(p).Some?
    ensures LegalPiece(piece) && PieceText(piece) != "" && PieceText(piece) <= p && |PieceText(piece)| == Utf16Literal(p).value.1
  {
    hide Utf8, Hex4, Hex4Text, HighOf, LowOf;
    assert p[..2] == "\\u";
    if AllHex(p[2..6]) {
      var code := ReadIsSpelled(p);
      SpelledIsRead(p, code);
      var n := if code < 0x10000 then 6 else 12;
      var t := p[..n];
      assert t[..2] == p[..2] && t[2..6] == p[2..6];
      if n == 12 { assert t[6..8] == p[6..8] && t[8..12] == p[8..12]; }
      piece := Point(t, code);
    } else {
      LiteralExact(p);
      piece := Bad(p[2..6]);
      assert "\\u" + p[2..6] == p[..6];
    }
  }

  /** Every content that decodes is spelled by legal pieces. */
  lemma {:induction false} PiecesOf(p: string) returns (ps: seq<Piece>, tail: string)
    requires Decode(p).Some?
    ensures LegalPieces(ps) && LegalTail(tail) && p == PiecesText(ps) + tail
    decreases |p|
  {
    hide Decode, LegalPiece, PieceText;
    if p == "" || p == "\\" {
      ps, tail := [], p;
      assert "" + p == p;
    } else {
      var piece := FirstPiece(p);
      var more;
      more, tail := PiecesOf(p[|PieceText(piece)|..]);
      ps := [piece] + more;
      assert ps[1..] == more;
      assert p == PieceText(piece) + p[|PieceText(piece)|..];
      assert PieceText(piece) + (PiecesText(more) + tail) == PiecesText(ps) + tail;
    }
  }

  /** A content decodes exactly if it is spelled by legal pieces, to what they mean. */
  lemma DecodeExact(p: string, s: string)
    ensures Decode(p) == Some(s) <==>
              exists ps, tail :: LegalPieces(ps) && LegalTail(tail) && p == PiecesText(ps) + tail && s == PiecesMean(ps) + TailMeans(tail)
  {
    hide Decode, LegalPieces, LegalTail, TailMeans, PiecesText, PiecesMean;
    forall ps, tail | LegalPieces(ps) && LegalTail(tail) && p == PiecesText(ps) + tail
      ensures Decode(p) == Some(PiecesMean(ps) + TailMeans(tail))
    {
      DecodePieces(ps, tail);
      DecodeTail(tail);
    }
    if Decode(p) == Some(s) {
      var ps, tail := PiecesOf(p);
    }
  }

  // ---------------------------------------------------------------- the closing quote

  /** Counted in pairs from the front, every backslash has its character, and no quote stands
      without a backslash in front. */
  predicate Unquoted(content: string)
    decreases |content|
  {
    content == "" ||
    (if content[0] == '\\' then |content| >= 2 && Unquoted(content[2..])
     else content[0] != '\"' && Unquoted(content[1..]))
  }

  lemma {:induction false} QuoteBehind(content: string, rest: string)
    requires Unquoted(content)
    ensures ClosingQuote(content + ("\"" + rest)) == Some(|content|)
    decreases |content|
  {
    var p := content + ("\"" + rest);
    if content == "" {
      assert p[0] == '\"';
    } else if content[0] == '\\' {
      assert p[2..] == content[2..] + ("\"" + rest);
      QuoteBehind(content[2..], rest);
    } else {
      assert p[1..] == content[1..] + ("\"" + rest);
      QuoteBehind(content[1..], rest);
    }
  }

  lemma {:induction false} QuoteInFront(p: string)
    requires ClosingQuote(p).Some?
    ensures Unquoted(p[..ClosingQuote(p).value])
    decreases |p|
  {
    var n := ClosingQuote(p).value;
    if n > 0 {
      if p[0] == '\\' {
        QuoteInFront(p[2..]);
        assert p[..n][2..] == p[2..][..n-2];
      } else {
        QuoteInFront(p[1..]);
        assert p[..n][1..] == p[1..][..n-1];
      }
    }
  }

  /** A string text: quotes around a content that is spelled by these pieces. */
  ghost predicate StringSpelled(t: string, s: string, ps: seq<Piece>, tail: string)
  {
    && LegalPieces(ps) && LegalTail(tail) && Unquoted(PiecesText(ps) + tail)
    && t == "\"" + ((PiecesText(ps) + tail) + "\"")
    && s == CutAtNul(PiecesMean(ps) + TailMeans(tail))
  }

  /** t spells the string s, as a C string sees it. */
  ghost predicate SpellsString(t: string, s: string)
  {
    exists ps, tail :: StringSpelled(t, s, ps, tail)
  }

  /** parse_string accepts exactly the string texts, and returns what they spell. */
  lemma StringExact(p: string, s: string, rest: string)
    ensures ParseString(p) == Some((s, rest)) <==> exists t :: p == t + rest && SpellsString(t, s)
  {
    hide SpellsString;
    forall t | p == t + rest && SpellsString(t, s) ensures ParseString(p) == Some((s, rest)) { StringReads(t, s, rest); }
    if ParseString(p) == Some((s, rest)) {
      var t := StringRead(p, s, rest);
    }
  }

  lemma StringReads(t: string, s: string, rest: string)
    requires SpellsString(t, s)
    ensures ParseString(t + rest) == Some((s, rest))
  {
    hide StringSpelled;
    var ps, tail :| StringSpelled(t, s, ps, tail);
    StringPieces(t, s, ps, tail);
    var c := PiecesText(ps) + tail;
    var p := t + rest;
    ReadsContent(c, PiecesMean(ps) + TailMeans(tail), rest);
    assert p == "\"" + (c + ("\"" + rest));
  }

  lemma StringPieces(t: string, s: string, ps: seq<Piece>, tail: string)
    requires StringSpelled(t, s, ps, tail)
    ensures LegalPieces(ps) && t == "\"" + ((PiecesText(ps) + tail) + "\"") && Unquoted(PiecesText(ps) + tail)
    ensures Decode(PiecesText(ps) + tail) == Some(PiecesMean(ps) + TailMeans(tail))
    ensures s == CutAtNul(PiecesMean(ps) + TailMeans(tail))
  {
    hide Decode, LegalPiece, PiecesText, PiecesMean, Unquoted, CutAtNul;
    DecodePieces(ps, tail);
    DecodeTail(tail);
  }

  lemma ReadsContent(c: string, s: string, rest: string)
    requires Unquoted(c) && Decode(c) == Some(s)
    ensures ParseString("\"" + (c + ("\"" + rest))) == Some((CutAtNul(s), rest))
  {
    hide Decode, ClosingQuote, CutAtNul;
    var p := "\"" + (c + ("\"" + rest));
    assert p[1..] == c + ("\"" + rest);
    QuoteBehind(c, rest);
    assert p[1..][..|c|] == c && p[1..][|c| + 1..] == rest;
  }

  lemma StringRead(p: string, s: string, rest: string) returns (t: string)
    requires ParseString(p) == Some((s, rest))
    ensures p == t + rest && SpellsString(t, s)
  {
    hide Decode, ClosingQuote, CutAtNul, PiecesText, PiecesMean, LegalPieces, Unquoted, TailMeans;
    var q := p[1..];
    var n := ClosingQuote(q).value;
    QuoteInFront(q);
    var c := q[..n];
    var ps, tail := PiecesOf(c);
    DecodePieces(ps, tail);
    DecodeTail(tail);
    t := "\"" + (c + "\"");
    assert q == c + ("\"" + rest);
    assert p == "\"" + q;
    assert StringSpelled(t, s, ps, tail);
  }

  // ---------------------------------------------------------------- what strings RFC 8259 knows

  /** The pieces of section 7 of RFC 8259: no bare quote or backslash, and no bad digits. */
  predicate Proper(ps: seq<Piece>)
  {
    forall i :: 0 <= i < |ps| ==> LegalPiece(ps[i]) && !ps[i].Bad? && ps[i] != Plain('\"')
  }

  lemma SpellingDigits(t: string, h: nat)
    requires |t| == 4 && h < 0x10000 && Lower(t) == Hex4Text(h)
    ensures forall i :: 0 <= i < 4 ==> t[i] != '\\' && t[i] != '\"'
  {
    HexSpells(t, h);
  }

  lemma {:induction false} UnquotedConcat(a: string, b: string)
    requires Unquoted(a) && Unquoted(b)
    ensures Unquoted(a + b)
    decreases |a|
  {
    if a == "" {
      assert a + b == b;
    } else if a[0] == '\\' {
      assert (a + b)[2..] == a[2..] + b;
      UnquotedConcat(a[2..], b);
    } else {
      assert (a + b)[1..] == a[1..] + b;
      UnquotedConcat(a[1..], b);
    }
  }

  lemma {:induction false} UnquotedPlain(a: string)
    requires forall i :: 0 <= i < |a| ==> a[i] != '\\' && a[i] != '\"'
    ensures Unquoted(a)
  {
    if a != "" { UnquotedPlain(a[1..]); }
  }

  lemma UnquotedUnit(t: string, h: nat)
    requires |t| == 4 && h < 0x10000 && Lower(t) == Hex4Text(h)
    ensures Unquoted("\\u" + t)
  {
    hide Hex4Text;
    SpellingDigits(t, h);
    UnquotedPlain(t);
    assert ("\\u" + t)[2..] == t;
  }

  lemma UnquotedPiece(piece: Piece)
    requires LegalPiece(piece) && !piece.Bad? && piece != Plain('\"')
    ensures Unquoted(PieceText(piece))
  {
    hide Hex4Text, HighOf, LowOf;
    match piece
    case Plain(c) => assert [c][1..] == "";
    case Short(letter) => assert ['\\', letter][2..] == "";
    case Point(t, code) =>
      if code < 0x10000 {
        UnquotedUnit(t[2..6], code);
        assert t == "\\u" + t[2..6];
      } else {
        HighAndLow(code);
        UnquotedUnit(t[2..6], HighOf(code));
        UnquotedUnit(t[8..12], LowOf(code));
        UnquotedConcat("\\u" + t[2..6], "\\u" + t[8..12]);
        assert t == ("\\u" + t[2..6]) + ("\\u" + t[8..12]);
      }
  }

  lemma {:induction false} UnquotedPieces(ps: seq<Piece>)
    requires Proper(ps)
    ensures LegalPieces(ps) && Unquoted(PiecesText(ps))
  {
    hide LegalPiece, PieceText, Unquoted;
    if ps == [] {
      UnquotedNothing();
    } else {
      UnquotedPiece(ps[0]);
      UnquotedPieces(ps[1..]);
      UnquotedConcat(PieceText(ps[0]), PiecesText(ps[1..]));
    }
  }

  lemma UnquotedNothing()
    ensures Unquoted("")
  {
  }

  /** Every string text of the standard is read, to the characters its pieces stand for. */
  lemma ProperString(ps: seq<Piece>, rest: string)
    requires Proper(ps)
    ensures LegalPieces(ps)
    ensures ParseString("\"" + (PiecesText(ps) + ("\"" + rest))) == Some((CutAtNul(PiecesMean(ps)), rest))
  {
    hide Decode, LegalPiece, PiecesText, PiecesMean, Unquoted, CutAtNul, ParseString;
    UnquotedPieces(ps);
    DecodePieces(ps, "");
    DecodeTail("");
    assert PiecesText(ps) + "" == PiecesText(ps) && PiecesMean(ps) + "" == PiecesMean(ps);
    ReadsContent(PiecesText(ps), PiecesMean(ps), rest);
  }

  lemma {:induction false} QuoteAfter(c: string, q: string)
    requires Unquoted(c)
    ensures ClosingQuote(c + q) == if ClosingQuote(q).Some? then Some(|c| + ClosingQuote(q).value) else None
    decreases |c|
  {
    var p := c + q;
    if c == "" {
      assert p == q;
    } else if c[0] == '\\' {
      assert p[2..] == c[2..] + q;
      QuoteAfter(c[2..], q);
    } else {
      assert p[1..] == c[1..] + q;
      QuoteAfter(c[1..], q);
    }
  }

  /** A backslash in front of any other letter is refused, whatever follows, and so is a low
      surrogate with no high one in front. */
  lemma EscapeRefused(ps: seq<Piece>, letter: char, more: string)
    requires Proper(ps)
    requires letter !in ['\"', '\\', '/', 'b', 'f', 'n', 'r', 't', 'u']
             || (letter == 'u' && |more| >= 4 && LowSurrogate(Hex4(more[..4])))
    ensures ParseString("\"" + (PiecesText(ps) + (['\\', letter] + more))).None?
  {
    hide Decode, LegalPiece, PiecesText, PiecesMean, Unquoted, ClosingQuote, Hex4;
    var q := ['\\', letter] + more;
    var p := "\"" + (PiecesText(ps) + q);
    UnquotedPieces(ps);
    QuoteAfter(PiecesText(ps), q);
    assert p[1..] == PiecesText(ps) + q;
    var end := ClosingQuote(q);
    if end.Some? {
      var c := q[..end.value];
      QuoteBehindEscape(q);
      assert p[1..][..|PiecesText(ps)| + end.value] == PiecesText(ps) + c;
      DecodePieces(ps, c);
      BadLetter(c, letter, more);
    }
  }

  lemma QuoteBehindEscape(q: string)
    requires |q| >= 2 && q[0] == '\\' && ClosingQuote(q).Some?
    ensures ClosingQuote(q).value >= 2
  {
  }

  lemma BadLetter(c: string, letter: char, more: string)
    requires |c| >= 2 && c <= ['\\', letter] + more
    requires letter !in ['\"', '\\', '/', 'b', 'f', 'n', 'r', 't', 'u']
             || (letter == 'u' && |more| >= 4 && LowSurrogate(Hex4(more[..4])))
    ensures Decode(c).None?
  {
    hide Hex4;
    var q := ['\\', letter] + more;
    assert c == q[..|c|] && c[0] == '\\' && c[1] == letter;
    if |c| >= 6 {
      assert c[2..6] == q[2..6];
      if letter == 'u' { assert q[2..6] == more[..4]; }
    }
  }

  // ---------------------------------------------------------------- values

  /** A value as it is spelled. Strings and keys are given by their texts; an array or object
      that is empty has blanks between its brackets. */
  datatype Syntax =
    | Word(value: Json)
    | Numeral(digits: string, n: int)
    | Quoted(text: string, s: string)
    | List(space: string, elements: seq<Element>)
    | Record(space: string, fields: seq<Field>)

  /** An element of an array with the blanks around it. */
  datatype Element = Element(before: string, value: Syntax, after: string)

  /** A member of an object with the blanks in front of its key, its colon, its value and
      behind it. */
  datatype Field = Field(before: string, text: string, key: string, colon: string, space: string, value: Syntax, after: string)

  /** Blanks: space, tab, line feed and carriage return, and all control characters. */
  predicate Space(s: string)
  {
    forall i :: 0 <= i < |s| ==> s[i] <= ' '
  }

  function Spelled(x: Syntax): string
    decreases x, 1
  {
    match x
    case Word(v) => if v == Null then "null" else if v == False then "false" else "true"
    case Numeral(digits, n) => digits
    case Quoted(t, s) => t
    case List(space, es) => "[" + (if es == [] then space + "]" else ElementsSpelled(es))
    case Record(space, fs) => "{" + (if fs == [] then space + "}" else FieldsSpelled(fs))
  }

  /** The elements, a comma between them, and the closing bracket. */
  function ElementsSpelled(es: seq<Element>): string
    requires es != []
    decreases es, 0
  {
    es[0].before + (Spelled(es[0].value) + (es[0].after + (if |es| == 1 then "]" else "," + ElementsSpelled(es[1..]))))
  }

  function FieldsSpelled(fs: seq<Field>): string
    requires fs != []
    decreases fs, 0
  {
    fs[0].before + (fs[0].text + (fs[0].colon + (":" + (fs[0].space + (Spelled(fs[0].value) + (fs[0].after
      + (if |fs| == 1 then "}" else "," + FieldsSpelled(fs[1..]))))))))
  }

  function Value(x: Syntax): Json
    decreases x, 1
  {
    match x
    case Word(v) => v
    case Numeral(digits, n) => Number(n)
    case Quoted(t, s) => String(s)
    case List(space, es) => Array(ElementValues(es))
    case Record(space, fs) => Object(FieldValues(fs))
  }

  function ElementValues(es: seq<Element>): (r: seq<Json>)
    ensures |r| == |es|
    decreases es, 0
  {
    if es == [] then [] else [Value(es[0].value)] + ElementValues(es[1..])
  }

  function FieldValues(fs: seq<Field>): (r: seq<Member>)
    ensures |r| == |fs|
    decreases fs, 0
  {
    if fs == [] then [] else [Member(fs[0].key, Value(fs[0].value))] + FieldValues(fs[1..])
  }

  /** What is legal in front of `rest` at a nesting depth: a number goes as far as strtod takes
      of the at most 63 number characters; arrays and objects nest 1000 deep. */
  ghost predicate Legal(strtod: Strtod, x: Syntax, rest: string, depth: nat)
    decreases x, 1
  {
    match x
    case Word(v) => v == Null || v == False || v == True
    case Numeral(digits, n) =>
      && digits != "" && (digits[0] == '-' || '0' <= digits[0] <= '9')
      && |digits| <= |NumberRun(digits + rest, 63)| && strtod(NumberRun(digits + rest, 63)) == (n, |digits|)
    case Quoted(t, s) => SpellsString(t, s)
    case List(space, es) =>
      depth < 1000 && (if es == [] then Space(space) else LegalElements(strtod, es, rest, depth + 1))
    case Record(space, fs) =>
      depth < 1000 && (if fs == [] then Space(space) else LegalFields(strtod, fs, rest, depth + 1))
  }

  ghost predicate LegalElements(strtod: Strtod, es: seq<Element>, rest: string, depth: nat)
    requires es != []
    decreases es, 0
  {
    var behind := es[0].after + ((if |es| == 1 then "]" else "," + ElementsSpelled(es[1..])) + rest);
    && Space(es[0].before) && Space(es[0].after) && Legal(strtod, es[0].value, behind, depth)
    && (|es| > 1 ==> LegalElements(strtod, es[1..], rest, depth))
  }

  ghost predicate LegalFields(strtod: Strtod, fs: seq<Field>, rest: string, depth: nat)
    requires fs != []
    decreases fs, 0
  {
    var behind := fs[0].after + ((if |fs| == 1 then "}" else "," + FieldsSpelled(fs[1..])) + rest);
    && Space(fs[0].before) && Space(fs[0].colon) && Space(fs[0].space) && Space(fs[0].after)
    && SpellsString(fs[0].text, fs[0].key) && Legal(strtod, fs[0].value, behind, depth)
    && (|fs| > 1 ==> LegalFields(strtod, fs[1..], rest, depth))
  }

  lemma {:induction false} SkipsSpace(w: string, t: string)
    requires Space(w) && t != "" && t[0] > ' '
    ensures SkipSpace(w + t) == t
  {
    if w == "" {
      assert w + t == t;
    } else {
      assert (w + t)[1..] == w[1..] + t;
      SkipsSpace(w[1..], t);
    }
  }

  lemma StringStart(t: string, s: string)
    requires SpellsString(t, s)
    ensures t != "" && t[0] == '\"'
  {
    var ps, tail :| StringSpelled(t, s, ps, tail);
  }

  /** The first character of a value tells its kind, and is no blank. */
  lemma ValueStart(strtod: Strtod, x: Syntax, rest: string, depth: nat)
    requires Legal(strtod, x, rest, depth)
    ensures var t := Spelled(x); t != "" && t[0] > ' ' && t[0] != ']' && t[0] != '}'
  {
    hide SpellsString, NumberRun;
    if x.Quoted? { StringStart(x.text, x.s); }
  }

  // ---------------------------------------------------------------- what is spelled is read

  lemma {:induction false} ReadsValue(strtod: Strtod, x: Syntax, rest: string, depth: nat)
    requires Legal(strtod, x, rest, depth)
    ensures ParseValue(strtod, Spelled(x) + rest, depth) == Some((Value(x), rest))
    decreases x, 1
  {
    hide ParseString, ParseNumber, ParseElements, ParseMembers, SpellsString, ElementsSpelled, FieldsSpelled, LegalElements, LegalFields, NumberRun;
    match x
    case Word(v) => ReadsWord(strtod, v, rest, depth);
    case Numeral(digits, n) => ReadsNumeral(strtod, digits, n, rest, depth);
    case Quoted(t, s) => ReadsQuoted(strtod, t, s, rest, depth);
    case List(space, es) =>
      if es == [] { ReadsEmptyList(strtod, space, rest, depth); } else { ReadsList(strtod, es, rest, depth, x); }
    case Record(space, fs) =>
      if fs == [] { ReadsEmptyRecord(strtod, space, rest, depth); } else { ReadsRecord(strtod, fs, rest, depth, x); }
  }

  lemma NoWordHere(p: string)
    requires p != "" && p[0] != 'n' && p[0] != 'f' && p[0] != 't'
    ensures !StartsWith(p, "null") && !StartsWith(p, "false") && !StartsWith(p, "true")
  {
    if |p| >= 4 { assert p[..4][0] == p[0]; }
    if |p| >= 5 { assert p[..5][0] == p[0]; }
  }

  lemma ReadsWord(strtod: Strtod, v: Json, rest: string, depth: nat)
    requires v == Null || v == False || v == True
    ensures ParseValue(strtod, Spelled(Word(v)) + rest, depth) == Some((v, rest))
  {
    var word := Spelled(Word(v));
    var p := word + rest;
    assert p[..|word|] == word && p[|word|..] == rest;
    assert p[0] == word[0];
    if StartsWith(p, "null") { assert p[..4][0] == 'n'; }
    if StartsWith(p, "false") { assert p[..5][0] == 'f'; }
  }

  lemma ReadsNumeral(strtod: Strtod, digits: string, n: int, rest: string, depth: nat)
    requires Legal(strtod, Numeral(digits, n), rest, depth)
    ensures ParseValue(strtod, digits + rest, depth) == Some((Number(n), rest))
  {
    hide NumberRun;
    var p := digits + rest;
    assert p[0] == digits[0] && p[|digits|..] == rest;
    NoWordHere(p);
  }

  lemma ReadsQuoted(strtod: Strtod, t: string, s: string, rest: string, depth: nat)
    requires SpellsString(t, s)
    ensures ParseValue(strtod, t + rest, depth) == Some((String(s), rest))
  {
    hide SpellsString, ParseString;
    StringStart(t, s);
    StringReads(t, s, rest);
    assert (t + rest)[0] == t[0];
    NoWordHere(t + rest);
  }

  lemma ReadsEmptyList(strtod: Strtod, space: string, rest: string, depth: nat)
    requires Space(space) && depth < NESTING_LIMIT
    ensures ParseValue(strtod, "[" + (space + "]") + rest, depth) == Some((Array([]), rest))
  {
    hide ParseElements, SkipSpace;
    var p := "[" + (space + "]") + rest;
    assert p[1..] == space + ("]" + rest);
    SkipsSpace(space, "]" + rest);
    assert ("]" + rest)[1..] == rest;
    NoWordHere(p);
  }

  lemma ReadsEmptyRecord(strtod: Strtod, space: string, rest: string, depth: nat)
    requires Space(space) && depth < NESTING_LIMIT
    ensures ParseValue(strtod, "{" + (space + "}") + rest, depth) == Some((Object([]), rest))
  {
    hide ParseMembers, SkipSpace;
    var p := "{" + (space + "}") + rest;
    assert p[1..] == space + ("}" + rest);
    SkipsSpace(space, "}" + rest);
    assert ("}" + rest)[1..] == rest;
    NoWordHere(p);
  }

  /** Behind the opening bracket the blanks are skipped once more by the loop. */
  lemma {:induction false} ReadsList(strtod: Strtod, es: seq<Element>, rest: string, depth: nat, whole: Syntax)
    requires es != [] && depth < NESTING_LIMIT && LegalElements(strtod, es, rest, depth + 1) && whole.List? && whole.elements == es
    ensures ParseValue(strtod, "[" + ElementsSpelled(es) + rest, depth) == Some((Array(ElementValues(es)), rest))
    decreases whole, 0
  {
    hide ParseElements, SkipSpace, ElementsSpelled, LegalElements, ElementValues;
    var p, body := "[" + ElementsSpelled(es) + rest, ElementsSpelled(es) + rest;
    assert p[1..] == body;
    ReadsElements(strtod, es, rest, depth + 1);
    ElementsStart(strtod, es, rest, depth + 1);
    NoWordHere(p);
  }

  /** Where skipping the first blanks ends, and that it changes nothing for the loop. */
  lemma ElementsStart(strtod: Strtod, es: seq<Element>, rest: string, depth: nat)
    requires es != [] && LegalElements(strtod, es, rest, depth)
    ensures var q := SkipSpace(ElementsSpelled(es) + rest);
            q != "" && q[0] != ']' && ParseElements(strtod, q, depth) == ParseElements(strtod, ElementsSpelled(es) + rest, depth)
  {
    hide SkipSpace, ParseValue, Spelled, ElementsSpelled, Legal;
    var t := Spelled(es[0].value) + (es[0].after + ((if |es| == 1 then "]" else "," + ElementsSpelled(es[1..])) + rest));
    ElementsAre(es, rest);
    ValueStart(strtod, es[0].value, es[0].after + ((if |es| == 1 then "]" else "," + ElementsSpelled(es[1..])) + rest), depth);
    assert t[0] == Spelled(es[0].value)[0];
    SkipsSpace(es[0].before, t);
    SkipsSpace("", t);
    assert "" + t == t;
    LoopSkips(strtod, es[0].before + t, t, depth);
  }

  lemma LoopSkips(strtod: Strtod, p: string, q: string, depth: nat)
    requires SkipSpace(p) == q == SkipSpace(q)
    ensures ParseElements(strtod, p, depth) == ParseElements(strtod, q, depth)
    ensures ParseMembers(strtod, p, depth) == ParseMembers(strtod, q, depth)
  {
    hide SkipSpace, ParseValue, ParseString;
  }

  lemma ElementsAre(es: seq<Element>, rest: string)
    requires es != []
    ensures ElementsSpelled(es) + rest ==
              es[0].before + (Spelled(es[0].value) + (es[0].after + ((if |es| == 1 then "]" else "," + ElementsSpelled(es[1..])) + rest)))
  {
    hide Spelled;
  }

  lemma {:induction false} ReadsElements(strtod: Strtod, es: seq<Element>, rest: string, depth: nat)
    requires es != [] && LegalElements(strtod, es, rest, depth)
    ensures ParseElements(strtod, ElementsSpelled(es) + rest, depth) == Some((ElementValues(es), rest))
    decreases es, 0
  {
    hide SkipSpace, ParseValue, Spelled, ElementsSpelled, Legal, Value;
    var close := if |es| == 1 then "]" else "," + ElementsSpelled(es[1..]);
    var behind := es[0].after + (close + rest);
    ElementsAre(es, rest);
    ValueStart(strtod, es[0].value, behind, depth);
    var t := Spelled(es[0].value) + behind;
    assert t[0] == Spelled(es[0].value)[0];
    SkipsSpace(es[0].before, t);
    ReadsValue(strtod, es[0].value, behind, depth);
    assert (close + rest)[0] == close[0];
    SkipsSpace(es[0].after, close + rest);
    if |es| == 1 {
      assert (close + rest)[1..] == rest;
      assert ElementValues(es) == [Value(es[0].value)];
    } else {
      assert (close + rest)[1..] == ElementsSpelled(es[1..]) + rest;
      ReadsElements(strtod, es[1..], rest, depth);
    }
  }

  lemma {:induction false} ReadsRecord(strtod: Strtod, fs: seq<Field>, rest: string, depth: nat, whole: Syntax)
    requires fs != [] && depth < NESTING_LIMIT && LegalFields(strtod, fs, rest, depth + 1) && whole.Record? && whole.fields == fs
    ensures ParseValue(strtod, "{" + FieldsSpelled(fs) + rest, depth) == Some((Object(FieldValues(fs)), rest))
    decreases whole, 0
  {
    hide ParseMembers, SkipSpace, FieldsSpelled, LegalFields, FieldValues;
    var p, body := "{" + FieldsSpelled(fs) + rest, FieldsSpelled(fs) + rest;
    assert p[1..] == body;
    ReadsFields(strtod, fs, rest, depth + 1);
    FieldsStart(strtod, fs, rest, depth + 1);
    NoWordHere(p);
  }

  lemma FieldsStart(strtod: Strtod, fs: seq<Field>, rest: string, depth: nat)
    requires fs != [] && LegalFields(strtod, fs, rest, depth)
    ensures var q := SkipSpace(FieldsSpelled(fs) + rest);
            q != "" && q[0] != '}' && ParseMembers(strtod, q, depth) == ParseMembers(strtod, FieldsSpelled(fs) + rest, depth)
  {
    hide SkipSpace, ParseValue, ParseString, Spelled, FieldsSpelled, Legal, SpellsString;
    FieldsAre(fs, rest);
    var f := fs[0];
    var t := f.text + (f.colon + (":" + (f.space + (Spelled(f.value) + (f.after + (FieldsClose(fs) + rest))))));
    StringStart(f.text, f.key);
    assert t[0] == f.text[0];
    SkipsSpace(f.before, t);
    SkipsSpace("", t);
    assert "" + t == t;
    LoopSkips(strtod, f.before + t, t, depth);
  }

  function FieldsClose(fs: seq<Field>): string
    requires fs != []
  {
    if |fs| == 1 then "}" else "," + FieldsSpelled(fs[1..])
  }

  lemma FieldsAre(fs: seq<Field>, rest: string)
    requires fs != []
    ensures var f := fs[0];
            FieldsSpelled(fs) + rest ==
              f.before + (f.text + (f.colon + (":" + (f.space + (Spelled(f.value) + (f.after + (FieldsClose(fs) + rest)))))))
  {
    hide Spelled;
  }

  lemma {:induction false} ReadsFields(strtod: Strtod, fs: seq<Field>, rest: string, depth: nat)
    requires fs != [] && LegalFields(strtod, fs, rest, depth)
    ensures ParseMembers(strtod, FieldsSpelled(fs) + rest, depth) == Some((FieldValues(fs), rest))
    decreases fs, 0
  {
    hide SkipSpace, ParseMember, Spelled, FieldsSpelled, Legal, Value, SpellsString;
    var close := FieldsClose(fs);
    FieldsAre(fs, rest);
    ReadsField(strtod, fs[0], close + rest, depth);
    assert (close + rest)[0] == close[0];
    SkipsSpace(fs[0].after, close + rest);
    if |fs| == 1 {
      assert (close + rest)[1..] == rest;
      assert FieldValues(fs) == [Member(fs[0].key, Value(fs[0].value))];
    } else {
      assert (close + rest)[1..] == FieldsSpelled(fs[1..]) + rest;
      ReadsFields(strtod, fs[1..], rest, depth);
    }
  }

  lemma {:induction false} ReadsField(strtod: Strtod, f: Field, more: string, depth: nat)
    requires Space(f.before) && Space(f.colon) && Space(f.space) && SpellsString(f.text, f.key)
    requires Legal(strtod, f.value, f.after + more, depth)
    ensures ParseMember(strtod, f.before + (f.text + (f.colon + (":" + (f.space + (Spelled(f.value) + (f.after + more)))))), depth)
            == Some((Member(f.key, Value(f.value)), f.after + more))
    decreases f, 0
  {
    hide SkipSpace, ParseValue, ParseString, Spelled, Legal, SpellsString;
    var behind := f.after + more;
    var v := Spelled(f.value) + behind;
    var c := ":" + (f.space + v);
    StringStart(f.text, f.key);
    assert (f.text + (f.colon + c))[0] == f.text[0];
    SkipsSpace(f.before, f.text + (f.colon + c));
    StringReads(f.text, f.key, f.colon + c);
    SkipsSpace(f.colon, c);
    assert c[1..] == f.space + v;
    ValueStart(strtod, f.value, behind, depth);
    assert v[0] == Spelled(f.value)[0];
    SkipsSpace(f.space, v);
    ReadsValue(strtod, f.value, behind, depth);
  }

  // ---------------------------------------------------------------- what is read was spelled

  /** The blanks that are skipped. */
  lemma {:induction false} Skipped(p: string) returns (w: string)
    ensures p == w + SkipSpace(p) && Space(w) && SkipSpace(SkipSpace(p)) == SkipSpace(p)
  {
    if |p| <= 1 || p[0] > ' ' {
      w := "";
      assert "" + p == p;
    } else {
      var v := Skipped(p[1..]);
      w := [p[0]] + v;
      assert p == [p[0]] + p[1..];
      assert [p[0]] + (v + SkipSpace(p[1..])) == w + SkipSpace(p);
    }
  }

  lemma {:induction false} ValueRead(strtod: Strtod, p: string, j: Json, rest: string, depth: nat) returns (x: Syntax)
    requires ParseValue(strtod, p, depth) == Some((j, rest))
    ensures p == Spelled(x) + rest && Legal(strtod, x, rest, depth) && Value(x) == j
    decreases |p|, 1
  {
    hide ParseValue, Spelled, Legal, Value;
    KindRead(strtod, p, depth);
    if StartsWith(p, "null") || StartsWith(p, "false") || StartsWith(p, "true") {
      x := WordRead(strtod, p, j, rest, depth);
    } else if p[0] == '\"' {
      x := QuotedRead(strtod, p, j, rest, depth);
    } else if p[0] == '[' {
      x := ListRead(strtod, p, j, rest, depth);
    } else if p[0] == '{' {
      x := RecordRead(strtod, p, j, rest, depth);
    } else {
      x := NumeralRead(strtod, p, j, rest, depth);
    }
  }

  lemma KindRead(strtod: Strtod, p: string, depth: nat)
    requires ParseValue(strtod, p, depth).Some?
    ensures StartsWith(p, "null") || StartsWith(p, "false") || StartsWith(p, "true")
            || (p != "" && (p[0] == '\"' || p[0] == '[' || p[0] == '{' || p[0] == '-' || '0' <= p[0] <= '9'))
  {
    hide ParseString, ParseNumber, ParseElements, ParseMembers, SkipSpace;
  }

  lemma WordRead(strtod: Strtod, p: string, j: Json, rest: string, depth: nat) returns (x: Syntax)
    requires ParseValue(strtod, p, depth) == Some((j, rest))
    requires StartsWith(p, "null") || StartsWith(p, "false") || StartsWith(p, "true")
    ensures p == Spelled(x) + rest && Legal(strtod, x, rest, depth) && Value(x) == j
  {
    hide ParseString, ParseNumber, ParseElements, ParseMembers, SkipSpace;
    x := Word(j);
    assert p == p[..4] + p[4..];
    if !StartsWith(p, "null") && StartsWith(p, "false") { assert p == p[..5] + p[5..]; }
  }

  lemma QuotedRead(strtod: Strtod, p: string, j: Json, rest: string, depth: nat) returns (x: Syntax)
    requires ParseValue(strtod, p, depth) == Some((j, rest)) && p != "" && p[0] == '\"'
    ensures p == Spelled(x) + rest && Legal(strtod, x, rest, depth) && Value(x) == j
  {
    hide ParseString, SpellsString;
    NoWordHere(p);
    var t := StringRead(p, ParseString(p).value.0, rest);
    x := Quoted(t, ParseString(p).value.0);
  }

  lemma NumeralRead(strtod: Strtod, p: string, j: Json, rest: string, depth: nat) returns (x: Syntax)
    requires ParseValue(strtod, p, depth) == Some((j, rest)) && p != "" && (p[0] == '-' || '0' <= p[0] <= '9')
    ensures p == Spelled(x) + rest && Legal(strtod, x, rest, depth) && Value(x) == j
  {
    hide NumberRun;
    NoWordHere(p);
    var (n, used) := strtod(NumberRun(p, 63));
    x := Numeral(p[..used], n);
    assert p == p[..used] + rest;
  }

  lemma {:induction false} ListRead(strtod: Strtod, p: string, j: Json, rest: string, depth: nat) returns (x: Syntax)
    requires ParseValue(strtod, p, depth) == Some((j, rest)) && p != "" && p[0] == '['
    ensures p == Spelled(x) + rest && Legal(strtod, x, rest, depth) && Value(x) == j
    decreases |p|, 0
  {
    hide ParseElements, ParseMembers, ParseString, SkipSpace, ElementsSpelled, LegalElements, Space;
    NoWordHere(p);
    var w := Skipped(p[1..]);
    var q := SkipSpace(p[1..]);
    assert p == "[" + p[1..];
    if q[0] == ']' {
      x := List(w, []);
      assert q == "]" + rest;
      assert p == "[" + (w + "]") + rest;
    } else {
      LoopSkips(strtod, p[1..], q, depth + 1);
      var es := ElementsRead(strtod, p[1..], ParseElements(strtod, q, depth + 1).value.0, rest, depth + 1);
      x := List("", es);
      assert p == "[" + ElementsSpelled(es) + rest;
    }
  }

  lemma {:induction false} RecordRead(strtod: Strtod, p: string, j: Json, rest: string, depth: nat) returns (x: Syntax)
    requires ParseValue(strtod, p, depth) == Some((j, rest)) && p != "" && p[0] == '{'
    ensures p == Spelled(x) + rest && Legal(strtod, x, rest, depth) && Value(x) == j
    decreases |p|, 0
  {
    hide ParseElements, ParseMembers, ParseString, SkipSpace, FieldsSpelled, LegalFields, Space;
    NoWordHere(p);
    var w := Skipped(p[1..]);
    var q := SkipSpace(p[1..]);
    assert p == "{" + p[1..];
    if q[0] == '}' {
      x := Record(w, []);
      assert q == "}" + rest;
      assert p == "{" + (w + "}") + rest;
    } else {
      LoopSkips(strtod, p[1..], q, depth + 1);
      var fs := FieldsRead(strtod, p[1..], ParseMembers(strtod, q, depth + 1).value.0, rest, depth + 1);
      x := Record("", fs);
      assert p == "{" + FieldsSpelled(fs) + rest;
    }
  }

  /** One round of the loop of parse_array. */
  lemma ElementsStep(strtod: Strtod, p: string, js: seq<Json>, rest: string, depth: nat)
    requires ParseElements(strtod, p, depth) == Some((js, rest))
    ensures js != []
    ensures var v := ParseValue(strtod, SkipSpace(p), depth);
            && v.Some? && v.value.0 == js[0]
            && var q := SkipSpace(v.value.1);
            && q != "" && (q[0] == ',' || (q[0] == ']' && js == [js[0]] && rest == q[1..]))
            && (q[0] == ',' ==> ParseElements(strtod, q[1..], depth) == Some((js[1..], rest)))
  {
    hide SkipSpace, ParseValue;
  }

  lemma {:induction false} ElementsRead(strtod: Strtod, p: string, js: seq<Json>, rest: string, depth: nat) returns (es: seq<Element>)
    requires ParseElements(strtod, p, depth) == Some((js, rest))
    ensures es != [] && p == ElementsSpelled(es) + rest && LegalElements(strtod, es, rest, depth) && ElementValues(es) == js
    decreases |p|, 2
  {
    hide SkipSpace, ParseValue, ParseElements, Spelled, Legal, Value, Space;
    ElementsStep(strtod, p, js, rest, depth);
    var w := Skipped(p);
    var t := SkipSpace(p);
    var v := ParseValue(strtod, t, depth).value;
    var x := ValueRead(strtod, t, v.0, v.1, depth);
    var after := Skipped(v.1);
    var q := SkipSpace(v.1);
    if q[0] == ',' {
      var more := ElementsRead(strtod, q[1..], js[1..], rest, depth);
      es := [Element(w, x, after)] + more;
      assert es[1..] == more;
      assert q == "," + q[1..];
      assert v.1 == after + (("," + ElementsSpelled(more)) + rest);
      ElementsAre(es, rest);
    } else {
      es := [Element(w, x, after)];
      assert q == "]" + rest;
      ElementsAre(es, rest);
      assert ElementValues(es) == [v.0];
    }
  }

  lemma FieldsStep(strtod: Strtod, p: string, ms: seq<Member>, rest: string, depth: nat)
    requires ParseMembers(strtod, p, depth) == Some((ms, rest))
    ensures ms != []
    ensures var m := ParseMember(strtod, p, depth);
            && m.Some? && m.value.0 == ms[0]
            && var q := SkipSpace(m.value.1);
            && q != "" && (q[0] == ',' || (q[0] == '}' && ms == [ms[0]] && rest == q[1..]))
            && (q[0] == ',' ==> ParseMembers(strtod, q[1..], depth) == Some((ms[1..], rest)))
  {
    hide SkipSpace, ParseMember;
  }

  lemma {:induction false} FieldsRead(strtod: Strtod, p: string, ms: seq<Member>, rest: string, depth: nat) returns (fs: seq<Field>)
    requires ParseMembers(strtod, p, depth) == Some((ms, rest))
    ensures fs != [] && p == FieldsSpelled(fs) + rest && LegalFields(strtod, fs, rest, depth) && FieldValues(fs) == ms
    decreases |p|, 3
  {
    hide SkipSpace, ParseMember, ParseMembers, Spelled, Legal, Value, Space, SpellsString;
    FieldsStep(strtod, p, ms, rest, depth);
    var m := ParseMember(strtod, p, depth).value;
    var f := FieldRead(strtod, p, m.0, m.1, depth);
    var after := Skipped(m.1);
    var q := SkipSpace(m.1);
    f := f.(after := after);
    if q[0] == ',' {
      var more := FieldsRead(strtod, q[1..], ms[1..], rest, depth);
      fs := [f] + more;
      assert fs[1..] == more;
      assert q == "," + q[1..];
      assert m.1 == after + (("," + FieldsSpelled(more)) + rest);
      FieldsAre(fs, rest);
    } else {
      fs := [f];
      assert q == "}" + rest;
      FieldsAre(fs, rest);
      assert FieldValues(fs) == [Member(f.key, Value(f.value))];
    }
  }

  lemma {:induction false} FieldRead(strtod: Strtod, p: string, m: Member, behind: string, depth: nat) returns (f: Field)
    requires ParseMember(strtod, p, depth) == Some((m, behind))
    ensures Space(f.before) && Space(f.colon) && Space(f.space) && SpellsString(f.text, f.key)
    ensures Legal(strtod, f.value, behind, depth) && m == Member(f.key, Value(f.value))
    ensures p == f.before + (f.text + (f.colon + (":" + (f.space + (Spelled(f.value) + behind)))))
    decreases |p|, 2
  {
    hide SkipSpace, ParseValue, ParseString, Spelled, Legal, Value, Space, SpellsString;
    var w := Skipped(p);
    var t := SkipSpace(p);
    var k := ParseString(t).value;
    var text := StringRead(t, k.0, k.1);
    var colon := Skipped(k.1);
    var q := SkipSpace(k.1);
    var space := Skipped(q[1..]);
    var x := ValueRead(strtod, SkipSpace(q[1..]), m.value, behind, depth);
    f := Field(w, text, k.0, colon, space, x, "");
    assert q == ":" + q[1..];
  }

  // ---------------------------------------------------------------- exactly the legal texts

  /** parse_value accepts exactly the texts that are spelled as above, to the values they
      spell, and stops right behind them. */
  lemma ValueExact(strtod: Strtod, p: string, j: Json, rest: string, depth: nat)
    ensures ParseValue(strtod, p, depth) == Some((j, rest)) <==>
              exists x :: p == Spelled(x) + rest && Legal(strtod, x, rest, depth) && Value(x) == j
  {
    hide ParseValue, Spelled, Legal, Value;
    forall x | p == Spelled(x) + rest && Legal(strtod, x, rest, depth) && Value(x) == j
      ensures ParseValue(strtod, p, depth) == Some((j, rest))
    {
      ReadsValue(strtod, x, rest, depth);
    }
    if ParseValue(strtod, p, depth) == Some((j, rest)) {
      var x := ValueRead(strtod, p, j, rest, depth);
    }
  }

  /** A byte order mark is passed over if anything at all follows it. */
  function Unmarked(value: string): string
  {
    if |value| >= 4 && value[..3] == [0xEF as char, 0xBB as char, 0xBF as char] then value[3..] else value
  }

  /** The text is blanks, the spelling of a value, and whatever follows; where the end is asked
      for, only blanks may follow. */
  ghost predicate TextSpelled(strtod: Strtod, t: string, w: string, x: Syntax, rest: string, requireEnd: bool)
  {
    t == w + (Spelled(x) + rest) && Space(w) && Legal(strtod, x, rest + "\0", 0) && (requireEnd ==> Space(rest))
  }

  lemma MarkSkipped(value: string)
    ensures SkipBom(value + "\0") == Unmarked(value) + "\0"
  {
    var p := value + "\0";
    if |value| >= 4 {
      assert p[0] == value[0] && p[1] == value[1] && p[2] == value[2] && p[3..] == value[3..] + "\0";
      assert value[..3] == [value[0], value[1], value[2]];
    }
  }

  lemma {:induction false} SkipToEnd(rest: string)
    requires Space(rest)
    ensures SkipSpace(rest + "\0") == "\0"
  {
    if rest == "" {
      assert rest + "\0" == "\0";
    } else {
      assert (rest + "\0")[1..] == rest[1..] + "\0";
      SkipToEnd(rest[1..]);
    }
  }

  lemma {:induction false} ElementsEnd(es: seq<Element>)
    requires es != []
    ensures var t := ElementsSpelled(es); t != "" && t[|t|-1] == ']'
    decreases |es|
  {
    hide Spelled;
    if |es| > 1 { ElementsEnd(es[1..]); }
  }

  lemma {:induction false} FieldsEnd(fs: seq<Field>)
    requires fs != []
    ensures var t := FieldsSpelled(fs); t != "" && t[|t|-1] == '}'
    decreases |fs|
  {
    hide Spelled;
    if |fs| > 1 { FieldsEnd(fs[1..]); }
  }

  lemma {:induction false} RunIsNumeral(p: string, max: nat)
    ensures NumberRun(p, max) <= p && forall i :: 0 <= i < |NumberRun(p, max)| ==> NumberChar(NumberRun(p, max)[i])
  {
    if p != "" && max > 0 && NumberChar(p[0]) {
      RunIsNumeral(p[1..], max - 1);
      assert p == [p[0]] + p[1..];
    }
  }

  lemma StringEnds(t: string, s: string)
    requires SpellsString(t, s)
    ensures t != "" && t[|t|-1] == '\"'
  {
    var ps, tail :| StringSpelled(t, s, ps, tail);
  }

  /** A value ends in a character of its own, not in a blank. */
  lemma ValueEnds(strtod: Strtod, x: Syntax, rest: string, depth: nat)
    requires Legal(strtod, x, rest, depth)
    ensures var t := Spelled(x); t != "" && t[|t|-1] > ' '
  {
    hide SpellsString, NumberRun, ElementsSpelled, FieldsSpelled, LegalElements, LegalFields;
    match x
    case Word(v) =>
    case Numeral(digits, n) =>
      RunIsNumeral(digits + rest, 63);
      assert digits[|digits|-1] == (digits + rest)[|digits|-1] == NumberRun(digits + rest, 63)[|digits|-1];
    case Quoted(t, s) => StringEnds(t, s);
    case List(space, es) => if es != [] { ElementsEnd(es); }
    case Record(space, fs) => if fs != [] { FieldsEnd(fs); }
  }

  lemma ParseIs(strtod: Strtod, value: string, requireEnd: bool)
    ensures var r := ParseValue(strtod, SkipSpace(Unmarked(value) + "\0"), 0);
            Parse(strtod, value, requireEnd) ==
              if r.None? then None
              else if requireEnd && (SkipSpace(r.value.1) == "" || SkipSpace(r.value.1)[0] != '\0') then None
              else Some(r.value.0)
  {
    hide ParseValue, SkipSpace, SkipBom, Unmarked;
    MarkSkipped(value);
  }

  lemma TextReads(strtod: Strtod, value: string, w: string, x: Syntax, rest: string, requireEnd: bool)
    requires TextSpelled(strtod, Unmarked(value), w, x, rest, requireEnd)
    ensures Parse(strtod, value, requireEnd) == Some(Value(x))
  {
    hide Parse, ParseValue, SkipSpace, Spelled, Legal, Unmarked, Space;
    var t := Spelled(x) + (rest + "\0");
    ParseIs(strtod, value, requireEnd);
    ValueStart(strtod, x, rest + "\0", 0);
    assert t[0] == Spelled(x)[0];
    assert Unmarked(value) + "\0" == w + t;
    SkipsSpace(w, t);
    ReadsValue(strtod, x, rest + "\0", 0);
    if requireEnd { SkipToEnd(rest); }
  }

  lemma TextRead(strtod: Strtod, value: string, requireEnd: bool) returns (w: string, x: Syntax, rest: string)
    requires NulFree(value) && Parse(strtod, value, requireEnd).Some?
    ensures TextSpelled(strtod, Unmarked(value), w, x, rest, requireEnd) && Parse(strtod, value, requireEnd) == Some(Value(x))
  {
    hide Parse, ParseValue, SkipSpace, Spelled, Legal, Unmarked, Space, Value;
    var t := Unmarked(value);
    ParseIs(strtod, value, requireEnd);
    w := Skipped(t + "\0");
    var p := SkipSpace(t + "\0");
    var r := ParseValue(strtod, p, 0).value;
    x := ValueRead(strtod, p, r.0, r.1, 0);
    ValueEnds(strtod, x, r.1, 0);
    var u := w + Spelled(x);
    assert t + "\0" == u + r.1;
    rest := BeforeNul(t, u, r.1);
    assert t == w + (Spelled(x) + rest);
    if requireEnd {
      UnmarkedNulFree(value);
      var v := Skipped(r.1);
      OnlyBlanks(u, rest, v, SkipSpace(r.1));
    }
  }

  /** The final NUL is behind the value. */
  lemma BeforeNul(t: string, u: string, r: string) returns (rest: string)
    requires t + "\0" == u + r && u != "" && u[|u|-1] > ' '
    ensures r == rest + "\0" && t == u + rest
  {
    var all := u + r;
    assert all[|all|-1] == '\0';
    assert r == "" ==> all == u;
    rest := r[..|r|-1];
    assert r[|r|-1] == all[|all|-1];
    assert all[..|all|-1] == u + rest && all[..|all|-1] == t;
  }

  lemma UnmarkedNulFree(value: string)
    requires NulFree(value)
    ensures NulFree(Unmarked(value))
  {
  }

  lemma OnlyBlanks(u: string, rest: string, v: string, q: string)
    requires NulFree(u + rest) && rest + "\0" == v + q && Space(v) && q != "" && q[0] == '\0'
    ensures Space(rest)
  {
    var t := rest + "\0";
    forall i | 0 <= i < |rest| ensures t[i] != '\0' { assert (u + rest)[|u| + i] == rest[i] == t[i]; }
    assert (v + q)[|v|] == '\0' && t == v + q;
    forall i | 0 <= i < |rest| ensures rest[i] <= ' ' { assert rest[i] == (rest + "\0")[i] == (v + q)[i]; }
  }

  /** cJSON_ParseWithOpts accepts exactly the texts that are spelled so, to what they spell. */
  lemma ParseExact(strtod: Strtod, value: string, requireEnd: bool, j: Json)
    requires NulFree(value)
    ensures Parse(strtod, value, requireEnd) == Some(j) <==>
              exists w, x, rest :: TextSpelled(strtod, Unmarked(value), w, x, rest, requireEnd) && Value(x) == j
  {
    hide Parse, TextSpelled, Value, Unmarked;
    forall w, x, rest | TextSpelled(strtod, Unmarked(value), w, x, rest, requireEnd) && Value(x) == j
      ensures Parse(strtod, value, requireEnd) == Some(j)
    {
      TextReads(strtod, value, w, x, rest, requireEnd);
    }
    if Parse(strtod, value, requireEnd) == Some(j) {
      var w, x, rest := TextRead(strtod, value, requireEnd);
    }
  }

  // ---------------------------------------------------------------- what is refused

  /** Between elements there has to be a comma, and behind the last one the bracket. */
  lemma CommaMissing(strtod: Strtod, w: string, x: Syntax, after: string, c: char, more: string, depth: nat)
    requires Space(w) && Space(after) && c > ' ' && c != ',' && c != ']' && Legal(strtod, x, after + ([c] + more), depth + 1)
    ensures ParseValue(strtod, "[" + (w + (Spelled(x) + (after + ([c] + more)))), depth).None?
  {
    hide ParseElements, ParseMembers, SkipSpace, Spelled, Legal, Space;
    var behind := after + ([c] + more);
    var t := Spelled(x) + behind;
    var p := "[" + (w + t);
    ValueStart(strtod, x, behind, depth + 1);
    assert t[0] == Spelled(x)[0] && p[1..] == w + t;
    SkipsSpace(w, t);
    SkipsSpace("", t);
    assert "" + t == t;
    SkipsSpace(after, [c] + more);
    NoWordHere(p);
    ElementBad(strtod, t, x, behind, [c] + more, depth + 1);
  }

  lemma ElementBad(strtod: Strtod, t: string, x: Syntax, behind: string, q: string, depth: nat)
    requires SkipSpace(t) == t == Spelled(x) + behind && Legal(strtod, x, behind, depth)
    requires SkipSpace(behind) == q && q != "" && q[0] != ',' && q[0] != ']'
    ensures ParseElements(strtod, t, depth).None?
  {
    hide ParseValue, SkipSpace, Spelled, Legal, Value;
    ReadsValue(strtod, x, behind, depth);
  }

  /** Behind a key there has to be a colon. */
  lemma ColonMissing(strtod: Strtod, w: string, text: string, key: string, after: string, c: char, more: string, depth: nat)
    requires Space(w) && SpellsString(text, key) && Space(after) && c > ' ' && c != ':'
    ensures ParseValue(strtod, "{" + (w + (text + (after + ([c] + more)))), depth).None?
  {
    hide ParseElements, ParseMembers, SkipSpace, Space, SpellsString;
    var t := text + (after + ([c] + more));
    var p := "{" + (w + t);
    StringStart(text, key);
    assert t[0] == text[0] && p[1..] == w + t;
    SkipsSpace(w, t);
    SkipsSpace("", t);
    assert "" + t == t;
    SkipsSpace(after, [c] + more);
    NoWordHere(p);
    KeyBad(strtod, t, text, key, after + ([c] + more), [c] + more, depth + 1);
  }

  lemma KeyBad(strtod: Strtod, t: string, text: string, key: string, behind: string, q: string, depth: nat)
    requires SkipSpace(t) == t == text + behind && SpellsString(text, key) && SkipSpace(behind) == q && q != "" && q[0] != ':'
    ensures ParseMembers(strtod, t, depth).None?
  {
    hide ParseString, ParseValue, SkipSpace, SpellsString;
    StringReads(text, key, behind);
  }

  /** Where the end is asked for, other text behind the value is refused; without that it is
      ignored. */
  lemma TrailingText(strtod: Strtod, value: string, w: string, x: Syntax, after: string, c: char, more: string)
    requires Space(w) && Space(after) && c > ' ' && Unmarked(value) == w + (Spelled(x) + (after + ([c] + more)))
    requires Legal(strtod, x, after + ([c] + more) + "\0", 0)
    ensures Parse(strtod, value, true).None? && Parse(strtod, value, false) == Some(Value(x))
  {
    hide Parse, ParseValue, SkipSpace, Spelled, Legal, Unmarked, Space, Value;
    var rest := after + ([c] + more);
    var t := Spelled(x) + (rest + "\0");
    ParseIs(strtod, value, true);
    ParseIs(strtod, value, false);
    ValueStart(strtod, x, rest + "\0", 0);
    assert t[0] == Spelled(x)[0];
    assert Unmarked(value) + "\0" == w + t;
    SkipsSpace(w, t);
    ReadsValue(strtod, x, rest + "\0", 0);
    assert rest + "\0" == after + ([c] + (more + "\0"));
    SkipsSpace(after, [c] + (more + "\0"));
  }
}
