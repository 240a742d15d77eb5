/** The layout of what cJSON prints. Unformatted text has no blanks; formatted text is the
    unformatted one, read from left to right and broken into lines. Of the ways to spell a
    character, the shortest is printed. */
module JsonLayout {
  import opened CString
  import opened JsonValue
  import opened JsonText
  import opened JsonUnicode
  import opened JsonGrammar

  // ---------------------------------------------------------------- characters

  /** The spellings of one character that RFC 8259 allows: control characters, the quote and
      the backslash do not stand for themselves. */
  predicate StandardFor(piece: Piece, c: char)
  {
    && LegalPiece(piece) && !piece.Bad? && PieceMeans(piece) == [c]
    && (piece == Plain(c) ==> c >= ' ' && c != '\"' && c != '\\')
  }

  /** Every character is printed in a spelling the standard allows, and in none that is longer
      than need be; hexadecimal digits are lower-case. */
  lemma EscapeShortest(c: char, other: Piece)
    ensures Decode(Escape(c)) == Some([c])
    ensures StandardFor(other, c) ==> |PieceText(other)| >= |Escape(c)|
    ensures Escape(c) == [c] <==> c >= ' ' && c != '\"' && c != '\\'
    ensures |Escape(c)| > 1 ==> Lower(Escape(c)) == Escape(c)
  {
    EscapeReads(c);
    if StandardFor(other, c) && other.Point? { LongSpelling(other.spelling, other.code); }
    hide Decode, Spells, Utf8;
  }

  lemma EscapeReads(c: char)
    ensures Decode(Escape(c)) == Some([c])
  {
    var piece := if c >= ' ' && c != '\"' && c != '\\' then Plain(c)
                 else if |Escape(c)| == 2 then Short(Escape(c)[1]) else Point(Escape(c), c as int);
    if piece.Point? { ControlSpelled(c); }
    hide Decode, Spells;
    assert PieceText(piece) == Escape(c) && PieceMeans(piece) == [c];
    DecodePiece(piece, "");
    NothingDecodes();
    assert PieceText(piece) + "" == Escape(c) && [c] + "" == [c];
  }

  lemma NothingDecodes()
    ensures Decode("") == Some("")
  {
  }

  lemma ControlSpelled(c: char)
    requires c < ' ' && |Escape(c)| == 6
    ensures LegalPiece(Point(Escape(c), c as int)) && Utf8(c as int) == [c]
  {
    var e, n := Escape(c), c as int;
    assert e[..2] == "\\u" && e[2..6] == ['0', '0', HexDigit(n / 16), HexDigit(n % 16)];
    assert Lower(e[2..6]) == Hex4Text(n);
  }

  lemma LongSpelling(t: string, code: nat)
    requires LegalPiece(Point(t, code))
    ensures |t| >= 6
  {
  }

  // ---------------------------------------------------------------- no blanks

  /** The value with its tokens put together as they are. */
  function Compact(j: Json): Syntax
    decreases j, 1
  {
    match j
    case Number(n) => Numeral(IntText(n), n)
    case String(s) => Quoted(StringText(s), s)
    case Array(items) => List("", CompactItems(items))
    case Object(ms) => Record("", CompactMembers(ms))
    case _ => Word(j)
  }

  function CompactItems(items: seq<Json>): (es: seq<Element>)
    ensures |es| == |items|
    decreases items, 0
  {
    if items == [] then [] else [Element("", Compact(items[0]), "")] + CompactItems(items[1..])
  }

  function CompactMembers(ms: seq<Member>): (fs: seq<Field>)
    ensures |fs| == |ms|
    decreases ms, 0
  {
    if ms == [] then []
    else [Field("", StringText(ms[0].key), ms[0].key, "", "", Compact(ms[0].value), "")] + CompactMembers(ms[1..])
  }

  /** Unformatted text spells the value with no blank between its tokens. */
  lemma {:induction false} CompactIs(j: Json, k: nat)
    requires Valid(j)
    ensures Spelled(Compact(j)) == Text(j, false, k) && Value(Compact(j)) == j
    decreases j, 1
  {
    hide StringText, IntText, ElementsSpelled, FieldsSpelled, ElementsText, MembersText, ElementValues, FieldValues, CompactItems, CompactMembers;
    match j
    case Array(items) =>
      CompactItemsAre(items, k + 1);
      if items == [] { NoItems(k + 1); }
    case Object(ms) =>
      CompactMembersAre(ms, k + 1);
      NoMembers(k + 1);
      NoLines(MembersText(ms, false, k + 1), k);
    case _ =>
  }

  lemma NoItems(k: nat)
    ensures ElementsText([], false, k) == "" && CompactItems([]) == [] && "" + "]" == "]"
  {
  }

  lemma NoMembers(k: nat)
    ensures MembersText([], false, k) == "" && CompactMembers([]) == [] && "" + "}" == "}"
  {
  }

  lemma NoLines(t: string, k: nat)
    ensures NewLine(false) + (t + (Indent(false, k) + "}")) == t + "}"
  {
    assert "" + (t + ("" + "}")) == t + "}";
  }

  lemma {:induction false} CompactItemsAre(items: seq<Json>, k: nat)
    requires forall i :: 0 <= i < |items| ==> Valid(items[i])
    ensures items != [] ==> ElementsSpelled(CompactItems(items)) == ElementsText(items, false, k) + "]"
    ensures ElementValues(CompactItems(items)) == items
    decreases items, 0
  {
    hide Spelled, Text, Value;
    if items != [] {
      var es := CompactItems(items);
      CompactIs(items[0], k);
      CompactItemsAre(items[1..], k);
      assert es[1..] == CompactItems(items[1..]);
      var t := Text(items[0], false, k);
      if |items| == 1 {
        assert "" + (t + ("" + "]")) == t + "]";
      } else {
        var rest := ElementsText(items[1..], false, k);
        assert "" + (t + ("" + ("," + (rest + "]")))) == (t + ("," + ("" + rest))) + "]";
      }
    }
  }

  lemma {:induction false} CompactMembersAre(ms: seq<Member>, k: nat)
    requires forall i :: 0 <= i < |ms| ==> Valid(ms[i].value)
    ensures ms != [] ==> FieldsSpelled(CompactMembers(ms)) == MembersText(ms, false, k) + "}"
    ensures FieldValues(CompactMembers(ms)) == ms
    decreases ms, 0
  {
    hide Spelled, Text, Value, StringText;
    if ms != [] {
      var fs := CompactMembers(ms);
      CompactIs(ms[0].value, k);
      CompactMembersAre(ms[1..], k);
      assert fs[1..] == CompactMembers(ms[1..]);
      var key, t := StringText(ms[0].key), Text(ms[0].value, false, k);
      if |ms| == 1 {
        assert MembersText(ms, false, k) == "" + (key + (":" + ("" + (t + ("" + ("" + ""))))));
        assert "" + (key + ("" + (":" + ("" + (t + ("" + "}")))))) == MembersText(ms, false, k) + "}";
      } else {
        var rest := MembersText(ms[1..], false, k);
        assert MembersText(ms, false, k) == "" + (key + (":" + ("" + (t + ("," + ("" + rest))))));
        assert "" + (key + ("" + (":" + ("" + (t + ("" + ("," + (rest + "}")))))))) == MembersText(ms, false, k) + "}";
      }
    }
  }

  // ---------------------------------------------------------------- lines

  /** Unformatted text broken into lines, character by character: behind an opening brace and
      behind a comma between members begins a new line, with a tab for every bracket that is
      open; a closing brace stands on a line of its own; a tab follows a colon, and a space a
      comma between elements. Strings are copied. `open` are the brackets open. */
  function Pretty(t: string, open: string, inString: bool): string
    decreases |t|
  {
    if t == "" then ""
    else
      var c, rest := t[0], t[1..];
      if inString then
        if c == '\\' && rest != "" then [c, rest[0]] + Pretty(rest[1..], open, true)
        else [c] + Pretty(rest, open, c != '\"')
      else if c == '\"' then [c] + Pretty(rest, open, true)
      else if c == '{' then
        if rest != "" && rest[0] == '}' then "{\n" + (Tabs(|open|) + ("}" + Pretty(rest[1..], open, false)))
        else "{\n" + (Tabs(|open| + 1) + Pretty(rest, open + "{", false))
      else if c == '}' && open != "" then
        "\n" + (Tabs(|open| - 1) + ("}" + Pretty(rest, open[..|open|-1], false)))
      else if c == '[' then "[" + Pretty(rest, open + "[", false)
      else if c == ']' && open != "" then "]" + Pretty(rest, open[..|open|-1], false)
      else if c == ',' && open != "" && open[|open|-1] == '{' then ",\n" + (Tabs(|open|) + Pretty(rest, open, false))
      else if c == ',' then ", " + Pretty(rest, open, false)
      else if c == ':' then ":\t" + Pretty(rest, open, false)
      else [c] + Pretty(rest, open, false)
  }

  /** Characters outside strings that are copied. */
  predicate Copied(s: string)
  {
    forall i :: 0 <= i < |s| ==> s[i] !in ['\"', '{', '}', '[', ']', ',', ':']
  }

  lemma {:induction false} PrettyCopies(s: string, rest: string, open: string)
    requires Copied(s)
    ensures Pretty(s + rest, open, false) == s + Pretty(rest, open, false)
  {
    if s == "" {
      assert s + rest == rest && "" + Pretty(rest, open, false) == Pretty(rest, open, false);
    } else {
      assert (s + rest)[0] == s[0] && (s + rest)[1..] == s[1..] + rest;
      PrettyCopies(s[1..], rest, open);
      assert [s[0]] + (s[1..] + Pretty(rest, open, false)) == s + Pretty(rest, open, false);
    }
  }

  lemma PrettyEscape(c: char, rest: string, open: string)
    ensures Pretty(Escape(c) + rest, open, true) == Escape(c) + Pretty(rest, open, true)
  {
    var e := Escape(c);
    var p := e + rest;
    if |e| == 1 {
      assert p[0] == c && p[1..] == rest;
    } else if |e| == 2 {
      assert p[0] == e[0] && p[1..][0] == e[1] && p[1..][1..] == rest;
    } else {
      assert p[0] == '\\' && p[1..][0] == 'u';
      var q := p[1..][1..];
      assert q == e[2..] + rest;
      FourCopied(e[2..], rest, open);
      assert ['\\', 'u'] + (e[2..] + Pretty(rest, open, true)) == e + Pretty(rest, open, true);
    }
  }

  lemma FourCopied(s: string, rest: string, open: string)
    requires forall i :: 0 <= i < |s| ==> s[i] != '\\' && s[i] != '\"'
    ensures Pretty(s + rest, open, true) == s + Pretty(rest, open, true)
  {
    if s == "" {
      assert s + rest == rest && "" + Pretty(rest, open, true) == Pretty(rest, open, true);
    } else {
      assert (s + rest)[0] == s[0] && (s + rest)[1..] == s[1..] + rest;
      FourCopied(s[1..], rest, open);
      assert [s[0]] + (s[1..] + Pretty(rest, open, true)) == s + Pretty(rest, open, true);
    }
  }

  lemma {:induction false} PrettyEscapes(s: string, rest: string, open: string)
    ensures Pretty(EscapeAll(s) + rest, open, true) == EscapeAll(s) + Pretty(rest, open, true)
  {
    hide Pretty, Escape;
    if s == "" {
      assert EscapeAll(s) + rest == rest;
      assert EscapeAll(s) + Pretty(rest, open, true) == Pretty(rest, open, true);
    } else {
      var e, es := Escape(s[0]), EscapeAll(s[1..]);
      assert EscapeAll(s) + rest == e + (es + rest);
      PrettyEscape(s[0], es + rest, open);
      PrettyEscapes(s[1..], rest, open);
      assert e + (es + Pretty(rest, open, true)) == EscapeAll(s) + Pretty(rest, open, true);
    }
  }

  lemma PrettyString(s: string, rest: string, open: string)
    ensures Pretty(StringText(s) + rest, open, false) == StringText(s) + Pretty(rest, open, false)
  {
    hide Escape;
    var e := EscapeAll(s);
    var p := StringText(s) + rest;
    assert p[0] == '\"' && p[1..] == e + ("\"" + rest);
    PrettyEscapes(s, "\"" + rest, open);
    var q := "\"" + rest;
    assert q[0] == '\"' && q[1..] == rest;
    assert Pretty(q, open, true) == ['\"'] + Pretty(rest, open, false);
    assert ['\"'] + (e + (['\"'] + Pretty(rest, open, false))) == StringText(s) + Pretty(rest, open, false);
  }

  lemma {:induction false} PrettyValue(j: Json, k: nat, rest: string, open: string)
    requires Valid(j)
    ensures Pretty(Text(j, false, k) + rest, open, false) == Text(j, true, |open|) + Pretty(rest, open, false)
    decreases j, 1
  {
    hide Pretty, StringText, IntText, ElementsText, MembersText;
    match j
    case Number(n) => NumberCopied(n); PrettyCopies(IntText(n), rest, open);
    case String(s) => PrettyString(s, rest, open);
    case Array(items) => PrettyArray(items, k, rest, open, j);
    case Object(ms) => if ms == [] { PrettyEmpty(k, rest, open); } else { PrettyObject(ms, k, rest, open, j); }
    case _ => PrettyCopies(Text(j, false, k), rest, open);
  }

  lemma NumberCopied(n: int)
    ensures Copied(IntText(n))
  {
  }

  /** Opening and closing an array. */
  lemma {:induction false} PrettyArray(items: seq<Json>, k: nat, rest: string, open: string, whole: Json)
    requires Valid(whole) && whole == Array(items)
    ensures Pretty("[" + (ElementsText(items, false, k + 1) + "]") + rest, open, false) ==
              "[" + (ElementsText(items, true, |open| + 1) + "]") + Pretty(rest, open, false)
    decreases whole, 0
  {
    hide Pretty, ElementsText;
    var p := ElementsText(items, false, k + 1) + ("]" + rest);
    var inner := open + "[";
    assert "[" + (ElementsText(items, false, k + 1) + "]") + rest == "[" + p;
    OpensArray(p, open);
    PrettyItems(items, k + 1, "]" + rest, inner);
    ClosesArray(rest, open);
    Rejoin("[", ElementsText(items, true, |open| + 1), "]", Pretty(rest, open, false));
  }

  lemma Rejoin(a: string, b: string, c: string, d: string)
    ensures a + (b + (c + d)) == a + (b + c) + d
  {
  }

  lemma OpensArray(p: string, open: string)
    ensures Pretty("[" + p, open, false) == "[" + Pretty(p, open + "[", false)
  {
    assert ("[" + p)[0] == '[' && ("[" + p)[1..] == p;
  }

  lemma ClosesArray(rest: string, open: string)
    ensures Pretty("]" + rest, open + "[", false) == "]" + Pretty(rest, open, false)
  {
    assert ("]" + rest)[0] == ']' && ("]" + rest)[1..] == rest;
    assert (open + "[")[..|open|] == open;
  }

  lemma ArrayComma(p: string, open: string)
    requires open != "" && open[|open|-1] == '['
    ensures Pretty("," + p, open, false) == ", " + Pretty(p, open, false)
  {
    assert ("," + p)[0] == ',' && ("," + p)[1..] == p;
  }

  lemma {:induction false} PrettyItems(items: seq<Json>, k: nat, rest: string, open: string)
    requires open != "" && open[|open|-1] == '[' && forall i :: 0 <= i < |items| ==> Valid(items[i])
    ensures Pretty(ElementsText(items, false, k) + rest, open, false) == ElementsText(items, true, |open|) + Pretty(rest, open, false)
    decreases items, 0
  {
    hide Pretty, Text;
    if items == [] {
      assert "" + rest == rest && "" + Pretty(rest, open, false) == Pretty(rest, open, false);
    } else if |items| == 1 {
      PrettyValue(items[0], k, rest, open);
    } else {
      var t, u, more, more' := Text(items[0], false, k), Text(items[0], true, |open|),
                               ElementsText(items[1..], false, k), ElementsText(items[1..], true, |open|);
      assert ElementsText(items, false, k) + rest == t + ("," + (more + rest)) by { ItemsFrom(t, "", more, rest); }
      PrettyValue(items[0], k, "," + (more + rest), open);
      ArrayComma(more + rest, open);
      PrettyItems(items[1..], k, rest, open);
      ItemsFrom(u, " ", more', Pretty(rest, open, false));
    }
  }

  lemma ItemsFrom(t: string, blank: string, more: string, rest: string)
    ensures (t + ("," + (blank + more))) + rest == t + (("," + blank) + (more + rest))
    ensures blank == "" ==> "," + blank == ","
    ensures blank == " " ==> "," + blank == ", "
  {
  }

  lemma PrettyEmpty(k: nat, rest: string, open: string)
    ensures Pretty(Text(Object([]), false, k) + rest, open, false) == Text(Object([]), true, |open|) + Pretty(rest, open, false)
  {
    hide Pretty, Text, Tabs;
    EmptyText(false, k);
    EmptyText(true, |open|);
    EmptyBraces(rest, open);
    ObjectLines("", Tabs(|open|), Pretty(rest, open, false));
    assert "{" + ("" + ("" + ("" + "}"))) == "{}";
    assert "" + (Tabs(|open|) + ("}" + Pretty(rest, open, false))) == Tabs(|open|) + ("}" + Pretty(rest, open, false));
  }

  lemma EmptyText(fmt: bool, k: nat)
    ensures Text(Object([]), fmt, k) == "{" + (NewLine(fmt) + ("" + (Indent(fmt, k) + "}")))
  {
    hide Tabs;
  }

  lemma EmptyBraces(rest: string, open: string)
    ensures Pretty("{}" + rest, open, false) == "{\n" + (Tabs(|open|) + ("}" + Pretty(rest, open, false)))
  {
    hide Tabs;
    var p := "{}" + rest;
    assert p[0] == '{' && p[1..] == "}" + rest && ("}" + rest)[0] == '}' && ("}" + rest)[1..] == rest;
  }

  lemma {:induction false} PrettyObject(ms: seq<Member>, k: nat, rest: string, open: string, whole: Json)
    requires Valid(whole) && whole == Object(ms) && ms != []
    ensures Pretty(Text(whole, false, k) + rest, open, false) == Text(whole, true, |open|) + Pretty(rest, open, false)
    decreases whole, 0
  {
    hide Pretty, MembersText, Tabs;
    var m, m', inner := MembersText(ms, false, k + 1), MembersText(ms, true, |open| + 1), open + "{";
    NoLines(m, k);
    var p := m + ("}" + rest);
    assert "{" + (m + "}") + rest == "{" + p;
    MembersStart(ms, k + 1);
    OpensObject(p, open);
    PrettyMembers(ms, k + 1, rest, open);
    ObjectLines(m', Tabs(|open|), Pretty(rest, open, false));
  }

  lemma ObjectLines(m: string, tabs: string, rest: string)
    ensures "{\n" + (m + (tabs + ("}" + rest))) == ("{" + ("\n" + (m + (tabs + "}")))) + rest
  {
  }

  lemma MembersStart(ms: seq<Member>, k: nat)
    requires ms != []
    ensures var t := MembersText(ms, false, k); t != "" && t[0] == '\"'
  {
    hide Text;
  }

  lemma OpensObject(p: string, open: string)
    requires p != "" && p[0] != '}'
    ensures Pretty("{" + p, open, false) == "{\n" + (Tabs(|open| + 1) + Pretty(p, open + "{", false))
  {
    assert ("{" + p)[0] == '{' && ("{" + p)[1..] == p;
  }

  lemma ClosesObject(rest: string, open: string)
    ensures Pretty("}" + rest, open + "{", false) == "\n" + (Tabs(|open|) + ("}" + Pretty(rest, open, false)))
  {
    assert ("}" + rest)[0] == '}' && ("}" + rest)[1..] == rest;
    assert (open + "{")[..|open|] == open;
  }

  lemma ObjectComma(p: string, open: string)
    ensures Pretty("," + p, open + "{", false) == ",\n" + (Tabs(|open| + 1) + Pretty(p, open + "{", false))
  {
    hide Tabs, Pretty;
    MemberComma(p, open + "{");
  }

  lemma MemberComma(p: string, open: string)
    requires open != "" && open[|open|-1] == '{'
    ensures Pretty("," + p, open, false) == ",\n" + (Tabs(|open|) + Pretty(p, open, false))
  {
    hide Tabs;
    assert ("," + p)[0] == ',' && ("," + p)[1..] == p;
  }

  lemma Colon(p: string, open: string)
    ensures Pretty(":" + p, open, false) == ":\t" + Pretty(p, open, false)
  {
    assert (":" + p)[0] == ':' && (":" + p)[1..] == p;
  }

  /** One member: key, colon, tab and value. */
  lemma {:induction false} PrettyMember(m: Member, k: nat, rest: string, open: string)
    requires Valid(m.value)
    ensures Pretty(StringText(m.key) + (":" + (Text(m.value, false, k) + rest)), open, false) ==
              StringText(m.key) + (":\t" + (Text(m.value, true, |open|) + Pretty(rest, open, false)))
    decreases m, 0
  {
    hide Pretty, Text, StringText;
    var t := Text(m.value, false, k) + rest;
    PrettyString(m.key, ":" + t, open);
    Colon(t, open);
    PrettyValue(m.value, k, rest, open);
  }

  lemma {:induction false} PrettyMembers(ms: seq<Member>, k: nat, rest: string, open: string)
    requires ms != [] && forall i :: 0 <= i < |ms| ==> Valid(ms[i].value)
    ensures Tabs(|open| + 1) + Pretty(MembersText(ms, false, k) + ("}" + rest), open + "{", false) ==
              MembersText(ms, true, |open| + 1) + (Tabs(|open|) + ("}" + Pretty(rest, open, false)))
    decreases ms, 0
  {
    hide Pretty, Text, StringText, Tabs;
    var inner, d := open + "{", |open| + 1;
    var key, t, u := StringText(ms[0].key), Text(ms[0].value, false, k), Text(ms[0].value, true, d);
    if |ms| == 1 {
      PrettyMember(ms[0], k, "}" + rest, inner);
      ClosesObject(rest, open);
      OneMember(ms, k, "}" + rest);
      LastLines(ms, d, Tabs(|open|) + ("}" + Pretty(rest, open, false)));
    } else {
      var more := MembersText(ms[1..], false, k);
      PrettyMember(ms[0], k, "," + (more + ("}" + rest)), inner);
      ObjectComma(more + ("}" + rest), open);
      PrettyMembers(ms[1..], k, rest, open);
      MoreMembers(ms, k, "}" + rest);
      MoreLines(ms, d, Tabs(|open|) + ("}" + Pretty(rest, open, false)));
    }
  }

  lemma OneMember(ms: seq<Member>, k: nat, rest: string)
    requires |ms| == 1
    ensures MembersText(ms, false, k) + rest == StringText(ms[0].key) + (":" + (Text(ms[0].value, false, k) + rest))
  {
    hide Text, StringText;
    var key, t := StringText(ms[0].key), Text(ms[0].value, false, k);
    assert ms[1..] == [] && MembersText([], false, k) == "";
    assert MembersText(ms, false, k) == "" + (key + (":" + ("" + (t + ("" + ("" + ""))))));
  }

  lemma MoreMembers(ms: seq<Member>, k: nat, rest: string)
    requires |ms| > 1
    ensures MembersText(ms, false, k) + rest ==
              StringText(ms[0].key) + (":" + (Text(ms[0].value, false, k) + ("," + (MembersText(ms[1..], false, k) + rest))))
  {
    hide Text, StringText;
    var key, t, more := StringText(ms[0].key), Text(ms[0].value, false, k), MembersText(ms[1..], false, k);
    assert MembersText(ms, false, k) == "" + (key + (":" + ("" + (t + ("," + ("" + more))))));
  }

  lemma LastLines(ms: seq<Member>, d: nat, rest: string)
    requires |ms| == 1
    ensures MembersText(ms, true, d) + rest ==
              Tabs(d) + (StringText(ms[0].key) + (":\t" + (Text(ms[0].value, true, d) + ("\n" + rest))))
  {
    hide Text, StringText, Tabs;
    var key, t, tabs := StringText(ms[0].key), Text(ms[0].value, true, d), Tabs(d);
    assert ms[1..] == [] && MembersText([], true, d) == "";
    assert MembersText(ms, true, d) == tabs + (key + (":" + ("\t" + (t + ("" + ("\n" + ""))))));
  }

  lemma MoreLines(ms: seq<Member>, d: nat, rest: string)
    requires |ms| > 1
    ensures MembersText(ms, true, d) + rest ==
              Tabs(d) + (StringText(ms[0].key) + (":\t" + (Text(ms[0].value, true, d) + (",\n" + (MembersText(ms[1..], true, d) + rest)))))
  {
    hide Text, StringText, Tabs, MembersText;
    MembersMore(ms, d);
    LineJoined(Tabs(d), StringText(ms[0].key), Text(ms[0].value, true, d), MembersText(ms[1..], true, d), rest);
  }

  lemma MembersMore(ms: seq<Member>, d: nat)
    requires |ms| > 1
    ensures MembersText(ms, true, d) ==
              Tabs(d) + (StringText(ms[0].key) + (":" + ("\t" + (Text(ms[0].value, true, d) + ("," + ("\n" + MembersText(ms[1..], true, d)))))))
  {
    hide Text, StringText, Tabs;
  }

  lemma LineJoined(tabs: string, key: string, t: string, more: string, rest: string)
    ensures (tabs + (key + (":" + ("\t" + (t + ("," + ("\n" + more))))))) + rest ==
              tabs + (key + (":\t" + (t + (",\n" + (more + rest)))))
  {
    var a, b := "\n" + more, ",\n" + (more + rest);
    assert ("," + a) + rest == b;
    var c, d := t + ("," + a), t + b;
    assert c + rest == d;
    assert (":" + ("\t" + c)) + rest == ":\t" + d;
  }

  /** Formatted text is the unformatted text broken into lines. */
  lemma FormattedIsPretty(j: Json)
    requires Valid(j)
    ensures Text(j, true, 0) == Pretty(Text(j, false, 0), "", false)
  {
    hide Text, Pretty;
    PrettyValue(j, 0, "", "");
    PrettyNothing();
    assert Text(j, false, 0) + "" == Text(j, false, 0) && Text(j, true, 0) + "" == Text(j, true, 0);
  }

  lemma PrettyNothing()
    ensures Pretty("", "", false) == ""
  {
  }
}
