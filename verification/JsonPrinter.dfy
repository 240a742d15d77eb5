/** The printer as cJSON runs it: a buffer that is grown on demand, or is of fixed size. It
    writes the text of JsonText, never outside the buffer, and succeeds exactly if the text
    and two more characters fit. Allocations succeed. */
module JsonPrinter {
  import opened CString
  import opened JsonValue
  import opened JsonText

  const INT_MAX: nat := 0x7FFF_FFFF

  /** Values cJSON has a text for; strings and keys are C strings. */
  predicate HasText(j: Json)
  {
    match j
    case Invalid => false
    case String(s) => NulFree(s)
    case Array(items) => forall i :: 0 <= i < |items| ==> HasText(items[i])
    case Object(ms) => forall i :: 0 <= i < |ms| ==> NulFree(ms[i].key) && HasText(ms[i].value)
    case _ => true
  }

  lemma {:induction false} EscapeAllLength(s: string)
    ensures |EscapeAll(s)| >= |s|
    ensures NulFree(s) ==> NulFree(EscapeAll(s))
  {
    if s != "" { EscapeAllLength(s[1..]); }
  }

  class PrintBuffer {
    var buffer: array<char>
    var offset: nat
    var depth: nat
    const noalloc: bool
    const format: bool

    constructor (length: nat, fmt: bool)
      requires length <= INT_MAX
      ensures Valid() && fresh(buffer) && buffer.Length == length
      ensures offset == 0 && depth == 0 && !noalloc && format == fmt
    {
      buffer := new char[length];
      offset, depth := 0, 0;
      noalloc, format := false, fmt;
    }

    constructor Preallocated(given: array<char>, fmt: bool)
      requires given.Length <= INT_MAX
      ensures Valid() && buffer == given
      ensures offset == 0 && depth == 0 && noalloc && format == fmt
    {
      buffer := given;
      offset, depth := 0, 0;
      noalloc, format := true, fmt;
    }

    ghost predicate Valid()
      reads this
    {
      buffer.Length <= INT_MAX && offset <= buffer.Length && (buffer.Length > 0 ==> offset < buffer.Length)
    }

    /** How long the buffer may become. */
    ghost function Limit(): nat
      reads this
    {
      if noalloc then buffer.Length else INT_MAX
    }

    /** ensure: room for `needed` characters and one more. What is written so far is kept. */
    method Ensure(needed: nat) returns (ok: bool)
      requires Valid()
      modifies this`buffer
      ensures ok <==> offset + needed + 1 <= old(Limit())
      ensures Valid() && Limit() == old(Limit())
      ensures noalloc ==> buffer == old(buffer)
      ensures buffer == old(buffer) || fresh(buffer)
      ensures ok ==> offset + needed < buffer.Length
      ensures buffer[..offset] == old(buffer[..offset])
    {
      if buffer.Length > 0 && offset >= buffer.Length { return false; }
      if needed > INT_MAX { return false; }
      var total := needed + offset + 1;
      if total <= buffer.Length { return true; }
      if noalloc { return false; }
      var newSize;
      if total > INT_MAX / 2 {
        if total <= INT_MAX { newSize := INT_MAX; } else { return false; }
      } else {
        newSize := total * 2;
      }
      var grown := new char[newSize];
      var i := 0;
      while i < offset
        invariant buffer == old(buffer) && i <= offset <= buffer.Length && fresh(grown) && grown != buffer
        invariant grown[..i] == buffer[..i]
      {
        grown[i] := buffer[i];
        i := i + 1;
      }
      buffer := grown;
      return true;
    }

    /** Write a text through a cursor. */
    method WriteAt(position: nat, text: string)
      requires position + |text| <= buffer.Length
      modifies buffer
      ensures buffer[position..position + |text|] == text
      ensures buffer[..position] == old(buffer[..position])
    {
      var i := 0;
      while i < |text|
        invariant i <= |text| && buffer[position..position + i] == text[..i]
        invariant buffer[..position] == old(buffer[..position])
      {
        buffer[position + i] := text[i];
        assert buffer[position..position + i + 1] == buffer[position..position + i] + [text[i]];
        i := i + 1;
      }
      assert text[..|text|] == text;
    }

    /** From `start` on there is a text, closed by NUL, and the offset is somewhere in it. */
    ghost predicate Printed(start: nat, text: string)
      reads this, buffer
    {
      && start <= offset <= start + |text| < buffer.Length
      && buffer[start..start + |text|] == text
      && buffer[start + |text|] == '\0'
    }

    /** From `start` to the offset there is a text. */
    ghost predicate UpTo(start: nat, text: string)
      reads this, buffer
    {
      offset == start + |text| <= buffer.Length && buffer[start..offset] == text
    }

    /** What every print function keeps. */
    twostate predicate Kept(start: nat, before: string)
      reads this, buffer
    {
      && Valid() && Limit() == old(Limit())
      && (buffer == old(buffer) || fresh(buffer)) && (noalloc ==> buffer == old(buffer))
      && start <= buffer.Length && buffer[..start] == before
    }

    /** update_offset: move behind what is written. */
    method UpdateOffset(ghost start: nat, ghost text: string)
      requires Printed(start, text) && NulFree(text) && Valid()
      modifies this`offset
      ensures UpTo(start, text) && Valid()
    {
      while buffer[offset] != '\0'
        invariant Printed(start, text)
        decreases start + |text| - offset
      {
        offset := offset + 1;
      }
    }

    /** Make room, write a text (closed by NUL if asked) and move behind it. */
    method Put(text: string, needed: nat, closed: bool, ghost start: nat, ghost done: string) returns (ok: bool)
      requires Valid() && UpTo(start, done) && |text| <= needed
      modifies this`buffer, this`offset, buffer
      ensures ok <==> old(offset) + needed + 1 <= old(Limit())
      ensures ok ==> Kept(start, old(buffer[..start])) && UpTo(start, done + text)
    {
      ghost var before := buffer[..offset];
      assert before[start..] == done && before[..start] == buffer[..start];
      ok := Ensure(needed);
      if !ok { return; }
      WriteAt(offset, text);
      assert buffer[..offset + |text|] == before + text;
      offset := offset + |text|;
      if closed { buffer[offset] := '\0'; }
      assert buffer[..offset] == before + text;
      Behind(buffer[..], offset, before, start, done, text);
    }

    /** print_string_ptr: the string is measured first, then copied or escaped. */
    method PrintStringPtr(input: string) returns (ok: bool)
      requires Valid() && NulFree(input)
      modifies this`buffer, buffer
      ensures ok <==> offset + |StringText(input)| + 2 <= old(Limit())
      ensures ok ==> Kept(offset, old(buffer[..offset])) && Printed(offset, StringText(input))
    {
      hide EscapeAll;
      var escapeCharacters := CountEscapes(input);
      var outputLength := |input| + escapeCharacters;
      ok := Ensure(outputLength + 3);
      if !ok { return; }
      FillString(input, escapeCharacters);
    }

    /** What print_string_ptr does once there is room. */
    method FillString(input: string, escapeCharacters: nat)
      requires |input| + escapeCharacters == |EscapeAll(input)|
      requires offset + |EscapeAll(input)| + 2 < buffer.Length
      modifies buffer
      ensures Printed(offset, StringText(input)) && buffer[..offset] == old(buffer[..offset])
    {
      hide EscapeAll;
      if escapeCharacters == 0 {
        NothingEscaped(input);
        WriteAt(offset, "\"" + input);
      } else {
        EscapeInto(input);
      }
      var outputLength := |input| + escapeCharacters;
      ghost var begun := "\"" + EscapeAll(input);
      assert buffer[offset..offset + |begun|] == begun;
      buffer[offset + outputLength + 1] := '\"';
      buffer[offset + outputLength + 2] := '\0';
      assert buffer[offset..offset + |begun|] == begun;
      assert buffer[offset..offset + |begun| + 1] == begun + "\"";
    }

    /** print_value: it succeeds exactly if the text and two more characters fit behind the
        offset; what stands before the offset is kept. */
    method PrintValue(j: Json) returns (ok: bool)
      requires Valid() && HasText(j)
      modifies this, buffer
      ensures ok <==> old(offset) + |Text(j, format, old(depth))| + 2 <= old(Limit())
      ensures ok ==> Kept(old(offset), old(buffer[..offset])) && depth == old(depth)
      ensures ok ==> Printed(old(offset), Text(j, format, depth))
      decreases j, 1
    {
      match j
      case Null => ok := PrintWord("null");
      case False => ok := PrintWord("false");
      case True => ok := PrintWord("true");
      case Number(n) => ok := PrintNumber(n);
      case String(s) => ok := PrintStringPtr(s);
      case Array(items) => ok := PrintArray(items);
      case Object(ms) => ok := PrintObject(ms);
    }

    method PrintWord(word: string) returns (ok: bool)
      requires Valid()
      modifies this`buffer, buffer
      ensures ok <==> offset + |word| + 2 <= old(Limit())
      ensures ok ==> Kept(offset, old(buffer[..offset])) && Printed(offset, word)
    {
      ok := Ensure(|word| + 1);
      if ok {
        WriteAt(offset, word);
        buffer[offset + |word|] := '\0';
      }
    }

    /** print_number moves the offset itself. */
    method PrintNumber(n: int) returns (ok: bool)
      requires Valid()
      modifies this`buffer, this`offset, buffer
      ensures ok <==> old(offset) + |IntText(n)| + 2 <= old(Limit())
      ensures ok ==> Kept(old(offset), old(buffer[..offset])) && Printed(old(offset), IntText(n))
    {
      var digits := IntText(n);
      ok := PrintWord(digits);
      if ok { offset := offset + |digits|; }
    }

    /** print_array. */
    method PrintArray(items: seq<Json>) returns (ok: bool)
      requires Valid() && forall i :: 0 <= i < |items| ==> HasText(items[i])
      modifies this, buffer
      ensures ok <==> old(offset) + |Text(Array(items), format, old(depth))| + 2 <= old(Limit())
      ensures ok ==> Kept(old(offset), old(buffer[..offset])) && depth == old(depth)
      ensures ok ==> Printed(old(offset), Text(Array(items), format, depth))
      decreases items, 1
    {
      hide Text, ElementsText, HasText;
      ghost var start := offset;
      ArrayParts(items, format, depth);
      ok := Put("[", 1, false, start, "");
      if !ok { return; }
      depth := depth + 1;
      assert "" + "[" == "[";
      ok := PrintElements(items, start, "[");
      if !ok { return; }
      ghost var body := ElementsText(items, format, depth);
      Regroup("[", body, "]");
      ok := CloseWith("]", 2, start, "[" + body);
      depth := depth - 1;
    }

    /** The loop of print_array. */
    method PrintElements(items: seq<Json>, ghost start: nat, ghost done0: string) returns (ok: bool)
      requires Valid() && UpTo(start, done0) && forall i :: 0 <= i < |items| ==> HasText(items[i])
      modifies this, buffer
      ensures ok <==> items == [] || old(offset) + |ElementsText(items, format, old(depth))| + 2 <= old(Limit())
      ensures ok ==> Kept(start, old(buffer[..start])) && depth == old(depth)
      ensures ok ==> UpTo(start, done0 + ElementsText(items, format, depth))
      decreases items, 0
    {
      hide Text, ElementsText, HasText, ElementAndSeparator;
      ghost var done, whole := done0, done0 + (ElementsText(items, format, depth) + "]");
      ok := true;
      var i := 0;
      assert items[0..] == items;
      while i < |items|
        invariant i <= |items| && ok && depth == old(depth) && UpTo(start, done) && Kept(start, old(buffer[..start]))
        invariant whole == done + (ElementsText(items[i..], format, depth) + "]")
        invariant i > 0 ==> offset + 2 <= Limit()
      {
        ElementParts(items[i..], format, depth, done, whole);
        SameElement(items, i, format, depth);
        ok := PrintNext(items, i, start, done);
        if !ok { return; }
        done := done + ElementAndSeparator(items, i, format, depth);
        assert items[i..][1..] == items[i+1..];
        i := i + 1;
      }
      assert items[i..] == [];
      NoElements(format, depth);
      DropLast(done0, ElementsText(items, format, depth), done);
    }

    /** An element and, unless it is the last one, the separator. */
    method PrintNext(items: seq<Json>, i: nat, ghost start: nat, ghost done: string) returns (ok: bool)
      requires Valid() && i < |items| && HasText(items[i]) && UpTo(start, done)
      modifies this, buffer
      ensures ok <==> old(offset) + |ElementAndSeparator(items, i, format, old(depth))| + 2 <= old(Limit())
      ensures ok ==> Kept(start, old(buffer[..start])) && depth == old(depth)
      ensures ok ==> UpTo(start, done + ElementAndSeparator(items, i, format, depth))
      decreases items[i], 3
    {
      hide Text, HasText;
      ghost var t := Text(items[i], format, depth);
      ok := PrintElement(items[i], start, done);
      if !ok { return; }
      if i + 1 < |items| {
        var separator := if format then ", " else ",";
        ok := Put(separator, |separator| + 1, true, start, done + t);
        Regroup(done, t, separator);
      } else {
        assert t + "" == t;
      }
    }

    /** print_object. */
    method PrintObject(ms: seq<Member>) returns (ok: bool)
      requires Valid() && forall i :: 0 <= i < |ms| ==> NulFree(ms[i].key) && HasText(ms[i].value)
      modifies this, buffer
      ensures ok <==> old(offset) + |Text(Object(ms), format, old(depth))| + 2 <= old(Limit())
      ensures ok ==> Kept(old(offset), old(buffer[..offset])) && depth == old(depth)
      ensures ok ==> Printed(old(offset), Text(Object(ms), format, depth))
      decreases ms, 3
    {
      hide Text, MembersText, HasText, Indent, Printed;
      ghost var start, text, before := offset, Text(Object(ms), format, depth), buffer[..offset];
      ghost var body, close := MembersText(ms, format, depth + 1), Indent(format, depth) + "}";
      ObjectParts(ms, format, depth);
      IndentIs(format, depth);
      ok := OpenObject(ms);
      if !ok { return; }
      ghost var open := if format then "{\n" else "{";
      Regroup(open, body, close);
      assert text == (open + body) + close;
      ok := CloseObject(start, open + body, before);
    }

    /** The opening brace and the members. */
    method OpenObject(ms: seq<Member>) returns (ok: bool)
      requires Valid() && forall i :: 0 <= i < |ms| ==> NulFree(ms[i].key) && HasText(ms[i].value)
      modifies this, buffer
      ensures var open, body := if format then "{\n" else "{", MembersText(ms, format, old(depth) + 1);
              && (ok <==> old(offset) + |open| + 2 <= old(Limit()) && old(offset) + |open| + |body| + 2 <= old(Limit()))
              && (ok ==> Kept(old(offset), old(buffer[..offset])) && depth == old(depth) + 1 && UpTo(old(offset), open + body))
      decreases ms, 2
    {
      hide Text, MembersText, HasText;
      ghost var start := offset;
      var open := if format then "{\n" else "{";
      ok := Put(open, |open| + 1, false, start, "");
      depth := depth + 1;
      if ms == [] { NoMembers(format, depth); }
      if !ok { return; }
      assert "" + open == open;
      ok := PrintMembers(ms, start, open);
    }

    /** The closing brace, indented as the object is. */
    method CloseObject(ghost start: nat, ghost done: string, ghost before: string) returns (ok: bool)
      requires Valid() && UpTo(start, done) && depth > 0 && start <= offset && buffer[..start] == before
      modifies this, buffer
      ensures var close := Indent(format, old(depth) - 1) + "}";
              && (ok <==> old(offset) + |close| + 2 <= old(Limit()))
              && (ok ==> Kept(start, before) && depth == old(depth) - 1 && Printed(start, done + close))
    {
      IndentIs(format, depth - 1);
      var closing := (if format then Tabs(depth - 1) else "") + "}";
      ok := CloseWith(closing, if format then depth + 1 else 2, start, done);
      depth := depth - 1;
    }

    /** The loop of print_object. */
    method PrintMembers(ms: seq<Member>, ghost start: nat, ghost done: string) returns (ok: bool)
      requires Valid() && UpTo(start, done) && forall i :: 0 <= i < |ms| ==> NulFree(ms[i].key) && HasText(ms[i].value)
      modifies this, buffer
      ensures ok <==> ms == [] || old(offset) + |MembersText(ms, format, old(depth))| + 2 <= old(Limit())
      ensures ok ==> Kept(start, old(buffer[..start])) && depth == old(depth)
      ensures ok ==> UpTo(start, done + MembersText(ms, format, depth))
      decreases ms, 1
    {
      hide Text, MembersText, MemberText;
      ghost var printed, whole := "", MembersText(ms, format, depth);
      ok := true;
      var i := 0;
      assert ms[0..] == ms && done + "" == done && "" + whole == whole;
      while i < |ms|
        invariant i <= |ms| && ok && depth == old(depth) && UpTo(start, done + printed) && Kept(start, old(buffer[..start]))
        invariant whole == printed + MembersText(ms[i..], format, depth) && |done| + start == old(offset)
        invariant i > 0 ==> offset + 2 <= Limit()
      {
        ghost var t := MemberText(ms[i], i + 1 < |ms|, format, depth);
        MembersUnfold(ms[i..], format, depth);
        ok := PrintMember(ms[i], i + 1 < |ms|, start, done + printed);
        assert ms[i..][1..] == ms[i+1..];
        Regroup(printed, t, MembersText(ms[i+1..], format, depth));
        if !ok { return; }
        Regroup(done, printed, t);
        printed := printed + t;
        i := i + 1;
      }
      assert ms[i..] == [];
      NoMembers(format, depth);
      assert printed + "" == printed;
    }

    method PrintName(name: string, ghost start: nat, ghost done: string) returns (ok: bool)
      requires Valid() && NulFree(name) && UpTo(start, done)
      modifies this, buffer
      ensures var tabs, key, colon := Indent(format, old(depth)), StringText(name), if format then ":\t" else ":";
              && (ok <==> old(offset) + |tabs| + |key| + |colon| + 1 <= old(Limit()))
              && (ok ==> Kept(start, old(buffer[..start])) && depth == old(depth))
              && (ok ==> UpTo(start, done + tabs + key + colon))
    {
      hide StringText;
      ghost var tabs, key := Indent(format, depth), StringText(name);
      if format {
        ok := Put(Tabs(depth), depth, false, start, done);
        if !ok { return; }
      } else {
        assert done + tabs == done;
      }
      ok := PrintKey(name, start, done + tabs);
      if !ok { return; }
      ok := Put(if format then ":\t" else ":", if format then 2 else 1, false, start, done + tabs + key);
    }

    /** One turn of the loop of print_object. */
    method PrintMember(m: Member, more: bool, ghost start: nat, ghost done: string) returns (ok: bool)
      requires Valid() && NulFree(m.key) && HasText(m.value) && UpTo(start, done)
      modifies this, buffer
      ensures ok ==> Kept(start, old(buffer[..start])) && depth == old(depth)
      ensures ok ==> UpTo(start, done + MemberText(m, more, format, depth))
      ensures ok <==> old(offset) + |MemberText(m, more, format, old(depth))| + 2 <= old(Limit())
      decreases m, 0
    {
      hide Text, StringText;
      ghost var before, level := buffer[..start], depth;
      ghost var tabs, key, colon := Indent(format, depth), StringText(m.key), if format then ":\t" else ":";
      ghost var value := Text(m.value, format, depth);
      MemberLength(m, more, format, depth);
      ok := PrintName(m.key, start, done);
      if !ok { return; }
      ok := PrintElement(m.value, start, done + tabs + key + colon);
      if !ok { return; }
      var ending := (if more then "," else "") + (if format then "\n" else "");
      ok := Put(ending, |ending| + 1, true, start, done + tabs + key + colon + value);
      MemberJoin(done, tabs, key, colon, value, ending);
    }

    /** print_string_ptr followed by update_offset. */
    method PrintKey(key: string, ghost start: nat, ghost done: string) returns (ok: bool)
      requires Valid() && NulFree(key) && UpTo(start, done)
      modifies this`buffer, this`offset, buffer
      ensures ok <==> old(offset) + |StringText(key)| + 2 <= old(Limit())
      ensures ok ==> Kept(start, old(buffer[..start])) && UpTo(start, done + StringText(key))
    {
      ghost var middle, t, before := offset, StringText(key), buffer[..offset];
      EscapeAllLength(key);
      hide StringText;
      assert NulFree(t);
      assert before[start..] == done && before[..start] == buffer[..start];
      ok := PrintStringPtr(key);
      if !ok { return; }
      UpdateOffset(middle, t);
      JoinAt(buffer[..], before, start, done, t);
    }

    /** print_value followed by update_offset. */
    method PrintElement(j: Json, ghost start: nat, ghost done: string) returns (ok: bool)
      requires Valid() && HasText(j) && UpTo(start, done)
      modifies this, buffer
      ensures ok <==> old(offset) + |Text(j, format, old(depth))| + 2 <= old(Limit())
      ensures ok ==> Kept(start, old(buffer[..start])) && depth == old(depth)
      ensures ok ==> UpTo(start, done + Text(j, format, depth))
      decreases j, 2
    {
      hide Text;
      ghost var middle, t := offset, Text(j, format, depth);
      TextNulFree(j, format, depth);
      ghost var before := buffer[..offset];
      assert before[start..] == done && before[..start] == buffer[..start];
      ok := PrintValue(j);
      if !ok { return; }
      UpdateOffset(middle, t);
      JoinAt(buffer[..], before, start, done, t);
    }

    /** The closing characters of an array or object; the offset stays in front of them. */
    method CloseWith(text: string, needed: nat, ghost start: nat, ghost done: string) returns (ok: bool)
      requires Valid() && UpTo(start, done) && needed == |text| + 1
      modifies this`buffer, buffer
      ensures ok <==> offset + needed + 1 <= old(Limit())
      ensures ok ==> Kept(start, old(buffer[..start])) && Printed(start, done + text)
    {
      ghost var before := buffer[..offset];
      assert before[start..] == done && before[..start] == buffer[..start];
      ok := Ensure(needed);
      if !ok { return; }
      WriteAt(offset, text);
      buffer[offset + |text|] := '\0';
      assert buffer[..offset] == before && buffer[offset..offset + |text|] == text;
      JoinAt(buffer[..], before, start, done, text);
    }

    method PutEscape(position: nat, e: string)
      requires offset <= position && position + |e| <= buffer.Length
      modifies buffer
      ensures buffer[offset..position + |e|] == old(buffer[offset..position]) + e
      ensures buffer[..offset] == old(buffer[..offset])
    {
      WriteAt(position, e);
      assert buffer[offset..position] == buffer[..position][offset..];
      assert buffer[..offset] == buffer[..position][..offset];
    }

    /** The second loop of print_string_ptr. */
    method EscapeInto(input: string)
      requires offset + 1 + |EscapeAll(input)| < buffer.Length
      modifies buffer
      ensures buffer[offset..offset + 1 + |EscapeAll(input)|] == "\"" + EscapeAll(input)
      ensures buffer[..offset] == old(buffer[..offset])
    {
      hide Escape, EscapeAll;
      buffer[offset] := '\"';
      var position, i := offset + 1, 0;
      assert input[0..] == input;
      while i < |input|
        invariant i <= |input| && offset < position < buffer.Length
        invariant position + |EscapeAll(input[i..])| == offset + 1 + |EscapeAll(input)|
        invariant buffer[offset..position] + EscapeAll(input[i..]) == "\"" + EscapeAll(input)
        invariant buffer[..offset] == old(buffer[..offset])
      {
        EscapeAllFrom(input, i);
        ghost var done := buffer[offset..position];
        var e := Escape(input[i]);
        Regroup(done, e, EscapeAll(input[i+1..]));
        PutEscape(position, e);
        position := position + |e|;
        i := i + 1;
      }
      EscapeAllFrom(input, i);
      assert buffer[offset..position] + "" == buffer[offset..position];
    }
  }

  lemma EscapeAllFrom(input: string, i: nat)
    requires i <= |input|
    ensures EscapeAll(input[i..]) == if i < |input| then Escape(input[i]) + EscapeAll(input[i+1..]) else ""
  {
    if i < |input| { assert input[i..][0] == input[i] && input[i..][1..] == input[i+1..]; }
  }

  /** What was written stands behind what was there. */
  lemma Behind(b: seq<char>, n: nat, before: string, start: nat, done: string, text: string)
    requires n <= |b| && b[..n] == before + text && start <= |before| && before[start..] == done
    ensures n == start + |done| + |text| && b[start..n] == done + text && b[..start] == before[..start]
  {
    assert b[start..n] == b[..n][start..];
    assert b[..start] == b[..n][..start];
  }

  /** The buffer starts with the text and a NUL. */
  ghost predicate Holds(buffer: array<char>, text: string)
    reads buffer
  {
    |text| < buffer.Length && buffer[..|text|] == text && buffer[|text|] == '\0'
  }

  /** cJSON_PrintPreallocated: it succeeds exactly if the buffer has room for the text and
      two more characters. */
  method PrintPreallocated(j: Json, given: array<char>, fmt: bool) returns (ok: bool)
    requires HasText(j) && given.Length <= INT_MAX
    modifies given
    ensures ok <==> |Text(j, fmt, 0)| + 2 <= given.Length
    ensures ok ==> Holds(given, Text(j, fmt, 0))
  {
    hide Text;
    var p := new PrintBuffer.Preallocated(given, fmt);
    ok := p.PrintValue(j);
  }

  /** cJSON_PrintBuffered, from any first size. */
  method PrintBuffered(j: Json, prebuffer: nat, fmt: bool) returns (ok: bool, printed: array<char>)
    requires HasText(j) && 0 < prebuffer <= INT_MAX
    ensures ok <==> |Text(j, fmt, 0)| + 2 <= INT_MAX
    ensures ok ==> Holds(printed, Text(j, fmt, 0))
  {
    hide Text;
    var p := new PrintBuffer(prebuffer, fmt);
    ok := p.PrintValue(j);
    printed := p.buffer;
  }

  /** cJSON_Print and cJSON_PrintUnformatted: the text is copied into a buffer that just fits. */
  method Print(j: Json, fmt: bool) returns (ok: bool, printed: array<char>)
    requires HasText(j)
    ensures ok <==> |Text(j, fmt, 0)| + 2 <= INT_MAX
    ensures ok ==> Holds(printed, Text(j, fmt, 0)) && printed.Length == |Text(j, fmt, 0)| + 1
  {
    TextNulFree(j, fmt, 0);
    hide Text;
    var p := new PrintBuffer(256, fmt);
    ok := p.PrintElement(j, 0, "");
    printed := p.buffer;
    if !ok { return; }
    assert "" + Text(j, fmt, 0) == Text(j, fmt, 0);
    printed := new char[p.offset + 1];
    var i := 0;
    while i < p.offset
      invariant i <= p.offset <= p.buffer.Length && printed.Length == p.offset + 1 && fresh(printed) && printed != p.buffer
      invariant p.UpTo(0, Text(j, fmt, 0)) && printed[..i] == p.buffer[..i]
    {
      printed[i] := p.buffer[i];
      i := i + 1;
    }
    printed[p.offset] := '\0';
    assert printed[..p.offset] == p.buffer[..p.offset] == p.buffer[0..p.offset];
  }

  /** A text behind what was written before. */
  lemma JoinAt(b: seq<char>, before: seq<char>, start: nat, done: string, t: string)
    requires start <= |before| && |before| + |t| <= |b| && before[start..] == done
    requires b[..|before|] == before && b[|before|..|before| + |t|] == t
    ensures b[start..|before| + |t|] == done + t && b[..start] == before[..start]
  {
    assert b[start..|before| + |t|] == b[..|before|][start..] + b[|before|..|before| + |t|];
    assert b[..start] == b[..|before|][..start];
  }

  lemma {:induction false} TextNulFree(j: Json, fmt: bool, depth: nat)
    requires HasText(j)
    ensures NulFree(Text(j, fmt, depth))
    decreases j, 1
  {
    match j
    case Array(items) =>
      ElementsNulFree(items, fmt, depth + 1);
      ArrayNulFree(items, fmt, depth);
    case Object(ms) =>
      MembersNulFree(ms, fmt, depth + 1);
      ObjectNulFree(ms, fmt, depth);
    case String(s) =>
      EscapeAllLength(s);
      StringNulFree(s);
    case _ =>
  }

  lemma StringNulFree(s: string)
    requires NulFree(EscapeAll(s))
    ensures NulFree(StringText(s))
  {
    hide EscapeAll;
  }

  lemma ArrayNulFree(items: seq<Json>, fmt: bool, depth: nat)
    requires NulFree(ElementsText(items, fmt, depth + 1))
    ensures NulFree(Text(Array(items), fmt, depth))
  {
    ArrayParts(items, fmt, depth);
    hide Text, ElementsText;
    NulFreeConcat(ElementsText(items, fmt, depth + 1), "]");
  }

  lemma ObjectNulFree(ms: seq<Member>, fmt: bool, depth: nat)
    requires NulFree(MembersText(ms, fmt, depth + 1))
    ensures NulFree(Text(Object(ms), fmt, depth))
  {
    ObjectParts(ms, fmt, depth);
    hide Text, MembersText;
    var m := MembersText(ms, fmt, depth + 1);
    NulFreeConcat(Indent(fmt, depth), "}");
    NulFreeConcat(m, Indent(fmt, depth) + "}");
    NulFreeConcat(if fmt then "{\n" else "{", m + (Indent(fmt, depth) + "}"));
  }

  lemma {:induction false} ElementsNulFree(items: seq<Json>, fmt: bool, depth: nat)
    requires forall i :: 0 <= i < |items| ==> HasText(items[i])
    ensures NulFree(ElementsText(items, fmt, depth))
    decreases items, 0
  {
    if items != [] {
      TextNulFree(items[0], fmt, depth);
      ElementsNulFree(items[1..], fmt, depth);
    }
  }

  lemma NulFreeConcat(a: string, b: string)
    requires NulFree(a) && NulFree(b)
    ensures NulFree(a + b)
  {
  }

  lemma {:induction false} MembersNulFree(ms: seq<Member>, fmt: bool, depth: nat)
    requires forall i :: 0 <= i < |ms| ==> NulFree(ms[i].key) && HasText(ms[i].value)
    ensures NulFree(MembersText(ms, fmt, depth))
    decreases ms, 0
  {
    if ms != [] {
      TextNulFree(ms[0].value, fmt, depth);
      MembersNulFree(ms[1..], fmt, depth);
      EscapeAllLength(ms[0].key);
      hide Text, EscapeAll;
      var t5 := NewLine(fmt) + MembersText(ms[1..], fmt, depth);
      var t4 := (if |ms| > 1 then "," else "") + t5;
      var t3 := Text(ms[0].value, fmt, depth) + t4;
      NulFreeConcat(NewLine(fmt), MembersText(ms[1..], fmt, depth));
      NulFreeConcat(if |ms| > 1 then "," else "", t5);
      NulFreeConcat(Text(ms[0].value, fmt, depth), t4);
      NulFreeConcat(if fmt then "\t" else "", t3);
      NulFreeConcat(":", (if fmt then "\t" else "") + t3);
      NulFreeConcat(StringText(ms[0].key), ":" + ((if fmt then "\t" else "") + t3));
      NulFreeConcat(Indent(fmt, depth), StringText(ms[0].key) + (":" + ((if fmt then "\t" else "") + t3)));
    }
  }

  /** The text of one member with what ends it. */
  function MemberText(m: Member, more: bool, fmt: bool, depth: nat): string
  {
    Indent(fmt, depth) + (StringText(m.key) + ((if fmt then ":\t" else ":") + (Text(m.value, fmt, depth)
    + ((if more then "," else "") + NewLine(fmt)))))
  }

  lemma MemberLength(m: Member, more: bool, fmt: bool, depth: nat)
    ensures |MemberText(m, more, fmt, depth)| ==
              |Indent(fmt, depth)| + |StringText(m.key)| + (if fmt then 2 else 1) + |Text(m.value, fmt, depth)|
              + (if more then 1 else 0) + (if fmt then 1 else 0)
    ensures |Indent(fmt, depth)| == if fmt then depth else 0
  {
  }

  lemma MemberJoin(done: string, tabs: string, key: string, colon: string, value: string, ending: string)
    ensures done + tabs + key + colon + value + ending == done + (tabs + (key + (colon + (value + ending))))
  {
  }

  lemma ObjectParts(ms: seq<Member>, fmt: bool, depth: nat)
    ensures Text(Object(ms), fmt, depth) ==
              (if fmt then "{\n" else "{") + (MembersText(ms, fmt, depth + 1) + (Indent(fmt, depth) + "}"))
  {
    Regroup("{", NewLine(fmt), MembersText(ms, fmt, depth + 1) + (Indent(fmt, depth) + "}"));
  }

  lemma IndentIs(fmt: bool, depth: nat)
    ensures Indent(fmt, depth) == if fmt then Tabs(depth) else ""
  {
  }

  lemma NoMembers(fmt: bool, depth: nat)
    ensures MembersText([], fmt, depth) == ""
  {
  }

  lemma MembersUnfold(ms: seq<Member>, fmt: bool, depth: nat)
    requires ms != []
    ensures MembersText(ms, fmt, depth) == MemberText(ms[0], |ms| > 1, fmt, depth) + MembersText(ms[1..], fmt, depth)
  {
    hide StringText, Text, NewLine, Indent;
    var tab, value := if fmt then "\t" else "", Text(ms[0].value, fmt, depth);
    var comma, rest := if |ms| > 1 then "," else "", MembersText(ms[1..], fmt, depth);
    Regroup(":", tab, value + (comma + NewLine(fmt)));
    assert (if fmt then ":\t" else ":") == ":" + tab;
    MemberRegroup(Indent(fmt, depth), StringText(ms[0].key), tab, value, comma, NewLine(fmt), rest);
  }

  lemma MemberRegroup(tabs: string, key: string, tab: string, value: string, comma: string, line: string, rest: string)
    ensures tabs + (key + (":" + (tab + (value + (comma + (line + rest)))))) ==
              (tabs + (key + ((":" + tab) + (value + (comma + line))))) + rest
  {
    Regroup(comma, line, rest);
    Regroup(value, comma + line, rest);
    Regroup(":", tab, value + (comma + (line + rest)));
    Regroup(":" + tab, value + (comma + line), rest);
    Regroup(key, (":" + tab) + (value + (comma + line)), rest);
    Regroup(tabs, key + ((":" + tab) + (value + (comma + line))), rest);
  }

  lemma ArrayParts(items: seq<Json>, fmt: bool, depth: nat)
    ensures Text(Array(items), fmt, depth) == "[" + (ElementsText(items, fmt, depth + 1) + "]")
  {
  }

  lemma NoElements(fmt: bool, depth: nat)
    ensures ElementsText([], fmt, depth) == ""
  {
  }

  function ElementAndSeparator(items: seq<Json>, i: nat, fmt: bool, depth: nat): string
    requires i < |items|
  {
    Text(items[i], fmt, depth) + if i + 1 == |items| then "" else if fmt then ", " else ","
  }

  lemma SameElement(items: seq<Json>, i: nat, fmt: bool, depth: nat)
    requires i < |items|
    ensures ElementAndSeparator(items[i..], 0, fmt, depth) == ElementAndSeparator(items, i, fmt, depth)
  {
    hide Text;
  }

  lemma DropLast(a: string, b: string, c: string)
    requires a + (b + "]") == c + ("" + "]")
    ensures c == a + b
  {
    var x, y := a + (b + "]"), c + ("" + "]");
    assert x[..|x|-1] == a + b && y[..|y|-1] == c;
  }

  /** The first of the elements still to print, and what comes behind it. */
  lemma ElementParts(items: seq<Json>, fmt: bool, depth: nat, done: string, whole: string)
    requires items != [] && whole == done + (ElementsText(items, fmt, depth) + "]")
    ensures var t := ElementAndSeparator(items, 0, fmt, depth);
            |whole| >= |done| + |t| + 1 && whole == (done + t) + (ElementsText(items[1..], fmt, depth) + "]")
  {
    ElementsUnfold(items, fmt, depth);
    hide Text, ElementsText;
    var t, separator, rest := Text(items[0], fmt, depth), if fmt then ", " else ",", ElementsText(items[1..], fmt, depth);
    if |items| > 1 {
      Regroup(t, separator, rest);
      Regroup(t + separator, rest, "]");
      Regroup(done, t + separator, rest + "]");
      Regroup(done, t, separator);
    } else {
      assert t + "" == t;
      Regroup(t, rest, "]");
      Regroup(done, t, rest + "]");
    }
  }

  lemma ElementsUnfold(items: seq<Json>, fmt: bool, depth: nat)
    requires items != []
    ensures ElementsText(items, fmt, depth) ==
              Text(items[0], fmt, depth) + ((if |items| > 1 then (if fmt then ", " else ",") else "") + ElementsText(items[1..], fmt, depth))
  {
    hide Text;
    Regroup(",", if fmt then " " else "", ElementsText(items[1..], fmt, depth));
    assert "," + (if fmt then " " else "") == if fmt then ", " else ",";
  }

  lemma Regroup(a: string, b: string, c: string)
    ensures (a + b) + c == a + (b + c)
  {
  }

  /** The first loop of print_string_ptr. */
  method CountEscapes(input: string) returns (n: nat)
    ensures |input| + n == |EscapeAll(input)|
  {
    n := 0;
    var i := 0;
    assert input[0..] == input;
    while i < |input|
      invariant i <= |input| && i + n + |EscapeAll(input[i..])| == |EscapeAll(input)|
    {
      assert input[i..][1..] == input[i+1..];
      var c := input[i];
      if c == '\"' || c == '\\' || c == BACKSPACE || c == FORM_FEED || c == '\n' || c == '\r' || c == '\t' {
        n := n + 1;
      } else if c < ' ' {
        n := n + 5;
      }
      i := i + 1;
    }
  }

  lemma {:induction false} NothingEscaped(s: string)
    requires |EscapeAll(s)| == |s|
    ensures EscapeAll(s) == s
  {
    if s != "" {
      EscapeAllLength(s[1..]);
      NothingEscaped(s[1..]);
      assert s == [s[0]] + s[1..];
    }
  }
}
