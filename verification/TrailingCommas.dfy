/** The trailing-comma stripper for bun.lock (dependency_evidence.py), against a printer of JSON
    values laid out with arbitrary white space and at most one trailing comma for each container. */
module TrailingCommas {
  import opened Wrappers
  import opened PythonText
  import opened Sequences

  datatype State = Outside | Quoted | Escaped

  /** What the `quoted` and `escaped` flags become after one character. */
  function Next(state: State, c: char): State {
    match state
    case Outside => if c == '"' then Quoted else Outside
    case Escaped => Quoted
    case Quoted => if c == '\\' then Escaped else if c == '"' then Outside else Quoted
  }

  function After(text: string, state: State): State {
    if text == [] then state else After(text[1..], Next(state, text[0]))
  }

  /** The lookahead: the next character that is no white space closes a container. */
  predicate ClosesNext(text: string) {
    text != [] && (if IsSpace(text[0]) then ClosesNext(text[1..]) else text[0] == ']' || text[0] == '}')
  }

  /** The text without the commas that stand outside strings before a closing bracket. */
  function StripCommas(text: string, state: State): string {
    if text == [] then []
    else if state.Outside? && text[0] == ',' && ClosesNext(text[1..]) then StripCommas(text[1..], state)
    else [text[0]] + StripCommas(text[1..], Next(state, text[0]))
  }

  /** `out` is `text` without some of the commas that stand outside strings. */
  predicate OnlyCommasDeleted(text: string, out: string, state: State) {
    if text == [] then out == []
    else
      || (out != [] && out[0] == text[0] && OnlyCommasDeleted(text[1..], out[1..], Next(state, text[0])))
      || (state.Outside? && text[0] == ',' && OnlyCommasDeleted(text[1..], out, state))
  }

  /** On every text whatever: everything but commas outside strings stays, and the output leaves the
      reader in the state the input leaves it in. */
  lemma {:induction false} DeletesOnlyCommas(text: string, state: State)
    ensures OnlyCommasDeleted(text, StripCommas(text, state), state)
    ensures After(StripCommas(text, state), state) == After(text, state)
  {
    if text != [] {
      if state.Outside? && text[0] == ',' && ClosesNext(text[1..]) {
        DeletesOnlyCommas(text[1..], state);
      } else {
        DeletesOnlyCommas(text[1..], Next(state, text[0]));
        assert StripCommas(text, state)[1..] == StripCommas(text[1..], Next(state, text[0]));
      }
    }
  }

  // ---------------------------------------------------------------- the program

  method Lookahead(text: string, start: nat) returns (closes: bool)
    requires start <= |text|
    ensures closes == ClosesNext(text[start..])
  {
    var lookahead := start;
    while lookahead < |text| && IsSpace(text[lookahead])
      invariant start <= lookahead <= |text|
      invariant ClosesNext(text[start..]) == ClosesNext(text[lookahead..])
    {
      DropDrop(text, lookahead, 1);
      lookahead := lookahead + 1;
    }
    closes := lookahead < |text| && (text[lookahead] == ']' || text[lookahead] == '}');
  }

  /** `strip_json_trailing_commas`. */
  method StripJsonTrailingCommas(text: string) returns (r: Result<string>)
    ensures r.Ok? <==> After(text, Outside) == Outside
    ensures r.Ok? ==> r.value == StripCommas(text, Outside)
    ensures r.Err? ==> r.error == "SOURCE_MALFORMED"
  {
    var result: string := [];
    var quoted, escaped := false, false;
    var index := 0;
    while index < |text|
      invariant 0 <= index <= |text|
      invariant escaped ==> quoted
      invariant After(text, Outside) == After(text[index..], Flags(quoted, escaped))
      invariant StripCommas(text, Outside) == result + StripCommas(text[index..], Flags(quoted, escaped))
    {
      var character := text[index];
      ghost var state := Flags(quoted, escaped);
      DropDrop(text, index, 1);
      Associative(result, [character], StripCommas(text[index + 1..], Next(state, character)));
      if quoted {
        result := result + [character];
        if escaped {
          escaped := false;
        } else if character == '\\' {
          escaped := true;
        } else if character == '"' {
          quoted := false;
        }
        index := index + 1;
        continue;
      }
      if character == '"' {
        quoted := true;
        result := result + [character];
        index := index + 1;
        continue;
      }
      if character == ',' {
        var closes := Lookahead(text, index + 1);
        if closes {
          index := index + 1;
          continue;
        }
      }
      result := result + [character];
      index := index + 1;
    }
    assert text[index..] == [];
    assert result + [] == result;
    if quoted {
      return Err("SOURCE_MALFORMED");
    }
    r := Ok(result);
  }

  function Flags(quoted: bool, escaped: bool): State {
    if escaped then Escaped else if quoted then Quoted else Outside
  }

  // ---------------------------------------------------------------- printed values

  /** A JSON value as laid out in a file.  `comma` is the white space after a trailing comma, if
      there is one; a member carries its key, the space around the colon, and its value. */
  datatype Value = Text(content: string) | Atom(text: string) | Array(items: Items) | Object(members: Items)

  datatype Items =
    | Empty(space: string)
    | Last(before: string, key: Option<Label>, item: Value, after: string, comma: Option<string>)
    | More(before: string, key: Option<Label>, item: Value, after: string, rest: Items)

  datatype Label = Label(name: string, beforeColon: string, afterColon: string)

  /** The inside of a JSON string: no quote, and every backslash followed by a character. */
  predicate WellEscaped(content: string) {
    content == [] ||
    (if content[0] == '\\' then |content| >= 2 && WellEscaped(content[2..]) else content[0] != '"' && WellEscaped(content[1..]))
  }

  predicate StaysQuoted(content: string, state: State) {
    if content == [] then state == Quoted else !state.Outside? && StaysQuoted(content[1..], Next(state, content[0]))
  }

  /** It is exactly the text that keeps a reader inside the string it starts in. */
  lemma {:induction false} WellEscapedMeans(content: string)
    ensures WellEscaped(content) <==> StaysQuoted(content, Quoted)
    decreases |content|
  {
    if content != [] {
      if content[0] != '\\' {
        WellEscapedMeans(content[1..]);
      } else if |content| >= 2 {
        assert content[1..][1..] == content[2..];
        WellEscapedMeans(content[2..]);
      } else {
        assert content[1..] == [];
      }
      if content[0] == '"' { OutsideIsNotQuoted(content[1..]); }
    }
  }

  lemma {:induction false} OutsideIsNotQuoted(content: string)
    ensures !StaysQuoted(content, Outside)
  {
  }

  /** Numbers and the three words: no quote, comma, bracket or white space. */
  predicate PlainText(s: string) {
    s == [] || (s[0] != '"' && s[0] != ',' && s[0] != ']' && s[0] != '}' && !IsSpace(s[0]) && PlainText(s[1..]))
  }

  predicate WellFormed(v: Value) {
    match v
    case Text(content) => WellEscaped(content)
    case Atom(text) => text != [] && PlainText(text)
    case Array(items) => WellFormedItems(items)
    case Object(members) => WellFormedItems(members)
  }

  predicate WellFormedItems(items: Items) {
    match items
    case Empty(space) => Blank(space)
    case Last(before, key, item, after, comma) =>
      Blank(before) && WellFormedLabel(key) && WellFormed(item) && Blank(after) && (comma.Some? ==> Blank(comma.value))
    case More(before, key, item, after, rest) =>
      Blank(before) && WellFormedLabel(key) && WellFormed(item) && Blank(after) && WellFormedItems(rest) && !rest.Empty?
  }

  predicate WellFormedLabel(key: Option<Label>) {
    key.Some? ==> WellEscaped(key.value.name) && Blank(key.value.beforeColon) && Blank(key.value.afterColon)
  }

  function PrintLabel(key: Option<Label>): string {
    match key
    case None => ""
    case Some(k) => "\"" + (k.name + ("\"" + (k.beforeColon + (":" + k.afterColon))))
  }

  /** The printing with the trailing commas of the layout (`loose`), or without them. */
  function Print(v: Value, loose: bool): string {
    match v
    case Text(content) => "\"" + (content + "\"")
    case Atom(text) => text
    case Array(items) => "[" + (PrintItems(items, loose) + "]")
    case Object(members) => "{" + (PrintItems(members, loose) + "}")
  }

  function PrintItems(items: Items, loose: bool): string {
    match items
    case Empty(space) => space
    case Last(before, key, item, after, comma) =>
      before + (PrintLabel(key) + (Print(item, loose) + (after + PrintComma(comma, loose))))
    case More(before, key, item, after, rest) =>
      before + (PrintLabel(key) + (Print(item, loose) + (after + ("," + PrintItems(rest, loose)))))
  }

  function PrintComma(comma: Option<string>, loose: bool): string {
    if comma.None? then "" else if loose then "," + comma.value else comma.value
  }

  // ---------------------------------------------------------------- pieces

  /** White space, plain text and string bodies pass through unchanged. */
  lemma {:induction false} StripBlank(s: string, tail: string)
    requires Blank(s)
    ensures StripCommas(s + tail, Outside) == s + StripCommas(tail, Outside)
    ensures After(s + tail, Outside) == After(tail, Outside) && ClosesNext(s + tail) == ClosesNext(tail)
  {
    if s == [] {
      assert s + tail == tail;
    } else {
      StripBlank(s[1..], tail);
      assert (s + tail)[1..] == s[1..] + tail;
      Associative([s[0]], s[1..], StripCommas(tail, Outside));
      assert [s[0]] + s[1..] == s;
    }
  }

  lemma {:induction false} StripPlain(s: string, tail: string)
    requires PlainText(s)
    ensures StripCommas(s + tail, Outside) == s + StripCommas(tail, Outside)
    ensures After(s + tail, Outside) == After(tail, Outside) && (s != [] ==> !ClosesNext(s + tail))
  {
    if s == [] {
      assert s + tail == tail;
    } else {
      StripPlain(s[1..], tail);
      assert (s + tail)[1..] == s[1..] + tail;
      Associative([s[0]], s[1..], StripCommas(tail, Outside));
      assert [s[0]] + s[1..] == s;
    }
  }

  lemma {:induction false} StripQuoted(content: string, state: State, tail: string)
    requires StaysQuoted(content, state)
    ensures StripCommas(content + tail, state) == content + StripCommas(tail, Quoted)
    ensures After(content + tail, state) == After(tail, Quoted)
  {
    if content == [] {
      assert content + tail == tail;
    } else {
      StripQuoted(content[1..], Next(state, content[0]), tail);
      assert (content + tail)[1..] == content[1..] + tail;
      Associative([content[0]], content[1..], StripCommas(tail, Quoted));
      assert [content[0]] + content[1..] == content;
    }
  }

  /** One character that is kept outside strings. */
  lemma {:induction false} StripKept(c: char, tail: string)
    requires c != '"' && (c == ',' ==> !ClosesNext(tail))
    ensures StripCommas([c] + tail, Outside) == [c] + StripCommas(tail, Outside)
    ensures After([c] + tail, Outside) == After(tail, Outside)
  {
    assert ([c] + tail)[1..] == tail;
  }

  lemma {:induction false} StripString(content: string, tail: string)
    requires WellEscaped(content)
    ensures StripCommas("\"" + (content + ("\"" + tail)), Outside) == "\"" + (content + ("\"" + StripCommas(tail, Outside)))
    ensures After("\"" + (content + ("\"" + tail)), Outside) == After(tail, Outside)
    ensures !ClosesNext("\"" + (content + ("\"" + tail)))
  {
    var rest := content + ("\"" + tail);
    assert ("\"" + rest)[1..] == rest;
    WellEscapedMeans(content);
    StripQuoted(content, Quoted, "\"" + tail);
    assert ("\"" + tail)[1..] == tail;
  }

  lemma {:induction false} StripLabel(key: Option<Label>, tail: string)
    requires WellFormedLabel(key)
    ensures StripCommas(PrintLabel(key) + tail, Outside) == PrintLabel(key) + StripCommas(tail, Outside)
    ensures After(PrintLabel(key) + tail, Outside) == After(tail, Outside)
    ensures ClosesNext(PrintLabel(key) + tail) ==> key.None? && ClosesNext(tail)
  {
    hide StripCommas, After, ClosesNext, WellEscaped, Blank;
    match key
    case None =>
      assert PrintLabel(key) + tail == tail;
      assert PrintLabel(key) + StripCommas(tail, Outside) == StripCommas(tail, Outside);
    case Some(k) =>
      var colon := ":" + (k.afterColon + tail);
      LabelShape(k, tail);
      LabelShape(k, StripCommas(tail, Outside));
      StripString(k.name, k.beforeColon + colon);
      StripBlank(k.beforeColon, colon);
      StripKept(':', k.afterColon + tail);
      StripBlank(k.afterColon, tail);
  }

  lemma {:induction false} LabelShape(k: Label, tail: string)
    ensures PrintLabel(Some(k)) + tail == "\"" + (k.name + ("\"" + (k.beforeColon + (":" + (k.afterColon + tail)))))
  {
    var colon := ":" + k.afterColon;
    Associative(":", k.afterColon, tail);
    Associative(k.beforeColon, colon, tail);
    Associative("\"", k.beforeColon + colon, tail);
    Associative(k.name, "\"" + (k.beforeColon + colon), tail);
    Associative("\"", k.name + ("\"" + (k.beforeColon + colon)), tail);
  }

  // ---------------------------------------------------------------- the theorem

  /** In every context, stripping the loose printing of a value leaves its strict printing and goes
      on outside strings; a value never looks like the end of a container. */
  lemma {:induction false} StripValue(v: Value, tail: string)
    requires WellFormed(v)
    ensures StripCommas(Print(v, true) + tail, Outside) == Print(v, false) + StripCommas(tail, Outside)
    ensures After(Print(v, true) + tail, Outside) == After(tail, Outside)
    ensures !ClosesNext(Print(v, true) + tail)
    decreases v, 0
  {
    hide StripCommas, After, ClosesNext, WellEscaped, PlainText, WellFormedItems, PrintItems;
    match v
    case Text(content) =>
      Quote(content, tail);
      Quote(content, StripCommas(tail, Outside));
      StripString(content, tail);
    case Atom(text) =>
      StripPlain(text, tail);
    case Array(items) =>
      StripContainer('[', ']', items, tail);
    case Object(members) =>
      StripContainer('{', '}', members, tail);
  }

  lemma {:induction false} Quote(content: string, tail: string)
    ensures ("\"" + (content + "\"")) + tail == "\"" + (content + ("\"" + tail))
  {
    Associative("\"", content + "\"", tail);
    Associative(content, "\"", tail);
  }

  lemma {:induction false} StripContainer(open: char, close: char, items: Items, tail: string)
    requires WellFormedItems(items)
    requires (open == '[' && close == ']') || (open == '{' && close == '}')
    ensures StripCommas(([open] + (PrintItems(items, true) + [close])) + tail, Outside) ==
            ([open] + (PrintItems(items, false) + [close])) + StripCommas(tail, Outside)
    ensures After(([open] + (PrintItems(items, true) + [close])) + tail, Outside) == After(tail, Outside)
    ensures !ClosesNext(([open] + (PrintItems(items, true) + [close])) + tail)
    decreases items, 1
  {
    hide StripCommas, After, WellFormedItems, PrintItems;
    var closing := [close] + tail;
    Associative([open], PrintItems(items, true) + [close], tail);
    Associative(PrintItems(items, true), [close], tail);
    Associative([open], PrintItems(items, false) + [close], StripCommas(tail, Outside));
    Associative(PrintItems(items, false), [close], StripCommas(tail, Outside));
    StripKept(open, PrintItems(items, true) + closing);
    StripItems(items, closing);
    StripKept(close, tail);
  }

  /** Inside a container, in front of its closing bracket. */
  lemma {:induction false} StripItems(items: Items, tail: string)
    requires WellFormedItems(items) && ClosesNext(tail)
    ensures StripCommas(PrintItems(items, true) + tail, Outside) == PrintItems(items, false) + StripCommas(tail, Outside)
    ensures After(PrintItems(items, true) + tail, Outside) == After(tail, Outside)
    ensures !items.Empty? ==> !ClosesNext(PrintItems(items, true) + tail)
    decreases items, 0
  {
    hide StripCommas, After, ClosesNext, Blank, WellFormed, WellFormedLabel, PrintLabel, Print;
    match items
    case Empty(space) =>
      StripBlank(space, tail);
    case Last(before, key, item, after, comma) =>
      StripComma(comma, tail);
      StripEntry(before, key, item, after, PrintComma(comma, true), PrintComma(comma, false), tail);
    case More(before, key, item, after, rest) =>
      StripItems(rest, tail);
      Associative(",", PrintItems(rest, true), tail);
      Associative(",", PrintItems(rest, false), StripCommas(tail, Outside));
      StripKept(',', PrintItems(rest, true) + tail);
      StripEntry(before, key, item, after, "," + PrintItems(rest, true), "," + PrintItems(rest, false), tail);
  }

  lemma {:induction false} StripComma(comma: Option<string>, tail: string)
    requires ClosesNext(tail) && (comma.Some? ==> Blank(comma.value))
    ensures StripCommas(PrintComma(comma, true) + tail, Outside) == PrintComma(comma, false) + StripCommas(tail, Outside)
    ensures After(PrintComma(comma, true) + tail, Outside) == After(tail, Outside)
  {
    match comma
    case None =>
      assert PrintComma(comma, true) + tail == tail;
      assert PrintComma(comma, false) + StripCommas(tail, Outside) == StripCommas(tail, Outside);
    case Some(space) =>
      Associative(",", space, tail);
      StripBlank(space, tail);
      assert ("," + (space + tail))[1..] == space + tail;
  }

  /** One element with what follows it: `loose` becomes `strict` once stripped. */
  lemma {:induction false} StripEntry(before: string, key: Option<Label>, item: Value, after: string,
                                      loose: string, strict: string, tail: string)
    requires Blank(before) && WellFormedLabel(key) && WellFormed(item) && Blank(after)
    requires StripCommas(loose + tail, Outside) == strict + StripCommas(tail, Outside)
    requires After(loose + tail, Outside) == After(tail, Outside)
    ensures StripCommas((before + (PrintLabel(key) + (Print(item, true) + (after + loose)))) + tail, Outside) ==
            (before + (PrintLabel(key) + (Print(item, false) + (after + strict)))) + StripCommas(tail, Outside)
    ensures After((before + (PrintLabel(key) + (Print(item, true) + (after + loose)))) + tail, Outside) == After(tail, Outside)
    ensures !ClosesNext((before + (PrintLabel(key) + (Print(item, true) + (after + loose)))) + tail)
    decreases item, 1
  {
    hide StripCommas, After, ClosesNext, Blank, WellFormed, WellFormedLabel, PrintLabel, Print;
    Regroup(before, PrintLabel(key), Print(item, true), after, loose, tail);
    Regroup(before, PrintLabel(key), Print(item, false), after, strict, StripCommas(tail, Outside));
    var t3 := after + (loose + tail);
    var t2 := Print(item, true) + t3;
    var t1 := PrintLabel(key) + t2;
    StripBlank(before, t1);
    StripLabel(key, t2);
    StripValue(item, t3);
    StripBlank(after, loose + tail);
  }

  lemma {:induction false} Regroup(a: string, b: string, c: string, d: string, e: string, tail: string)
    ensures (a + (b + (c + (d + e)))) + tail == a + (b + (c + (d + (e + tail))))
  {
    Associative(d, e, tail);
    Associative(c, d + e, tail);
    Associative(b, c + (d + e), tail);
    Associative(a, b + (c + (d + e)), tail);
  }

  /** For every laid-out JSON value, with white space around it: the stripper succeeds and yields the
      printing of the same value without trailing commas. */
  lemma {:induction false} StripsToStrictPrinting(v: Value, before: string, after: string)
    requires WellFormed(v) && Blank(before) && Blank(after)
    ensures StripCommas(before + (Print(v, true) + after), Outside) == before + (Print(v, false) + after)
    ensures After(before + (Print(v, true) + after), Outside) == Outside
  {
    hide StripCommas, After, ClosesNext, Blank, WellFormed, Print;
    StripBlank(before, Print(v, true) + after);
    StripValue(v, after);
    StripBlank(after, "");
    assert after + "" == after;
    StripEmpty();
  }

  lemma {:induction false} StripEmpty()
    ensures StripCommas("", Outside) == "" && After("", Outside) == Outside
  {
  }

  // ---------------------------------------------------------------- when one pass is enough

  /** The next character that is no white space is a comma the stripper deletes. */
  predicate DeletedNext(text: string) {
    text != [] && (if IsSpace(text[0]) then DeletedNext(text[1..]) else text[0] == ',' && ClosesNext(text[1..]))
  }

  /** Somewhere outside strings a comma has a deleted comma behind it. */
  predicate Doubled(text: string, state: State) {
    text != [] &&
    ((state.Outside? && text[0] == ',' && DeletedNext(text[1..])) || Doubled(text[1..], Next(state, text[0])))
  }

  lemma {:induction false} ClosesAfterStripping(text: string)
    ensures ClosesNext(StripCommas(text, Outside)) <==> ClosesNext(text) || DeletedNext(text)
  {
    if text != [] && (IsSpace(text[0]) || (text[0] == ',' && ClosesNext(text[1..]))) {
      ClosesAfterStripping(text[1..]);
      if IsSpace(text[0]) {
        assert StripCommas(text, Outside)[1..] == StripCommas(text[1..], Outside);
      }
    }
  }

  lemma {:induction false} StripShortens(text: string, state: State)
    ensures |StripCommas(text, state)| <= |text|
  {
    if text != [] { StripShortens(text[1..], Next(state, text[0])); }
  }

  /** The exact limit of the guarantee, on every text: one pass leaves nothing for a second one if
      and only if no comma stands before a deleted comma. */
  lemma {:induction false} OnePassIsEnough(text: string, state: State)
    ensures StripCommas(StripCommas(text, state), state) == StripCommas(text, state) <==> !Doubled(text, state)
  {
    if text != [] {
      var next := Next(state, text[0]);
      OnePassIsEnough(text[1..], next);
      if state.Outside? && text[0] == ',' {
        ClosesAfterStripping(text[1..]);
        NotBoth(text[1..]);
      }
      if !(state.Outside? && text[0] == ',' && ClosesNext(text[1..])) {
        var kept := StripCommas(text[1..], next);
        assert ([text[0]] + kept)[1..] == kept;
        StripShortens(kept, next);
        PrependKeeps(text[0], StripCommas(kept, next), kept);
      }
    }
  }

  lemma {:induction false} NotBoth(text: string)
    ensures !(ClosesNext(text) && DeletedNext(text))
  {
    if text != [] && IsSpace(text[0]) { NotBoth(text[1..]); }
  }

  lemma {:induction false} PrependKeeps(c: char, a: string, b: string)
    ensures [c] + a == [c] + b <==> a == b
  {
    assert ([c] + a)[1..] == a && ([c] + b)[1..] == b;
  }

  /** The smallest instance: of two adjacent commas before a bracket one stays. */
  lemma {:induction false} AdjacentCommasLeaveOne()
    ensures StripCommas("[,,]", Outside) == "[,]" && StripCommas("[,]", Outside) == "[]"
    ensures Doubled("[,,]", Outside)
  {
    assert "[,,]"[1..] == ",,]" && ",,]"[1..] == ",]" && ",]"[1..] == "]" && "]"[1..] == "";
    assert StripCommas("]", Outside) == "]";
    assert StripCommas(",]", Outside) == "]";
    assert StripCommas(",,]", Outside) == ",]";
    assert "[,]"[1..] == ",]";
  }
}
