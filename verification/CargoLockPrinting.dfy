/** A printer of version 4 lockfiles and the proof that `parse_cargo_lock` undoes it. */
module CargoLockPrinting {
  import opened Limits
  import opened Wrappers
  import opened Sequences
  import opened PythonText
  import opened CargoLock

  /** Strings Cargo writes between quotes without any escape. */
  predicate Plain(s: string) {
    forall c :: c in s ==> ' ' <= c && c != '"' && c != '\\' && !IsLineBreak(c)
  }

  function Quoted(s: string): string {
    "\"" + (s + "\"")
  }

  /** All the proof needs to know about the JSON reader. */
  ghost predicate JsonReads(json: string -> Option<string>) {
    forall s: string :: Plain(s) ==> json(Quoted(s)) == Some(s)
  }

  predicate AllPlain(strings: seq<string>) {
    strings == [] || (Plain(strings[0]) && AllPlain(strings[1..]))
  }

  predicate NoBracket(strings: seq<string>) {
    strings == [] || (']' !in strings[0] && NoBracket(strings[1..]))
  }

  // ---------------------------------------------------------------- printed arrays

  /** On one line, between the brackets. */
  function Row(strings: seq<string>): string {
    if strings == [] then ""
    else if |strings| == 1 then Quoted(strings[0])
    else Quoted(strings[0]) + ("," + (" " + Row(strings[1..])))
  }

  /** On several lines, as assembled between the brackets. */
  function Stack(strings: seq<string>): string {
    if strings == [] then "\n" else "\n" + (Quoted(strings[0]) + ("," + Stack(strings[1..])))
  }

  function ItemLines(strings: seq<string>): seq<string> {
    if strings == [] then ["]"] else [" " + (Quoted(strings[0]) + ",")] + ItemLines(strings[1..])
  }

  function ArrayHead(strings: seq<string>, multiline: bool): string {
    if multiline then "[" else "[" + (Row(strings) + "]")
  }

  function ArrayLines(strings: seq<string>, multiline: bool): seq<string> {
    if multiline then ItemLines(strings) else []
  }

  lemma {:induction false} BodyOfPlain(s: string, rest: string)
    requires Plain(s)
    ensures BodyLength(s + ("\"" + rest)) == Some(|s|)
  {
    if s == [] {
      assert s + ("\"" + rest) == "\"" + rest;
    } else {
      assert s == [s[0]] + s[1..] && s[0] in s;
      assert (s + ("\"" + rest))[1..] == s[1..] + ("\"" + rest);
      assert forall c :: c in s[1..] ==> c in s;
      BodyOfPlain(s[1..], rest);
    }
  }

  lemma {:induction false} QuotedShape(s: string, rest: string)
    ensures Quoted(s) + rest == "\"" + (s + ("\"" + rest))
  {
    Associative("\"", s + "\"", rest);
    Associative(s, "\"", rest);
  }

  lemma {:induction false} TakeLiteral(s: string, rest: string)
    requires Plain(s)
    ensures Literals(Quoted(s) + rest) == [Quoted(s)] + Literals(rest)
    ensures Residue(Quoted(s) + rest) == Residue(rest)
  {
    var text := Quoted(s) + rest;
    QuotedShape(s, rest);
    assert text[1..] == s + ("\"" + rest);
    BodyOfPlain(s, rest);
    AppendDrop(Quoted(s), rest);
  }

  lemma {:induction false} SkipChar(c: char, rest: string)
    requires c != '"'
    ensures Literals([c] + rest) == Literals(rest)
    ensures Residue([c] + rest) == (if c == ',' then [] else [c]) + Residue(rest)
  {
    assert ([c] + rest)[1..] == rest;
    assert [] + Residue(rest) == Residue(rest);
  }

  function QuotedAll(strings: seq<string>): seq<string> {
    if strings == [] then [] else [Quoted(strings[0])] + QuotedAll(strings[1..])
  }

  lemma {:induction false} ReadQuoted(strings: seq<string>, json: string -> Option<string>)
    requires AllPlain(strings) && JsonReads(json)
    ensures ReadAll(QuotedAll(strings), json) == Some(strings)
  {
    hide Quoted;
    if strings != [] {
      ReadQuoted(strings[1..], json);
      assert QuotedAll(strings)[1..] == QuotedAll(strings[1..]);
      assert [strings[0]] + strings[1..] == strings;
    }
  }

  lemma {:induction false} RowScans(strings: seq<string>)
    requires AllPlain(strings)
    ensures Literals(Row(strings)) == QuotedAll(strings) && Blank(Residue(Row(strings)))
  {
    hide Quoted;
    if |strings| == 1 {
      TakeLiteral(strings[0], "");
      assert Quoted(strings[0]) + "" == Quoted(strings[0]);
    } else if strings != [] {
      var rest := Row(strings[1..]);
      TakeLiteral(strings[0], "," + (" " + rest));
      SkipChar(',', " " + rest);
      SkipChar(' ', rest);
      RowScans(strings[1..]);
      assert ([' '] + Residue(rest))[1..] == Residue(rest);
      assert [] + Residue(" " + rest) == Residue(" " + rest);
    }
  }

  lemma {:induction false} StackScans(strings: seq<string>)
    requires AllPlain(strings)
    ensures Literals(Stack(strings)) == QuotedAll(strings) && Blank(Residue(Stack(strings)))
  {
    hide Quoted;
    if strings == [] {
      SkipChar('\n', "");
      assert "\n" + "" == "\n";
      assert (['\n'] + Residue(""))[1..] == Residue("");
    } else {
      var rest := "," + Stack(strings[1..]);
      SkipChar('\n', Quoted(strings[0]) + rest);
      TakeLiteral(strings[0], rest);
      SkipChar(',', Stack(strings[1..]));
      StackScans(strings[1..]);
      assert (['\n'] + Residue(rest))[1..] == Residue(rest);
      assert [] + Residue(Stack(strings[1..])) == Residue(Stack(strings[1..]));
    }
  }

  lemma {:induction false} InAppend(c: char, a: string, b: string)
    ensures c in a + b <==> c in a || c in b
  {
  }

  lemma {:induction false} InQuoted(s: string)
    ensures ']' in Quoted(s) <==> ']' in s
    ensures '"' in Quoted(s)
  {
    InAppend(']', "\"", s + "\"");
    InAppend(']', s, "\"");
    assert Quoted(s)[0] == '"';
  }

  lemma {:induction false} RowBracket(strings: seq<string>)
    ensures ']' in Row(strings) <==> !NoBracket(strings)
  {
    hide Quoted;
    if |strings| == 1 {
      InQuoted(strings[0]);
      assert NoBracket(strings[1..]);
    } else if strings != [] {
      var rest := Row(strings[1..]);
      InQuoted(strings[0]);
      InAppend(']', Quoted(strings[0]), "," + (" " + rest));
      InAppend(']', ",", " " + rest);
      InAppend(']', " ", rest);
      RowBracket(strings[1..]);
    }
  }

  lemma {:induction false} StackBracket(strings: seq<string>)
    requires NoBracket(strings)
    ensures ']' !in Stack(strings)
  {
    hide Quoted;
    if strings != [] {
      var rest := Stack(strings[1..]);
      InQuoted(strings[0]);
      InAppend(']', "\n", Quoted(strings[0]) + ("," + rest));
      InAppend(']', Quoted(strings[0]), "," + rest);
      InAppend(']', ",", rest);
      StackBracket(strings[1..]);
    }
  }

  /** Reading an assembled array without a bracket in between. */
  lemma {:induction false} ReadBracketed(inner: string, json: string -> Option<string>, strings: seq<string>)
    requires ']' !in inner && Literals(inner) == QuotedAll(strings) && Blank(Residue(inner))
    requires AllPlain(strings) && JsonReads(json)
    ensures ']' in "[" + (inner + "]")
    ensures ReadArray("[" + (inner + "]"), json) == Ok(strings)
  {
    hide Literals, Residue, JsonReads, Strip;
    var assembled := "[" + (inner + "]");
    InAppend(']', "[", inner);
    Associative("[", inner, "]");
    assert "]" + "" == "]";
    IndexAfter("[" + inner, ']', "");
    var close := |inner| + 1;
    assert assembled[close] == ']';
    assert IndexOf(assembled, ']') == close;
    assert assembled[close + 1..] == "";
    assert Strip("") == "" by { StripOfBlank(""); }
    assert assembled[0] == '[';
    assert IndexOf(assembled, '[') == 0;
    assert assembled[1..close] == inner;
    ReadQuoted(strings, json);
    StripOfBlank(Residue(inner));
  }

  /** A text with a quote in it is not blank. */
  lemma {:induction false} QuoteSurvivesStrip(s: string)
    requires '"' in s
    ensures Strip(s) != ""
  {
    LStripKeeps(s);
    RStripKeeps(LStrip(s));
  }

  lemma {:induction false} LStripKeeps(s: string)
    requires '"' in s
    ensures '"' in LStrip(s)
  {
    assert s == [s[0]] + s[1..];
    if IsSpace(s[0]) { LStripKeeps(s[1..]); }
  }

  lemma {:induction false} RStripKeeps(s: string)
    requires '"' in s
    ensures '"' in RStrip(s)
  {
    var n := |s| - 1;
    assert s == s[..n] + [s[n]];
    if IsSpace(s[n]) { RStripKeeps(s[..n]); }
  }

  lemma {:induction false} BrokenShape(before: string, s: string, rest: string)
    requires ']' in s
    ensures var p := IndexOf(s, ']');
      before + (Quoted(s) + rest) == (before + ("\"" + s[..p])) + ("]" + (s[p + 1..] + ("\"" + rest)))
  {
    hide Quoted, IndexOf;
    var p := IndexOf(s, ']');
    var head, tail := s[..p], s[p + 1..];
    assert s == head + ("]" + tail);
    var left := tail + ("\"" + rest);
    QuotedShape(s, rest);
    Associative(head, "]" + tail, "\"" + rest);
    Associative("]", tail, "\"" + rest);
    Associative("\"", head, "]" + left);
    Associative(before, "\"" + head, "]" + left);
  }

  lemma {:induction false} ReadLeftover(start: string, left: string, json: string -> Option<string>)
    requires ']' !in start && '"' in left
    ensures ']' in start + ("]" + left)
    ensures ReadArray(start + ("]" + left), json) == Err("SOURCE_MALFORMED")
  {
    hide Strip, Literals, Residue, IndexOf;
    var assembled := start + ("]" + left);
    assert assembled[|start|] == ']';
    IndexAfter(start, ']', left);
    assert assembled[|start| + 1..] == left;
    QuoteSurvivesStrip(left);
  }

  /** A bracket inside a literal ends the array early, and the literal's closing quote is left over. */
  lemma {:induction false} ReadBroken(before: string, s: string, rest: string, json: string -> Option<string>)
    requires ']' !in before && ']' in s
    ensures ']' in before + (Quoted(s) + rest)
    ensures ReadArray(before + (Quoted(s) + rest), json) == Err("SOURCE_MALFORMED")
  {
    hide Quoted, ReadArray, IndexOf;
    BrokenShape(before, s, rest);
    BeforeIndex(s, ']');
    var p := IndexOf(s, ']');
    InAppend(']', before, "\"" + s[..p]);
    InAppend(']', "\"", s[..p]);
    InAppend('"', s[p + 1..], "\"" + rest);
    assert ("\"" + rest)[0] == '"';
    ReadLeftover(before + ("\"" + s[..p]), s[p + 1..] + ("\"" + rest), json);
  }

  lemma {:induction false} BeforeIndex(s: string, c: char)
    ensures c !in s[..IndexOf(s, c)]
  {
    if s != [] && s[0] != c {
      BeforeIndex(s[1..], c);
      var n := IndexOf(s[1..], c);
      assert s[..n + 1] == [s[0]] + s[1..][..n];
    }
  }

  lemma {:induction false} RowBroken(before: string, strings: seq<string>, rest: string, json: string -> Option<string>)
    requires ']' !in before && !NoBracket(strings)
    ensures ']' in before + (Row(strings) + rest)
    ensures ReadArray(before + (Row(strings) + rest), json) == Err("SOURCE_MALFORMED")
    decreases |strings|
  {
    hide Quoted, ReadArray;
    var s := strings[0];
    if ']' in s {
      if |strings| == 1 {
        ReadBroken(before, s, rest, json);
      } else {
        var more := "," + (" " + Row(strings[1..]));
        Associative(Quoted(s), more, rest);
        ReadBroken(before, s, more + rest, json);
      }
    } else {
      assert |strings| > 1 by { assert strings[1..] != []; }
      var row := Row(strings[1..]);
      var longer := before + (Quoted(s) + ", ");
      InQuoted(s);
      InAppend(']', Quoted(s), ", ");
      InAppend(']', before, Quoted(s) + ", ");
      RowBroken(longer, strings[1..], rest, json);
      assert "," + (" " + row) == ", " + row;
      Associative(Quoted(s), ", ", row);
      Associative(Quoted(s) + ", ", row, rest);
      Associative(before, Quoted(s) + ", ", row + rest);
    }
  }

  lemma {:induction false} ItemLine(s: string)
    ensures Strip(" " + (Quoted(s) + ",")) == Quoted(s) + ","
  {
    var text := Quoted(s) + ",";
    assert text[0] == '"' && text[|text| - 1] == ',';
    StripSolid(text);
  }

  lemma {:induction false} AssembleItems(before: string, strings: seq<string>, tail: seq<string>)
    requires ']' !in before && NoBracket(strings)
    ensures Assemble(before, ItemLines(strings) + tail) == Some((before + (Stack(strings) + "]"), tail))
    decreases |strings|
  {
    hide Quoted, Strip;
    if strings == [] {
      assert (["]"] + tail)[1..] == tail;
      assert Strip("]") == "]" by { StripSolid("]"); }
      assert "\n" + "]" == Stack(strings) + "]";
      InAppend(']', before, "\n" + "]");
      assert ("\n" + "]")[1] == ']';
    } else {
      var s, more := strings[0], ItemLines(strings[1..]) + tail;
      Associative([" " + (Quoted(s) + ",")], ItemLines(strings[1..]), tail);
      assert ([" " + (Quoted(s) + ",")] + more)[1..] == more;
      ItemLine(s);
      var longer := before + ("\n" + (Quoted(s) + ","));
      InQuoted(s);
      InAppend(']', before, "\n" + (Quoted(s) + ","));
      InAppend(']', "\n", Quoted(s) + ",");
      InAppend(']', Quoted(s), ",");
      AssembleItems(longer, strings[1..], tail);
      var stack := Stack(strings[1..]) + "]";
      Associative("\n", Quoted(s) + ("," + Stack(strings[1..])), "]");
      Associative(Quoted(s), "," + Stack(strings[1..]), "]");
      Associative(",", Stack(strings[1..]), "]");
      Associative(Quoted(s), ",", stack);
      Associative("\n", Quoted(s) + ",", stack);
      Associative(before, "\n" + (Quoted(s) + ","), stack);
    }
  }

  lemma {:induction false} AssembleBroken(before: string, strings: seq<string>, tail: seq<string>,
                                          json: string -> Option<string>)
    requires ']' !in before && !NoBracket(strings)
    ensures ArrayValue(before, ItemLines(strings) + tail, json) == Err("SOURCE_MALFORMED")
    decreases |strings|
  {
    hide Quoted, Strip, ReadArray;
    var s, more := strings[0], ItemLines(strings[1..]) + tail;
    Associative([" " + (Quoted(s) + ",")], ItemLines(strings[1..]), tail);
    assert ([" " + (Quoted(s) + ",")] + more)[1..] == more;
    ItemLine(s);
    var longer := before + ("\n" + (Quoted(s) + ","));
    Associative(before, "\n", Quoted(s) + ",");
    InQuoted(s);
    InAppend(']', before, "\n" + (Quoted(s) + ","));
    InAppend(']', before, "\n");
    InAppend(']', "\n", Quoted(s) + ",");
    InAppend(']', Quoted(s), ",");
    if ']' in s {
      ReadBroken(before + "\n", s, ",", json);
      assert Assemble(longer, more) == Some((longer, more));
    } else {
      AssembleBroken(longer, strings[1..], tail, json);
    }
  }

  /** An array is read back, and the lines after it are left alone, exactly when no string in it
      holds a closing bracket; otherwise the file is refused. */
  lemma {:induction false} ArrayRoundTrip(strings: seq<string>, multiline: bool, tail: seq<string>,
                                          json: string -> Option<string>)
    requires AllPlain(strings) && JsonReads(json)
    ensures ArrayValue(ArrayHead(strings, multiline), ArrayLines(strings, multiline) + tail, json) ==
            if NoBracket(strings) then Ok((strings, tail)) else Err("SOURCE_MALFORMED")
  {
    hide ReadArray, JsonReads, Literals, Residue;
    if multiline {
      if NoBracket(strings) {
        AssembleItems("[", strings, tail);
        StackBracket(strings);
        StackScans(strings);
        ReadBracketed(Stack(strings), json, strings);
      } else {
        AssembleBroken("[", strings, tail, json);
      }
    } else {
      assert [] + tail == tail;
      var head := "[" + (Row(strings) + "]");
      if NoBracket(strings) {
        RowBracket(strings);
        RowScans(strings);
        ReadBracketed(Row(strings), json, strings);
      } else {
        RowBroken("[", strings, "]", json);
      }
      assert Assemble(head, tail) == Some((head, tail));
    }
  }

  // ---------------------------------------------------------------- printed files

  function FieldLine(key: string, value: string): string {
    key + (" = " + value)
  }

  function TextLines(key: string, value: Option<string>): seq<string> {
    if value.None? then [] else [FieldLine(key, Quoted(value.value))]
  }

  function ListLines(strings: Option<seq<string>>, multiline: bool): seq<string> {
    if strings.None? then []
    else [FieldLine("dependencies", ArrayHead(strings.value, multiline))] + ArrayLines(strings.value, multiline)
  }

  function FieldLines(p: Package, multiline: bool): seq<string> {
    TextLines("name", p.name) + (TextLines("version", p.version) + (TextLines("source", p.source) +
    (TextLines("checksum", p.checksum) + ListLines(p.dependencies, multiline))))
  }

  function PackageLines(p: Package, multiline: bool): seq<string> {
    ["[[package]]"] + (FieldLines(p, multiline) + [""])
  }

  /** Packages, each with whether its dependencies take one line or several. */
  function BodyLines(packages: seq<(Package, bool)>): seq<string> {
    if packages == [] then [] else PackageLines(packages[0].0, packages[0].1) + BodyLines(packages[1..])
  }

  /** Any comment lines, then the version. */
  function HeaderLines(comments: seq<string>): seq<string> {
    if comments == [] then ["version = 4", ""] else ["#" + comments[0]] + HeaderLines(comments[1..])
  }

  function PrintLock(comments: seq<string>, packages: seq<(Package, bool)>): string {
    JoinLines(HeaderLines(comments) + BodyLines(packages))
  }

  predicate PlainField(value: Option<string>) {
    value.Some? ==> Plain(value.value)
  }

  predicate PlainPackage(p: Package) {
    PlainField(p.name) && PlainField(p.version) && PlainField(p.source) && PlainField(p.checksum) &&
    (p.dependencies.Some? ==> AllPlain(p.dependencies.value))
  }

  predicate PlainPackages(packages: seq<(Package, bool)>) {
    packages == [] || (PlainPackage(packages[0].0) && PlainPackages(packages[1..]))
  }

  /** No dependency string holds a closing bracket. */
  predicate Bracketless(packages: seq<(Package, bool)>) {
    packages == [] || (BracketlessPackage(packages[0].0) && Bracketless(packages[1..]))
  }

  predicate BracketlessPackage(p: Package) {
    p.dependencies.Some? ==> NoBracket(p.dependencies.value)
  }

  function Records(packages: seq<(Package, bool)>): seq<Package> {
    if packages == [] then [] else [packages[0].0] + Records(packages[1..])
  }

  // ---------------------------------------------------------------- reading them back

  /** Letters and digits of a key. */
  predicate Word(key: string) {
    Solid(key) && '=' !in key && key[0] != '#' && key[0] != '['
  }

  lemma {:induction false} FieldParts(key: string, value: string)
    requires Word(key) && Solid(value)
    ensures var line := FieldLine(key, value);
      && Strip(line) == line && line[0] == key[0] && '=' in line && |line| > IndexOf(line, '=')
      && Strip(line[..IndexOf(line, '=')]) == key && Strip(line[IndexOf(line, '=') + 1..]) == value
  {
    hide Strip, IndexOf;
    var line := FieldLine(key, value);
    assert line[|line| - 1] == value[|value| - 1];
    assert Strip(line) == line by { StripSolid(line); }
    assert " = " + value == " " + ("=" + (" " + value));
    Associative(key, " ", "=" + (" " + value));
    InAppend('=', key, " ");
    IndexAfter(key + " ", '=', " " + value);
    assert line == (key + " ") + ("=" + (" " + value));
    AppendDrop(key + " ", "=" + (" " + value));
    assert line[|key| + 1] == '=';
    assert line[|key| + 2..] == " " + value;
    assert line[..|key| + 1] == key + " ";
    StripSolid(key);
    StripSolid(value);
  }

  lemma {:induction false} TextLine(key: string, value: string, tail: seq<string>, state: State,
                                    json: string -> Option<string>)
    requires key == "name" || key == "version" || key == "source" || key == "checksum"
    requires Solid(value) && state.current.Some? && !Has(state.current.value, key)
    ensures Line(Strip(FieldLine(key, value)), tail, state, json) ==
            if json(value).None? then Err("SOURCE_MALFORMED")
            else Ok((state.(current := Some(Set(state.current.value, key, json(value).value))), tail))
  {
    hide Strip, Set, Has, LockVersion, ArrayValue, FieldLine, IndexOf;
    FieldParts(key, value);
  }

  lemma {:induction false} ParseText(key: string, value: Option<string>, rest: seq<string>, state: State,
                                     json: string -> Option<string>)
    requires key == "name" || key == "version" || key == "source" || key == "checksum"
    requires PlainField(value) && JsonReads(json) && state.current.Some? && !Has(state.current.value, key)
    ensures Parse(TextLines(key, value) + rest, state, json) ==
            Parse(rest, if value.None? then state else state.(current := Some(Set(state.current.value, key, value.value))), json)
  {
    hide Strip, Set, Has, Plain, Line, FieldLine, Close;
    if value.None? {
      assert [] + rest == rest;
    } else {
      var quoted := Quoted(value.value);
      assert quoted[0] == '"' && quoted[|quoted| - 1] == '"';
      TextLine(key, quoted, rest, state, json);
      assert ([FieldLine(key, quoted)] + rest)[1..] == rest;
      assert json(quoted) == Some(value.value);
    }
  }

  lemma {:induction false} HeadIsSolid(strings: seq<string>, multiline: bool)
    ensures Solid(ArrayHead(strings, multiline))
  {
    hide Row;
    var head := ArrayHead(strings, multiline);
    assert head[0] == '[' && (head[|head| - 1] == '[' || head[|head| - 1] == ']');
  }

  lemma {:induction false} ListLine(head: string, tail: seq<string>, state: State, json: string -> Option<string>)
    requires Solid(head) && state.current.Some? && state.current.value.dependencies.None?
    ensures Line(Strip(FieldLine("dependencies", head)), tail, state, json) ==
            var listed := ArrayValue(head, tail, json);
            if listed.Err? then Err(listed.error)
            else Ok((state.(current := Some(state.current.value.(dependencies := Some(listed.value.0)))), listed.value.1))
  {
    hide Strip, Set, LockVersion, ArrayValue, FieldLine, IndexOf;
    FieldParts("dependencies", head);
  }

  lemma {:induction false} ParseList(strings: Option<seq<string>>, multiline: bool, rest: seq<string>, state: State,
                                     json: string -> Option<string>)
    requires strings.Some? ==> AllPlain(strings.value)
    requires JsonReads(json) && state.current.Some? && state.current.value.dependencies.None?
    ensures Parse(ListLines(strings, multiline) + rest, state, json) ==
            if strings.Some? && !NoBracket(strings.value) then Err("SOURCE_MALFORMED")
            else Parse(rest, state.(current := Some(state.current.value.(dependencies := strings))), json)
  {
    hide Strip, Line, FieldLine, AllPlain, NoBracket, ArrayValue, JsonReads, ArrayLines, ArrayHead, Close;
    if strings.None? {
      assert [] + rest == rest;
      assert state.(current := Some(state.current.value.(dependencies := None))) == state;
    } else {
      var head, more := ArrayHead(strings.value, multiline), ArrayLines(strings.value, multiline);
      var line := FieldLine("dependencies", head);
      HeadIsSolid(strings.value, multiline);
      ListLine(head, more + rest, state, json);
      Associative([line], more, rest);
      assert ([line] + (more + rest))[1..] == more + rest;
      ArrayRoundTrip(strings.value, multiline, rest, json);
    }
  }

  lemma {:induction false} ParseFields(p: Package, multiline: bool, rest: seq<string>, state: State,
                                       json: string -> Option<string>)
    requires PlainPackage(p) && JsonReads(json) && state.current == Some(NOTHING)
    ensures Parse(FieldLines(p, multiline) + rest, state, json) ==
            if BracketlessPackage(p) then Parse(rest, state.(current := Some(p)), json) else Err("SOURCE_MALFORMED")
  {
    hide Parse, JsonReads, TextLines, ListLines, Plain, AllPlain, NoBracket;
    var s0 := state;
    var s1 := state.(current := Some(Package(p.name, None, None, None, None)));
    var s2 := state.(current := Some(Package(p.name, p.version, None, None, None)));
    var s3 := state.(current := Some(Package(p.name, p.version, p.source, None, None)));
    var s4 := state.(current := Some(Package(p.name, p.version, p.source, p.checksum, None)));
    assert s0 == state.(current := Some(Package(None, None, None, None, None)));
    var l5 := ListLines(p.dependencies, multiline);
    var l4, l3, l2, l1 := TextLines("checksum", p.checksum), TextLines("source", p.source), TextLines("version", p.version), TextLines("name", p.name);
    Associative(l1, l2 + (l3 + (l4 + l5)), rest);
    Associative(l2, l3 + (l4 + l5), rest);
    Associative(l3, l4 + l5, rest);
    Associative(l4, l5, rest);
    ParseText("name", p.name, l2 + (l3 + (l4 + (l5 + rest))), s0, json);
    ParseText("version", p.version, l3 + (l4 + (l5 + rest)), s1, json);
    ParseText("source", p.source, l4 + (l5 + rest), s2, json);
    ParseText("checksum", p.checksum, l5 + rest, s3, json);
    ParseList(p.dependencies, multiline, rest, s4, json);
  }

  function Total(state: State): seq<Package> {
    state.packages + (if state.current.Some? then [state.current.value] else [])
  }

  lemma {:induction false} ParsePackage(p: Package, multiline: bool, rest: seq<string>, state: State,
                                        json: string -> Option<string>)
    requires PlainPackage(p) && JsonReads(json)
    ensures Parse(PackageLines(p, multiline) + rest, state, json) ==
            if state.current.Some? && |state.packages| >= MAX_PACKAGES then Err("SOURCE_OVERSIZE")
            else if !BracketlessPackage(p) then Err("SOURCE_MALFORMED")
            else Parse(rest, State(state.lockVersion, Total(state), Some(p)), json)
  {
    hide JsonReads, FieldLines, PlainPackage, BracketlessPackage, Strip, LockVersion;
    var fields := FieldLines(p, multiline);
    var after := fields + ([""] + rest);
    Associative(["[[package]]"], fields + [""], rest);
    Associative(fields, [""], rest);
    assert (["[[package]]"] + after)[1..] == after;
    assert Strip("[[package]]") == "[[package]]" by { StripSolid("[[package]]"); }
    var entered := State(state.lockVersion, Total(state), Some(NOTHING));
    assert state.packages + [] == state.packages;
    ParseFields(p, multiline, [""] + rest, entered, json);
    assert ([""] + rest)[1..] == rest;
    assert Strip("") == "" by { StripOfBlank(""); }
  }

  lemma {:induction false} ParseBody(packages: seq<(Package, bool)>, state: State, json: string -> Option<string>)
    requires PlainPackages(packages) && JsonReads(json) && state.lockVersion == Some(4)
    requires state.current.None? ==> state.packages == []
    requires |state.packages| <= MAX_PACKAGES
    ensures var r := Parse(BodyLines(packages), state, json);
      var all := Total(state) + Records(packages);
      && (r.Ok? <==> Bracketless(packages) && 1 <= |all| <= MAX_PACKAGES)
      && (r.Ok? ==> r.value == all)
    decreases |packages|
  {
    hide JsonReads, PackageLines, PlainPackage, BracketlessPackage;
    if packages == [] {
      assert Total(state) + [] == Total(state);
    } else {
      var p := packages[0].0;
      ParsePackage(p, packages[0].1, BodyLines(packages[1..]), state, json);
      if !(state.current.Some? && |state.packages| >= MAX_PACKAGES) && BracketlessPackage(p) {
        ParseBody(packages[1..], State(state.lockVersion, Total(state), Some(p)), json);
        Associative(Total(state), [p], Records(packages[1..]));
      }
    }
  }

  lemma {:induction false} ReadsVersionFour()
    ensures LockVersion("version = 4") == Some(4)
  {
    var s := "version = 4";
    assert s[7..] == " = 4";
    assert " = 4"[1..] == "= 4";
    assert LStrip(" = 4") == "= 4";
    assert "= 4"[1..] == " 4" && " 4"[1..] == "4";
    assert LStrip(" 4") == "4";
    assert "4"[1..] == "" && "4"[..0] == "";
    assert AllDigits("4");
    assert Value("4") == 4;
  }

  lemma {:induction false} RStripKeepsHead(s: string)
    requires s != [] && !IsSpace(s[0])
    ensures RStrip(s) != [] && RStrip(s)[0] == s[0]
  {
    if IsSpace(s[|s| - 1]) { RStripKeepsHead(s[..|s| - 1]); }
  }

  lemma {:induction false} ParseHeader(comments: seq<string>, rest: seq<string>, json: string -> Option<string>)
    ensures Parse(HeaderLines(comments) + rest, START, json) == Parse(rest, State(Some(4), [], None), json)
  {
    hide LockVersion, RStrip;
    if comments == [] {
      hide Strip;
      var after := [""] + rest;
      assert HeaderLines(comments) + rest == ["version = 4"] + after;
      assert (["version = 4"] + after)[1..] == after && after[1..] == rest;
      assert Strip("version = 4") == "version = 4" by { StripSolid("version = 4"); }
      assert Strip("") == "" by { StripOfBlank(""); }
      ReadsVersionFour();
    } else {
      var line, after := "#" + comments[0], HeaderLines(comments[1..]) + rest;
      Associative([line], HeaderLines(comments[1..]), rest);
      assert ([line] + after)[1..] == after;
      RStripKeepsHead(line);
      ParseHeader(comments[1..], rest, json);
    }
  }

  // ---------------------------------------------------------------- every printed line is one line

  ghost predicate AllOneLine(lines: seq<string>) {
    forall line :: line in lines ==> OneLine(line)
  }

  lemma {:induction false} RowIsOneLine(strings: seq<string>)
    requires AllPlain(strings)
    ensures OneLine(Row(strings))
  {
    if |strings| > 1 { RowIsOneLine(strings[1..]); }
  }

  lemma {:induction false} ItemsAreOneLine(strings: seq<string>)
    requires AllPlain(strings)
    ensures AllOneLine(ItemLines(strings))
  {
    if strings != [] {
      ItemsAreOneLine(strings[1..]);
      assert OneLine(" " + (Quoted(strings[0]) + ","));
    }
  }

  lemma {:induction false} ListIsOneLine(strings: Option<seq<string>>, multiline: bool)
    requires strings.Some? ==> AllPlain(strings.value)
    ensures AllOneLine(ListLines(strings, multiline))
  {
    hide AllPlain, Row, ItemLines;
    if strings.Some? {
      RowIsOneLine(strings.value);
      ItemsAreOneLine(strings.value);
      assert OneLine(FieldLine("dependencies", ArrayHead(strings.value, multiline)));
    }
  }

  lemma {:induction false} PackageIsOneLine(p: Package, multiline: bool)
    requires PlainPackage(p)
    ensures AllOneLine(PackageLines(p, multiline))
  {
    hide ListLines, TextLines, AllPlain, PlainField;
    ListIsOneLine(p.dependencies, multiline);
    TextIsOneLine("name", p.name);
    TextIsOneLine("version", p.version);
    TextIsOneLine("source", p.source);
    TextIsOneLine("checksum", p.checksum);
    assert OneLine("name") && OneLine("version") && OneLine("source") && OneLine("checksum");
    assert OneLine("[[package]]") && OneLine("");
  }

  lemma {:induction false} TextIsOneLine(key: string, value: Option<string>)
    requires PlainField(value)
    ensures OneLine(key) ==> AllOneLine(TextLines(key, value))
  {
    if value.Some? && OneLine(key) { assert OneLine(FieldLine(key, Quoted(value.value))); }
  }

  lemma {:induction false} BodyIsOneLine(packages: seq<(Package, bool)>)
    requires PlainPackages(packages)
    ensures AllOneLine(BodyLines(packages))
  {
    hide PackageLines, PlainPackage, OneLine;
    if packages != [] {
      PackageIsOneLine(packages[0].0, packages[0].1);
      BodyIsOneLine(packages[1..]);
    }
  }

  lemma {:induction false} HeaderIsOneLine(comments: seq<string>)
    requires AllOneLine(comments)
    ensures AllOneLine(HeaderLines(comments))
  {
    if comments != [] {
      assert comments[0] in comments;
      assert comments == [comments[0]] + comments[1..];
      HeaderIsOneLine(comments[1..]);
      assert OneLine("#" + comments[0]);
    } else {
      assert OneLine("version = 4") && OneLine("");
    }
  }

  /** The reader undoes the printer: a printed lockfile is accepted exactly when it has between one
      and the maximal number of packages and no dependency holds a closing bracket, and then the
      records come back in order. */
  lemma {:induction false} LockRoundTrip(comments: seq<string>, packages: seq<(Package, bool)>,
                                         json: string -> Option<string>)
    requires AllOneLine(comments) && PlainPackages(packages) && JsonReads(json)
    ensures var r := Parse(SplitLines(PrintLock(comments, packages)), START, json);
      && (r.Ok? <==> Bracketless(packages) && 1 <= |packages| <= MAX_PACKAGES)
      && (r.Ok? ==> r.value == Records(packages))
  {
    hide Parse, JsonReads, PlainPackages, BodyLines, HeaderLines, Bracketless, SplitLines, JoinLines, OneLine, Records;
    var header, body := HeaderLines(comments), BodyLines(packages);
    HeaderIsOneLine(comments);
    BodyIsOneLine(packages);
    assert forall i :: 0 <= i < |header + body| ==> (header + body)[i] in header + body;
    SplitJoin(header + body);
    ParseHeader(comments, body, json);
    ParseBody(packages, State(Some(4), [], None), json);
    assert Total(State(Some(4), [], None)) + Records(packages) == Records(packages);
    RecordsLength(packages);
  }

  lemma {:induction false} RecordsLength(packages: seq<(Package, bool)>)
    ensures |Records(packages)| == |packages|
  {
    if packages != [] { RecordsLength(packages[1..]); }
  }
}
