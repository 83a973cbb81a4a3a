/** What the reader of Cargo.lock accepts, without the functions it scans with: the version line,
    the array of strings, the lines an array takes in, the field lines, and the end of the file. */
module CargoLockMeaning {
  import opened Wrappers
  import opened Sequences
  import opened PythonText
  import opened CargoLock

  // ---------------------------------------------------------------- the version line

  /** The word, an equals sign between any spaces, and at least one digit. */
  ghost predicate IsVersionLine(s: string, n: nat) {
    exists i, j ::
      7 <= i < j < |s| && s[..7] == "version" && Blank(s[7..i]) && s[i] == '=' && Blank(s[i + 1..j]) &&
      AllDigits(s[j..]) && Value(s[j..]) == n
  }

  lemma {:induction false} LStripTo(blank: string, rest: string)
    requires Blank(blank) && rest != [] && !IsSpace(rest[0])
    ensures LStrip(blank + rest) == rest
  {
    if blank == [] {
      assert blank + rest == rest;
    } else {
      assert (blank + rest)[1..] == blank[1..] + rest;
      LStripTo(blank[1..], rest);
    }
  }

  /** What `LStrip` leaves of a suffix is a suffix. */
  lemma {:induction false} LStripOfSuffix(s: string, from: nat) returns (i: nat)
    requires from <= |s|
    ensures from <= i <= |s| && LStrip(s[from..]) == s[i..] && Blank(s[from..i])
    ensures i < |s| ==> !IsSpace(s[i])
    decreases |s| - from
  {
    if from < |s| && IsSpace(s[from]) {
      i := LStripOfSuffix(s, from + 1);
      DropDrop(s, from, 1);
      assert s[from..i][1..] == s[from + 1..i];
    } else {
      i := from;
    }
  }

  lemma {:induction false} VersionIsRead(s: string, i: nat, j: nat)
    requires 7 <= i < j < |s| && s[..7] == "version" && Blank(s[7..i]) && s[i] == '=' && Blank(s[i + 1..j])
    requires AllDigits(s[j..])
    ensures LockVersion(s) == Some(Value(s[j..]))
  {
    hide Value, Blank, LStrip;
    var word, blank := s[7..i], s[i + 1..j];
    assert s[7..] == word + s[i..];
    LStripTo(word, s[i..]);
    assert s[i..][1..] == blank + s[j..];
    assert s[j] in s[j..];
    LStripTo(blank, s[j..]);
  }

  lemma {:induction false} ReadIsVersion(s: string)
    requires LockVersion(s).Some?
    ensures IsVersionLine(s, LockVersion(s).value)
  {
    hide Value, Blank, LStrip, AllDigits;
    var i := LStripOfSuffix(s, 7);
    DropDrop(s, i, 1);
    var j := LStripOfSuffix(s, i + 1);
    assert s[i..][0] == s[i];
  }

  /** The reader takes a line for the version exactly when it is one. */
  lemma {:induction false} VersionMeaning(s: string, n: nat)
    ensures LockVersion(s) == Some(n) <==> IsVersionLine(s, n)
  {
    hide LockVersion, Value, Blank, AllDigits;
    if IsVersionLine(s, n) {
      var i, j :|
        7 <= i < j < |s| && s[..7] == "version" && Blank(s[7..i]) && s[i] == '=' && Blank(s[i + 1..j]) &&
        AllDigits(s[j..]) && Value(s[j..]) == n;
      VersionIsRead(s, i, j);
    }
    if LockVersion(s) == Some(n) { ReadIsVersion(s); }
  }

  // ---------------------------------------------------------------- the array

  /** Between the quotes: any characters but a quote and a backslash, or a backslash with any
      character but a line feed. */
  ghost predicate IsBody(s: string) {
    s == [] ||
    (s[0] != '"' && s[0] != '\\' && IsBody(s[1..])) ||
    (|s| >= 2 && s[0] == '\\' && s[1] != '\n' && IsBody(s[2..]))
  }

  ghost predicate IsLiteral(s: string) {
    |s| >= 2 && s[0] == '"' && IsBody(s[1..|s| - 1]) && s[|s| - 1] == '"'
  }

  /** The literals in order, with only spaces and commas around them. */
  ghost predicate Lists(inner: string, literals: seq<string>)
    decreases |inner|
  {
    if inner == [] then literals == []
    else if IsSpace(inner[0]) || inner[0] == ',' then Lists(inner[1..], literals)
    else
      literals != [] && IsLiteral(literals[0]) && literals[0] <= inner &&
      Lists(inner[|literals[0]|..], literals[1..])
  }

  /** The strings the literals stand for. */
  ghost predicate Stand(literals: seq<string>, values: seq<string>, json: string -> Option<string>) {
    |literals| == |values| && forall i :: 0 <= i < |literals| ==> json(literals[i]) == Some(values[i])
  }

  lemma {:induction false} BodyMeaning(s: string, n: nat)
    requires n < |s|
    ensures BodyLength(s) == Some(n) <==> s[n] == '"' && IsBody(s[..n])
    decreases n
  {
    if s[0] == '"' {
      if n > 0 { assert s[..n][0] == '"'; }
    } else if s[0] == '\\' {
      if n > 0 { assert s[..n][0] == '\\'; }
      if n >= 2 {
        assert s[..n][1] == s[1] && s[..n][2..] == s[2..][..n - 2];
        BodyMeaning(s[2..], n - 2);
      }
    } else if n > 0 {
      assert s[..n][0] == s[0] && s[..n][1..] == s[1..][..n - 1];
      BodyMeaning(s[1..], n - 1);
    }
  }

  /** A literal at the front is the one the scan finds. */
  lemma {:induction false} LiteralIsFound(s: string, literal: string)
    requires IsLiteral(literal) && literal <= s
    ensures BodyLength(s[1..]) == Some(|literal| - 2)
  {
    var n := |literal| - 2;
    assert literal == s[..n + 2];
    assert s[1..][..n] == literal[1..n + 1];
    BodyMeaning(s[1..], n);
  }

  lemma {:induction false} FoundIsLiteral(s: string)
    requires s != [] && s[0] == '"' && BodyLength(s[1..]).Some?
    ensures IsLiteral(s[..BodyLength(s[1..]).value + 2])
  {
    var n := BodyLength(s[1..]).value;
    BodyMeaning(s[1..], n);
    assert s[..n + 2][1..n + 1] == s[1..][..n];
  }

  /** One step of the scan at a quote. */
  lemma {:induction false} QuoteMeaning(inner: string, literals: seq<string>)
    requires inner != [] && inner[0] == '"'
    ensures var n := BodyLength(inner[1..]);
      literals != [] && IsLiteral(literals[0]) && literals[0] <= inner <==>
      n.Some? && literals != [] && literals[0] == inner[..n.value + 2]
  {
    hide BodyLength, IsLiteral;
    if literals != [] && IsLiteral(literals[0]) && literals[0] <= inner {
      LiteralIsFound(inner, literals[0]);
      assert |literals[0]| >= 2 by { TwoQuotes(literals[0]); }
    }
    if BodyLength(inner[1..]).Some? { FoundIsLiteral(inner); }
  }

  lemma {:induction false} TwoQuotes(s: string)
    requires IsLiteral(s)
    ensures |s| >= 2
  {
  }

  /** The scan finds a list of literals and leaves only spaces exactly when the text lists them. */
  lemma {:induction false} ListMeaning(inner: string, literals: seq<string>)
    ensures Literals(inner) == literals && Blank(Residue(inner)) <==> Lists(inner, literals)
    decreases |inner|
  {
    hide BodyLength, IsLiteral;
    if inner == [] {
    } else if inner[0] == '"' {
      QuoteMeaning(inner, literals);
      var n := BodyLength(inner[1..]);
      if n.Some? {
        var rest := inner[n.value + 2..];
        assert ([inner[..n.value + 2]] + Literals(rest))[1..] == Literals(rest);
        if literals != [] {
          ListMeaning(rest, literals[1..]);
          assert literals == [literals[0]] + literals[1..];
        }
      } else {
        assert ([inner[0]] + Residue(inner[1..]))[0] == '"';
      }
    } else {
      ListMeaning(inner[1..], literals);
      assert ([inner[0]] + Residue(inner[1..]))[1..] == Residue(inner[1..]);
      LiteralHasQuote(inner, literals);
    }
  }

  lemma {:induction false} LiteralHasQuote(inner: string, literals: seq<string>)
    requires inner != [] && inner[0] != '"'
    ensures literals != [] && IsLiteral(literals[0]) ==> !(literals[0] <= inner)
  {
  }

  lemma {:induction false} ValuesMeaning(literals: seq<string>, values: seq<string>, json: string -> Option<string>)
    ensures ReadAll(literals, json) == Some(values) <==> Stand(literals, values, json)
  {
    if literals != [] {
      if values != [] {
        ValuesMeaning(literals[1..], values[1..], json);
        assert values == [values[0]] + values[1..];
        assert Stand(literals, values, json) ==> Stand(literals[1..], values[1..], json);
        if ReadAll(literals, json).Some? {
          assert ReadAll(literals, json).value[1..] == ReadAll(literals[1..], json).value;
        }
        if json(literals[0]) == Some(values[0]) && Stand(literals[1..], values[1..], json) {
          forall i | 0 <= i < |literals| ensures json(literals[i]) == Some(values[i]) {
            if i > 0 { assert literals[1..][i - 1] == literals[i] && values[1..][i - 1] == values[i]; }
          }
        }
      }
    }
  }

  lemma {:induction false} BlankMeaning(s: string)
    ensures Strip(s) == "" <==> Blank(s)
  {
    hide LStrip, RStrip, Blank;
    var i := LStripOfSuffix(s, 0);
    assert s[0..] == s;
    if i < |s| {
      RStripFront(s[i..]);
      if Blank(s) { StripOfBlank(s); }
    } else {
      assert s[0..i] == s;
      StripOfBlank(s);
    }
  }

  lemma {:induction false} RStripFront(s: string)
    requires s != [] && !IsSpace(s[0])
    ensures RStrip(s) != []
  {
    if IsSpace(s[|s| - 1]) { RStripFront(s[..|s| - 1]); }
  }

  ghost function ReadBetween(inner: string, after: string, json: string -> Option<string>): Result<seq<string>> {
    var values := ReadAll(Literals(inner), json);
    if !Blank(after) || values.None? || !Blank(Residue(inner)) then Err("SOURCE_MALFORMED") else Ok(values.value)
  }

  lemma {:induction false} ReadAt(text: string, open: nat, close: nat, json: string -> Option<string>)
    requires open < close < |text| && IndexOf(text, '[') == open && IndexOf(text, ']') == close
    ensures ReadArray(text, json) == ReadBetween(text[open + 1..close], text[close + 1..], json)
  {
    hide Literals, Residue, ReadAll, Strip, Blank, IndexOf;
    BlankMeaning(text[close + 1..]);
    BlankMeaning(Residue(text[open + 1..close]));
    assert IndexOf(text, '[') < |text| <==> '[' in text;
    assert IndexOf(text, ']') < |text| <==> ']' in text;
  }

  lemma {:induction false} FrontShape(before: string, inner: string, tail: string)
    requires ']' !in before && ']' !in inner
    ensures before + (['['] + (inner + tail)) == (before + (['['] + inner)) + tail
    ensures ']' !in before + (['['] + inner)
    ensures |before + (['['] + inner)| == |before| + 1 + |inner|
  {
    Associative(['['], inner, tail);
    Associative(before, ['['] + inner, tail);
  }

  lemma {:induction false} Between(front: string, before: string, inner: string, tail: string)
    requires front == before + (['['] + inner)
    ensures (front + tail)[|before| + 1..|front|] == inner
  {
  }

  lemma {:induction false} ReadParts(before: string, inner: string, after: string, json: string -> Option<string>)
    requires '[' !in before && ']' !in before && ']' !in inner
    ensures var text := before + (['['] + (inner + ([']'] + after)));
      ']' in text && ReadArray(text, json) == ReadBetween(inner, after, json)
  {
    hide ReadArray, ReadBetween, IndexOf;
    var tail := [']'] + after;
    var text := before + (['['] + (inner + tail));
    var front := before + (['['] + inner);
    IndexAfter(before, '[', inner + tail);
    FrontShape(before, inner, tail);
    IndexAfter(front, ']', after);
    Between(front, before, inner, tail);
    assert text[|front|] == ']';
    assert text[|front| + 1..] == after;
    ReadAt(text, |before|, |front|, json);
  }

  /** The array in a text, by its first closing bracket: what follows is blank, and between the first
      opening bracket and it stand the literals; whatever stands before the opening bracket is ignored. */
  lemma {:induction false} ArrayMeaning(before: string, inner: string, after: string, values: seq<string>,
                                        json: string -> Option<string>)
    requires '[' !in before && ']' !in before && ']' !in inner
    ensures var text := before + (['['] + (inner + ([']'] + after)));
      && ']' in text
      && (ReadArray(text, json) == Ok(values) <==>
          Blank(after) && exists literals :: Lists(inner, literals) && Stand(literals, values, json))
      && (ReadArray(text, json).Err? ==> ReadArray(text, json).error == "SOURCE_MALFORMED")
  {
    hide Literals, Residue, ReadAll, Blank, Lists, Stand, ReadArray;
    ReadParts(before, inner, after, json);
    ListMeaning(inner, Literals(inner));
    ValuesMeaning(Literals(inner), values, json);
    forall literals | Lists(inner, literals) ensures literals == Literals(inner) {
      ListMeaning(inner, literals);
    }
  }

  /** A text that closes before it opens is refused, and with a stray exception unless something
      follows the bracket. */
  lemma {:induction false} ClosedBeforeOpened(before: string, after: string, json: string -> Option<string>)
    requires '[' !in before && ']' !in before
    ensures ']' in before + ([']'] + after)
    ensures ReadArray(before + ([']'] + after), json) == Err(if Blank(after) then "ValueError" else "SOURCE_MALFORMED")
  {
    hide Literals, Residue, ReadAll, Strip, IndexOf;
    var text := before + ([']'] + after);
    assert text[|before|] == ']';
    IndexAfter(before, ']', after);
    assert text[|before| + 1..] == after;
    BlankMeaning(after);
    if Blank(after) { BlankHasNoBracket(after); }
  }

  lemma {:induction false} BlankHasNoBracket(s: string)
    requires Blank(s)
    ensures '[' !in s
  {
    if s != [] {
      BlankHasNoBracket(s[1..]);
      assert s == [s[0]] + s[1..];
    }
  }

  // ---------------------------------------------------------------- the lines an array takes in

  function Gathered(lines: seq<string>): string {
    if lines == [] then "" else ("\n" + Strip(lines[0])) + Gathered(lines[1..])
  }

  ghost predicate NoneCloses(lines: seq<string>) {
    forall line :: line in lines ==> ']' !in Strip(line)
  }

  /** The lines taken in end with the first that closes the array. */
  ghost predicate Takes(value: string, lines: seq<string>, taken: nat) {
    taken <= |lines| &&
    if taken == 0 then ']' in value
    else ']' !in value && NoneCloses(lines[..taken - 1]) && ']' in Strip(lines[taken - 1])
  }

  /** Lines are taken in up to the first with a closing bracket, none when the value has one. */
  lemma {:induction false} AssembleMeaning(value: string, lines: seq<string>)
    ensures Assemble(value, lines).None? <==> ']' !in value && NoneCloses(lines)
    ensures Assemble(value, lines).Some? ==>
              var (text, left) := Assemble(value, lines).value;
              var taken := |lines| - |left|;
              taken >= 0 && left == lines[taken..] && text == value + Gathered(lines[..taken]) && Takes(value, lines, taken)
    decreases |lines|
  {
    hide Strip;
    if ']' in value {
      assert lines[..0] == [] && value + "" == value;
    } else if lines != [] {
      var line := "\n" + Strip(lines[0]);
      assert ']' in value + line <==> ']' in Strip(lines[0]);
      AssembleMeaning(value + line, lines[1..]);
      assert lines == [lines[0]] + lines[1..];
      assert NoneCloses(lines) <==> ']' !in Strip(lines[0]) && NoneCloses(lines[1..]);
      if Assemble(value, lines).Some? {
        var left := Assemble(value, lines).value.1;
        var taken := |lines| - |left|;
        assert lines[..taken][0] == lines[0] && lines[..taken][1..] == lines[1..][..taken - 1];
        Associative(value, line, Gathered(lines[1..][..taken - 1]));
        if taken > 1 {
          assert lines[..taken - 1] == [lines[0]] + lines[1..][..taken - 2];
        }
      }
    }
  }

  lemma {:induction false} TakesOnce(value: string, lines: seq<string>, m: nat, n: nat)
    requires Takes(value, lines, m) && Takes(value, lines, n)
    ensures m == n
  {
    hide Strip, NoneCloses;
    if m > 0 { NoneClosesAt(lines, m - 1); }
    if n > 0 { NoneClosesAt(lines, n - 1); }
  }

  lemma {:induction false} NoneClosesAt(lines: seq<string>, n: nat)
    requires n <= |lines|
    ensures NoneCloses(lines[..n]) <==> forall i :: 0 <= i < n ==> ']' !in Strip(lines[i])
  {
    hide Strip;
    if NoneCloses(lines[..n]) {
      forall i | 0 <= i < n ensures ']' !in Strip(lines[i]) { assert lines[..n][i] in lines[..n]; }
    }
  }

  /** The value of a field that opens an array: refused when no line closes it, and otherwise the array
      of the text taken in, with the lines behind it left over. */
  lemma {:induction false} ValueMeaning(value: string, lines: seq<string>, taken: nat, json: string -> Option<string>)
    ensures ']' !in value && NoneCloses(lines) ==> ArrayValue(value, lines, json) == Err("SOURCE_MALFORMED")
    ensures Takes(value, lines, taken) ==>
              var text := value + Gathered(lines[..taken]);
              ']' in text &&
              match ReadArray(text, json)
              case Ok(values) => ArrayValue(value, lines, json) == Ok((values, lines[taken..]))
              case Err(error) => ArrayValue(value, lines, json) == Err(error)
  {
    hide Strip, ReadArray, Gathered, Assemble;
    AssembleMeaning(value, lines);
    if Takes(value, lines, taken) {
      assert Assemble(value, lines).Some? by {
        if taken > 0 { assert lines[taken - 1] in lines; }
      }
      TakesOnce(value, lines, |lines| - |Assemble(value, lines).value.1|, taken);
    }
  }

  // ---------------------------------------------------------------- the lines of a package

  /** A field line, key and value as they stand around the first equals sign, by each key: the value
      goes into the field of that name and no other, a second one is refused, and so is any other key. */
  lemma {:induction false} FieldMeaning(left: string, right: string, rest: seq<string>, state: State,
                                        json: string -> Option<string>)
    requires '=' !in left && left != [] && left[0] != '#' && left + ("=" + right) != "[[package]]"
    requires state.current.Some?
    ensures var r := Line(left + ("=" + right), rest, state, json);
      var p, key, value := state.current.value, Strip(left), Strip(right);
      && (key !in ["name", "version", "source", "checksum", "dependencies"] ==> r == Err("SOURCE_MALFORMED"))
      && (key == "name" ==> r == FieldRead(p.name, json(value), v => p.(name := v), rest, state))
      && (key == "version" ==> r == FieldRead(p.version, json(value), v => p.(version := v), rest, state))
      && (key == "source" ==> r == FieldRead(p.source, json(value), v => p.(source := v), rest, state))
      && (key == "checksum" ==> r == FieldRead(p.checksum, json(value), v => p.(checksum := v), rest, state))
      && (key == "dependencies" && p.dependencies.Some? ==> r == Err("SOURCE_DUPLICATE"))
      && (key == "dependencies" && p.dependencies.None? ==>
            var listed := ArrayValue(value, rest, json);
            && (listed.Err? ==> r == Err(listed.error))
            && (listed.Ok? ==> r == Ok((state.(current := Some(p.(dependencies := Some(listed.value.0)))), listed.value.1))))
  {
    hide Strip, LockVersion, ArrayValue, IndexOf;
    var line := left + ("=" + right);
    assert line[|left|] == '=';
    IndexAfter(left, '=', right);
    assert line[..|left|] == left && line[|left| + 1..] == right;
  }

  /** The outcome of a text field. */
  ghost function FieldRead(field: Option<string>, text: Option<string>, put: Option<string> -> Package,
                           rest: seq<string>, state: State): Result<(State, seq<string>)> {
    if field.Some? then Err("SOURCE_DUPLICATE")
    else if text.None? then Err("SOURCE_MALFORMED")
    else Ok((state.(current := Some(put(text))), rest))
  }

  /** The other lines: blank ones and comments do nothing, a header closes the package before it within
      the limit, the version stands once before the first package, and a field has an equals sign. */
  lemma {:induction false} OtherLines(s: string, rest: seq<string>, state: State, json: string -> Option<string>)
    ensures var r := Line(s, rest, state, json);
      && (s == "" || s[0] == '#' ==> r == Ok((state, rest)))
      && (s == "[[package]]" && state.current.None? ==> r == Ok((State(state.lockVersion, state.packages, Some(NOTHING)), rest)))
      && (s == "[[package]]" && state.current.Some? && |state.packages| < 16384 ==>
            r == Ok((State(state.lockVersion, state.packages + [state.current.value], Some(NOTHING)), rest)))
      && (s == "[[package]]" && state.current.Some? && |state.packages| >= 16384 ==> r == Err("SOURCE_OVERSIZE"))
      && (s != "" && s[0] != '#' && s != "[[package]]" && state.current.Some? && '=' !in s ==> r == Err("SOURCE_MALFORMED"))
  {
  }

  lemma {:induction false} VersionLine(s: string, rest: seq<string>, state: State, json: string -> Option<string>)
    requires s != "" && s[0] != '#' && s != "[[package]]" && state.current.None?
    ensures var r := Line(s, rest, state, json);
      && (r.Err? ==> r.error == "SOURCE_MALFORMED")
      && (r.Ok? <==> state.lockVersion.None? && exists n: nat :: IsVersionLine(s, n))
      && (forall n: nat :: r.Ok? && IsVersionLine(s, n) ==> r == Ok((State(Some(n), state.packages, None), rest)))
  {
    hide LockVersion, IsVersionLine;
    forall n: nat ensures LockVersion(s) == Some(n) <==> IsVersionLine(s, n) {
      VersionMeaning(s, n);
    }
    if LockVersion(s).Some? { assert IsVersionLine(s, LockVersion(s).value); }
  }

  /** The end of the file: between 1 and 16384 packages under version 4, or the first failure. */
  lemma {:induction false} EndMeaning(state: State)
    requires |state.packages| <= 16384 && (state.current.None? ==> state.packages == [])
    ensures var all := state.packages + (if state.current.Some? then [state.current.value] else []);
      && (forall r :: Close(state) == Ok(r) <==> state.lockVersion == Some(4) && r == all && 1 <= |all| <= 16384)
      && (|all| > 16384 ==> Close(state) == Err("SOURCE_OVERSIZE"))
      && (|all| <= 16384 && state.lockVersion != Some(4) ==> Close(state) == Err("LOCK_VERSION_UNSUPPORTED"))
      && (|all| == 0 && state.lockVersion == Some(4) ==> Close(state) == Err("SOURCE_MALFORMED"))
  {
    assert state.packages + [] == state.packages;
  }
}
