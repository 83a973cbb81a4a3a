/** The hand-written reader of Cargo.lock (dependency_evidence.py), against a printer of version 4
    lockfiles.  `json` is what `json.loads` makes of a string literal, None when it is refused or
    not a string. */
module CargoLock {
  import opened Limits
  import opened Wrappers
  import opened Sequences
  import opened PythonText

  datatype Package = Package(name: Option<string>, version: Option<string>, source: Option<string>, checksum: Option<string>,
                             dependencies: Option<seq<string>>)

  const NOTHING := Package(None, None, None, None, None)

  // ---------------------------------------------------------------- arrays of strings

  /** Length of a literal's body up to its closing quote: `\` takes the next character with it,
      unless that is a line feed. */
  function BodyLength(s: string): (n: Option<nat>)
    ensures n.Some? ==> n.value < |s|
  {
    if s == [] then None
    else if s[0] == '"' then Some(0)
    else if s[0] == '\\' then
      if |s| < 2 || s[1] == '\n' then None
      else
        var n := BodyLength(s[2..]);
        if n.None? then None else Some(n.value + 2)
    else
      var n := BodyLength(s[1..]);
      if n.None? then None else Some(n.value + 1)
  }

  /** `finditer`: the literals from left to right. */
  function Literals(s: string): seq<string>
    decreases |s|
  {
    if s == [] then []
    else
      var n := if s[0] == '"' then BodyLength(s[1..]) else None;
      if n.Some? then [s[..n.value + 2]] + Literals(s[n.value + 2..]) else Literals(s[1..])
  }

  /** `sub` and `replace`: what remains without the literals and without commas. */
  function Residue(s: string): string
    decreases |s|
  {
    if s == [] then []
    else
      var n := if s[0] == '"' then BodyLength(s[1..]) else None;
      if n.Some? then Residue(s[n.value + 2..])
      else if s[0] == ',' then Residue(s[1..])
      else [s[0]] + Residue(s[1..])
  }

  function ReadAll(literals: seq<string>, json: string -> Option<string>): Option<seq<string>> {
    if literals == [] then Some([])
    else
      var first := json(literals[0]);
      var rest := ReadAll(literals[1..], json);
      if first.None? || rest.None? then None else Some([first.value] + rest.value)
  }

  /** Further lines are taken in until a closing bracket is there; also gives the lines left over. */
  function Assemble(assembled: string, rest: seq<string>): (r: Option<(string, seq<string>)>)
    ensures r.Some? ==> ']' in r.value.0
    decreases |rest|
  {
    if ']' in assembled then Some((assembled, rest))
    else if rest == [] then None
    else Assemble(assembled + ("\n" + Strip(rest[0])), rest[1..])
  }

  /** The strings of an assembled array. */
  function ReadArray(assembled: string, json: string -> Option<string>): Result<seq<string>>
    requires ']' in assembled
  {
    var close := IndexOf(assembled, ']');
    if Strip(assembled[close + 1..]) != "" then Err("SOURCE_MALFORMED")
    else if '[' !in assembled then Err("ValueError")
    else
      var open := IndexOf(assembled, '[');
      var inner := if open + 1 <= close then assembled[open + 1..close] else "";
      var values := ReadAll(Literals(inner), json);
      if values.None? || Strip(Residue(inner)) != "" then Err("SOURCE_MALFORMED") else Ok(values.value)
  }

  /** `parse_toml_string_array` on the value and the lines after it. */
  function ArrayValue(value: string, rest: seq<string>,
                      json: string -> Option<string>): Result<(seq<string>, seq<string>)> {
    var assembled := Assemble(value, rest);
    if assembled.None? then Err("SOURCE_MALFORMED")
    else
      var values := ReadArray(assembled.value.0, json);
      if values.Err? then Err(values.error) else Ok((values.value, assembled.value.1))
  }

  // ---------------------------------------------------------------- the file

  datatype State = State(lockVersion: Option<nat>, packages: seq<Package>, current: Option<Package>)

  /** The expression `version\s*=\s*([0-9]+)`. */
  function LockVersion(stripped: string): Option<nat> {
    if !("version" <= stripped) then None
    else
      var afterWord := LStrip(stripped[7..]);
      if afterWord == [] || afterWord[0] != '=' then None
      else
        var digits := LStrip(afterWord[1..]);
        if digits == [] || !AllDigits(digits) then None else Some(Value(digits))
  }

  datatype Field = Text(value: string) | List(values: seq<string>)

  predicate IsKey(key: string) {
    key == "name" || key == "version" || key == "source" || key == "checksum" || key == "dependencies"
  }

  predicate Has(p: Package, key: string) {
    (key == "name" && p.name.Some?) || (key == "version" && p.version.Some?) || (key == "source" && p.source.Some?) ||
    (key == "checksum" && p.checksum.Some?) || (key == "dependencies" && p.dependencies.Some?)
  }

  function Set(p: Package, key: string, value: string): Package {
    if key == "name" then p.(name := Some(value))
    else if key == "version" then p.(version := Some(value))
    else if key == "source" then p.(source := Some(value))
    else p.(checksum := Some(value))
  }

  /** One line's effect; a field line may take further lines with it. */
  function Line(stripped: string, rest: seq<string>, state: State,
                json: string -> Option<string>): Result<(State, seq<string>)> {
    if stripped == "" || stripped[0] == '#' then Ok((state, rest))
    else if stripped == "[[package]]" then
      if state.current.None? then Ok((state.(current := Some(NOTHING)), rest))
      else if |state.packages| >= MAX_PACKAGES then Err("SOURCE_OVERSIZE")
      else Ok((state.(packages := state.packages + [state.current.value], current := Some(NOTHING)), rest))
    else if state.current.None? then
      var version := LockVersion(stripped);
      if version.None? || state.lockVersion.Some? then Err("SOURCE_MALFORMED") else Ok((state.(lockVersion := version), rest))
    else if '=' !in stripped then Err("SOURCE_MALFORMED")
    else
      var equals := IndexOf(stripped, '=');
      var key, value := Strip(stripped[..equals]), Strip(stripped[equals + 1..]);
      if !IsKey(key) then Err("SOURCE_MALFORMED")
      else if Has(state.current.value, key) then Err("SOURCE_DUPLICATE")
      else if key == "dependencies" then
        var listed := ArrayValue(value, rest, json);
        if listed.Err? then Err(listed.error)
        else Ok((state.(current := Some(state.current.value.(dependencies := Some(listed.value.0)))), listed.value.1))
      else
        var text := json(value);
        if text.None? then Err("SOURCE_MALFORMED")
        else Ok((state.(current := Some(Set(state.current.value, key, text.value))), rest))
  }

  /** What the code after the loop returns. */
  function Close(state: State): Result<seq<Package>> {
    if state.current.Some? && |state.packages| >= MAX_PACKAGES then Err("SOURCE_OVERSIZE")
    else
      var packages := if state.current.Some? then state.packages + [state.current.value] else state.packages;
      if state.lockVersion != Some(4) then Err("LOCK_VERSION_UNSUPPORTED")
      else if packages == [] then Err("SOURCE_MALFORMED")
      else Ok(packages)
  }

  lemma {:induction false} AssembleShortens(assembled: string, rest: seq<string>)
    ensures Assemble(assembled, rest).Some? ==> |Assemble(assembled, rest).value.1| <= |rest|
    decreases |rest|
  {
    if ']' !in assembled && rest != [] {
      AssembleShortens(assembled + ("\n" + Strip(rest[0])), rest[1..]);
    }
  }

  lemma {:induction false} LineShortens(stripped: string, rest: seq<string>, state: State,
                                        json: string -> Option<string>)
    ensures Line(stripped, rest, state, json).Ok? ==> |Line(stripped, rest, state, json).value.1| <= |rest|
  {
    hide Strip, Assemble, ReadArray, LockVersion, Has, Set, IsKey;
    if '=' in stripped {
      AssembleShortens(Strip(stripped[IndexOf(stripped, '=') + 1..]), rest);
    }
  }

  function Parse(lines: seq<string>, state: State, json: string -> Option<string>): Result<seq<Package>>
    decreases |lines|
  {
    if lines == [] then Close(state)
    else
      var line := Line(Strip(lines[0]), lines[1..], state, json);
      LineShortens(Strip(lines[0]), lines[1..], state, json);
      if line.Err? then Err(line.error) else Parse(line.value.1, line.value.0, json)
  }

  const START := State(None, [], None)

  // ---------------------------------------------------------------- the program

  /** `parse_toml_string_array`; `index` is the last line taken in. */
  method ParseTomlStringArray(lines: seq<string>, start: nat, value: string, json: string -> Option<string>)
    returns (r: Result<seq<string>>, index: nat)
    requires start < |lines|
    ensures ArrayValue(value, lines[start + 1..], json).Ok? <==> r.Ok?
    ensures r.Ok? ==> index < |lines| && start <= index
    ensures r.Ok? ==> ArrayValue(value, lines[start + 1..], json) == Ok((r.value, lines[index + 1..]))
    ensures r.Err? ==> ArrayValue(value, lines[start + 1..], json) == Err(r.error)
  {
    hide Strip, Literals, Residue, ReadArray;
    var assembled := value;
    index := start;
    while ']' !in assembled
      invariant start <= index < |lines|
      invariant Assemble(assembled, lines[index + 1..]) == Assemble(value, lines[start + 1..])
      decreases |lines| - index
    {
      index := index + 1;
      if index >= |lines| {
        return Err("SOURCE_MALFORMED"), index;
      }
      DropDrop(lines, index, 1);
      assembled := assembled + ("\n" + Strip(lines[index]));
    }
    r := ReadAssembled(assembled, json);
  }

  method ReadAssembled(assembled: string, json: string -> Option<string>) returns (r: Result<seq<string>>)
    requires ']' in assembled
    ensures r == ReadArray(assembled, json)
  {
    hide Strip, ReadAll, Residue, Literals;
    var close := IndexOf(assembled, ']');
    if Strip(assembled[close + 1..]) != "" {
      return Err("SOURCE_MALFORMED");
    }
    if '[' !in assembled {
      return Err("ValueError");
    }
    var open := IndexOf(assembled, '[');
    var inner := if open + 1 <= close then assembled[open + 1..close] else "";
    var values := ReadLiterals(Literals(inner), json);
    if values.None? {
      return Err("SOURCE_MALFORMED");
    }
    if Strip(Residue(inner)) != "" {
      return Err("SOURCE_MALFORMED");
    }
    r := Ok(values.value);
  }

  /** Each literal is read as JSON text. */
  method ReadLiterals(literals: seq<string>, json: string -> Option<string>) returns (r: Option<seq<string>>)
    ensures r == ReadAll(literals, json)
  {
    var values: seq<string> := [];
    assert literals[0..] == literals;
    assert ReadAll(literals, json).Some? ==> values + ReadAll(literals, json).value == ReadAll(literals, json).value;
    for i := 0 to |literals|
      invariant ReadAll(literals, json) ==
                if ReadAll(literals[i..], json).None? then None else Some(values + ReadAll(literals[i..], json).value)
    {
      DropDrop(literals, i, 1);
      var value := json(literals[i]);
      if value.None? {
        return None;
      }
      if ReadAll(literals[i + 1..], json).Some? {
        Associative(values, [value.value], ReadAll(literals[i + 1..], json).value);
      }
      values := values + [value.value];
    }
    assert literals[|literals|..] == [] && values + [] == values;
    r := Some(values);
  }

  /** `parse_cargo_lock`. */
  method ParseCargoLock(text: string, json: string -> Option<string>) returns (r: Result<seq<Package>>)
    ensures r == Parse(SplitLines(text), START, json)
  {
    hide Strip, LockVersion, SplitLines, ArrayValue, Has, Set, IsKey, Close, Line;
    var lines := SplitLines(text);
    var state := START;
    var index := 0;
    while index < |lines|
      invariant 0 <= index <= |lines|
      invariant Parse(lines[index..], state, json) == Parse(lines, START, json)
    {
      DropDrop(lines, index, 1);
      var next;
      r, state, next := ReadLine(lines, index, state, json);
      if r.Err? {
        return;
      }
      index := next;
    }
    assert lines[index..] == [];
    r := Finish(state);
  }

  /** The body of the loop: the state and the index after one line and the lines it takes with it. */
  method ReadLine(lines: seq<string>, index: nat, state: State, json: string -> Option<string>)
    returns (r: Result<seq<Package>>, after: State, next: nat)
    requires index < |lines|
    ensures index < next <= |lines|
    ensures r.Ok? ==> Line(Strip(lines[index]), lines[index + 1..], state, json) == Ok((after, lines[next..]))
    ensures r.Err? ==> Line(Strip(lines[index]), lines[index + 1..], state, json) == Err(r.error)
  {
    hide Strip, LockVersion, ArrayValue, Has, Set, IsKey;
    r, after, next := Ok([]), state, index + 1;
    var stripped := Strip(lines[index]);
    if stripped == "" || stripped[0] == '#' {
      return;
    }
    if stripped == "[[package]]" {
      if state.current.Some? {
        if |state.packages| >= MAX_PACKAGES {
          r := Err("SOURCE_OVERSIZE");
          return;
        }
        after := after.(packages := state.packages + [state.current.value]);
      }
      after := after.(current := Some(NOTHING));
      return;
    }
    if state.current.None? {
      var version := LockVersion(stripped);
      if version.None? || state.lockVersion.Some? {
        r := Err("SOURCE_MALFORMED");
        return;
      }
      after := after.(lockVersion := version);
      return;
    }
    if '=' !in stripped {
      r := Err("SOURCE_MALFORMED");
      return;
    }
    var equals := IndexOf(stripped, '=');
    var key, value := Strip(stripped[..equals]), Strip(stripped[equals + 1..]);
    if !IsKey(key) {
      r := Err("SOURCE_MALFORMED");
      return;
    }
    if Has(state.current.value, key) {
      r := Err("SOURCE_DUPLICATE");
      return;
    }
    if key == "dependencies" {
      var listed, last := ParseTomlStringArray(lines, index, value, json);
      if listed.Err? {
        r := Err(listed.error);
        return;
      }
      after := after.(current := Some(state.current.value.(dependencies := Some(listed.value))));
      next := last + 1;
    } else {
      var text := json(value);
      if text.None? {
        r := Err("SOURCE_MALFORMED");
        return;
      }
      after := after.(current := Some(Set(state.current.value, key, text.value)));
    }
  }

  /** The code after the loop. */
  method Finish(state: State) returns (r: Result<seq<Package>>)
    ensures r == Close(state)
  {
    var packages := state.packages;
    if state.current.Some? {
      if |packages| >= MAX_PACKAGES {
        return Err("SOURCE_OVERSIZE");
      }
      packages := packages + [state.current.value];
    }
    if state.lockVersion != Some(4) {
      return Err("LOCK_VERSION_UNSUPPORTED");
    }
    if packages == [] {
      return Err("SOURCE_MALFORMED");
    }
    r := Ok(packages);
  }
}
