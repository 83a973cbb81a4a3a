/** The string-literal scanners of the boundary guard (check_architecture.py), which read the
    masker's output, and the proof that masking keeps their meaning. */
module Literals {
  import opened Masking
  import opened Sequences
  import opened Wrappers

  // ---------------------------------------------------------------- what the scanners compute

  /** Length of the escaped body in front of the closing delimiter. */
  function EscapedBody(s: string, delimiter: char): (r: Option<nat>)
    ensures r.Some? ==> r.value < |s|
  {
    if s == [] then None
    else if s[0] == '\\' then
      if |s| == 1 then None
      else
        var r := EscapedBody(s[2..], delimiter);
        if r.Some? then Some(2 + r.value) else None
    else if s[0] == delimiter then Some(0)
    else
      var r := EscapedBody(s[1..], delimiter);
      if r.Some? then Some(1 + r.value) else None
  }

  function TypeScriptLiterals(s: string): seq<string>
    decreases |s|
  {
    if s == [] then []
    else if s[0] != '"' && s[0] != '\'' && s[0] != '`' then TypeScriptLiterals(s[1..])
    else
      var n := EscapedBody(s[1..], s[0]);
      if n.None? then []
      else [s[1..1 + n.value]] + TypeScriptLiterals(s[n.value + 2..])
  }

  predicate IsHexOrUnderscore(c: char) {
    '0' <= c <= '9' || 'a' <= c <= 'f' || 'A' <= c <= 'F' || c == '_'
  }

  /** Leading characters admitted inside a `\u{...}` escape. */
  function HexRun(s: string): (n: nat)
    ensures n <= |s|
  {
    if s != [] && IsHexOrUnderscore(s[0]) then 1 + HexRun(s[1..]) else 0
  }

  /** Whether the first `n` of them contain a digit. */
  predicate HasDigit(s: string, n: nat)
    requires n <= |s|
  {
    n > 0 && (s[0] != '_' || HasDigit(s[1..], n - 1))
  }

  /** Length of the Rust character literal whose opening quote is `s[0]`, if it is one. */
  function CharLength(s: string): (r: Option<nat>)
    requires s != []
    ensures r.Some? ==> 1 < r.value <= |s|
  {
    if |s| == 1 || s[1] == '\'' || s[1] == '\r' || s[1] == '\n' then None
    else if s[1] != '\\' then ClosedAt(s, 2)
    else if |s| == 2 then None
    else if s[2] == 'x' then ClosedAt(s, 5)
    else if s[2] == 'u' && |s| > 3 && s[3] == '{' then
      var n := HexRun(s[4..]);
      if !HasDigit(s[4..], n) || 4 + n == |s| || s[4 + n] != '}' then None else ClosedAt(s, 5 + n)
    else ClosedAt(s, 3)
  }

  function ClosedAt(s: string, closing: nat): Option<nat> {
    if closing < |s| && s[closing] == '\'' then Some(closing + 1) else None
  }

  /** Number of hashes of the raw literal opener `r#*"` at the front of `s`. */
  function RawOpener(s: string): (r: Option<nat>)
    ensures r.Some? ==> r.value + 2 <= |s| && s[0] == 'r'
  {
    if s == [] || s[0] != 'r' then None
    else
      var h := HashRun(s[1..]);
      if 1 + h < |s| && s[1 + h] == '"' then Some(h) else None
  }

  function RustLiterals(s: string): seq<string>
    decreases |s|
  {
    if s == [] then []
    else if s[0] == '\'' then
      var n := CharLength(s);
      RustLiterals(s[if n.Some? then n.value else 1..])
    else if RawOpener(s).Some? then
      var h := RawOpener(s).value;
      var c := FindClose(s[h + 2..], h);
      if c.None? then []
      else [s[h + 2..h + 2 + c.value]] + RustLiterals(s[h + 2 + c.value + 1 + h..])
    else if s[0] != '"' then RustLiterals(s[1..])
    else
      var n := EscapedBody(s[1..], '"');
      if n.None? then []
      else [s[1..1 + n.value]] + RustLiterals(s[n.value + 2..])
  }

  function StringLiterals(s: string, mode: Mode): seq<string> {
    if mode.Rust? then RustLiterals(s) else TypeScriptLiterals(s)
  }

  // ---------------------------------------------------------------- token lists

  /** A block comment's inside as opener, closer and plain character marks. */
  datatype Mark = Open | Close | Plain(c: char)

  datatype Token =
    | Gap(code: string)
    | Char(literal: string)
    | Str(delimiter: char, body: string)
    | Raw(prefix: string, hashes: nat, body: string)
    | LineComment(text: string)
    | LastComment(text: string)
    | BlockComment(marks: seq<Mark>)

  function MarkText(marks: seq<Mark>): string {
    if marks == [] then []
    else
      (match marks[0] case Open => "/*" case Close => "*/" case Plain(c) => [c]) + MarkText(marks[1..])
  }

  function BlankAll(s: string): string {
    if s == [] then [] else [Blank(s[0])] + BlankAll(s[1..])
  }

  function TokenText(t: Token): string {
    match t
    case Gap(code) => code
    case Char(literal) => literal
    case Str(d, body) => [d] + (body + [d])
    case Raw(prefix, h, body) => RawText(prefix, h, body)
    case LineComment(text) => "//" + (text + "\n")
    case LastComment(text) => "//" + text
    case BlockComment(marks) => "/*" + MarkText(marks)
  }

  predicate IsComment(t: Token) {
    t.LineComment? || t.LastComment? || t.BlockComment?
  }

  /** The same token with a comment's characters blanked. */
  function TokenMasked(t: Token): string {
    if IsComment(t) then BlankAll(TokenText(t)) else TokenText(t)
  }

  function TokenBodies(t: Token): seq<string> {
    if t.Str? || t.Raw? then [t.body] else []
  }

  function Render(ts: seq<Token>): string {
    if ts == [] then [] else TokenText(ts[0]) + Render(ts[1..])
  }

  function RenderMasked(ts: seq<Token>): string {
    if ts == [] then [] else TokenMasked(ts[0]) + RenderMasked(ts[1..])
  }

  /** The literal bodies of a token list, in order. */
  function Bodies(ts: seq<Token>): seq<string> {
    if ts == [] then [] else TokenBodies(ts[0]) + Bodies(ts[1..])
  }

  // ---------------------------------------------------------------- well-formed token lists

  /** Every backslash has the character it escapes, and only escaped delimiters occur. */
  predicate WellEscaped(body: string, delimiter: char) {
    body == [] ||
    (if body[0] == '\\' then |body| >= 2 && WellEscaped(body[2..], delimiter)
     else body[0] != delimiter && WellEscaped(body[1..], delimiter))
  }

  /** The marks close the comment exactly at their end, and no two plain characters or plain
      character and mark read as a delimiter of their own. */
  predicate Nested(marks: seq<Mark>, depth: nat) {
    if marks == [] then depth == 0
    else
      depth > 0 &&
      match marks[0]
      case Open => Nested(marks[1..], depth + 1)
      case Close => Nested(marks[1..], depth - 1)
      case Plain(c) =>
        var rest := MarkText(marks[1..]);
        && Nested(marks[1..], depth)
        && (c == '/' && rest != [] ==> rest[0] != '*')
        && (c == '*' && rest != [] ==> rest[0] != '/')
  }

  /** A raw prefix, its hashes and a quote stand at the front of `s`. */
  predicate OpensRaw(s: string) {
    var p := RawPrefix(s);
    p > 0 && (var h := HashRun(s[p..]); p + h < |s| && s[p + h] == '"')
  }

  predicate IsSlash(c: char) {
    c == '/' || c == '*'
  }

  /** Code in which, given what follows it, the masker enters nothing: no quote, no comment and no
      raw literal opens. */
  predicate Quiet(code: string, rest: string, mode: Mode) {
    code == [] ||
    (&& code[0] != '"' && code[0] != '`' && (mode.TypeScript? ==> code[0] != '\'')
     && (code[0] == '/' && |code + rest| > 1 ==> !IsSlash((code + rest)[1]))
     && (mode.Rust? ==> !OpensRaw(code + rest))
     && Quiet(code[1..], rest, mode))
  }

  /** Quiet code whose apostrophes, if any, open no character literal: Rust lifetimes, for one. */
  ghost predicate GapOk(code: string, rest: string, mode: Mode) {
    Quiet(code, rest, mode) && Lifetimes(code, rest)
  }

  ghost predicate Lifetimes(code: string, rest: string) {
    code == [] || (!OpensCharacter(code + rest) && Lifetimes(code[1..], rest))
  }

  /** The grammar of character literals: between apostrophes stands one character, or a backslash and
      one character, or `\x` and any two, or `\u{...}` over hexadecimal digits and underscores. */
  ghost predicate IsCharacter(literal: string) {
    && |literal| >= 3 && literal[0] == '\'' && literal[|literal| - 1] == '\''
    && var inside := literal[1..|literal| - 1];
       || (|inside| == 1 && inside[0] != '\'' && inside[0] != '\\' && inside[0] != '\r' && inside[0] != '\n')
       || (|inside| == 2 && inside[0] == '\\' && inside[1] != 'x')
       || (|inside| == 4 && inside[0] == '\\' && inside[1] == 'x')
       || IsCodePoint(inside)
  }

  ghost predicate IsCodePoint(inside: string) {
    && |inside| >= 5 && inside[..3] == "\\u{" && inside[|inside| - 1] == '}'
    && (forall i :: 3 <= i < |inside| - 1 ==>
          '0' <= inside[i] <= '9' || 'a' <= inside[i] <= 'f' || 'A' <= inside[i] <= 'F' || inside[i] == '_')
    && exists i :: 3 <= i < |inside| - 1 && inside[i] != '_'
  }

  /** A character literal stands at the front. */
  ghost predicate OpensCharacter(s: string) {
    exists n :: 0 <= n <= |s| && IsCharacter(s[..n])
  }

  /** All of `literal` is one character literal for the scanner. */
  predicate Recognised(literal: string) {
    literal != [] && literal[0] == '\'' && CharLength(literal) == Some(|literal|)
  }

  /** Character literals the masker passes over: they hold no quote and no comment opener, or two
      equal quotes where the scanner does not check the digits of `\x`. */
  predicate Harmless(literal: string) {
    || literal == "'\\x\"\"'" || literal == "'\\x``'"
    || (Unquoted(literal) && forall i :: 0 < i < |literal| && literal[i - 1] == '/' ==> !IsSlash(literal[i]))
  }

  predicate Unquoted(text: string) {
    forall i :: 0 <= i < |text| ==> text[i] != '"' && text[i] != '`'
  }

  /** The delimiters of escaped literals. */
  predicate Delimits(d: char, mode: Mode) {
    d == '"' || (mode.TypeScript? && (d == '\'' || d == '`'))
  }

  ghost predicate TokenOk(t: Token, rest: string, mode: Mode) {
    match t
    case Gap(code) => GapOk(code, rest, mode)
    case Char(literal) => mode.Rust? && IsCharacter(literal) && Harmless(literal)
    case Str(d, body) => Delimits(d, mode) && WellEscaped(body, d)
    case Raw(prefix, h, body) => mode.Rust? && IsRawPrefix(prefix) && NoTerminator(body, h)
    case LineComment(text) => '\n' !in text
    case LastComment(text) => '\n' !in text && rest == []
    case BlockComment(marks) => Nested(marks, 1)
  }

  ghost predicate WellFormed(ts: seq<Token>, mode: Mode) {
    ts == [] || (TokenOk(ts[0], Render(ts[1..]), mode) && WellFormed(ts[1..], mode))
  }

  // ---------------------------------------------------------------- masking a token

  lemma {:induction false} NextOnCons(c: char, rest: string, st: State, mode: Mode)
    requires st.Code? ==> RawAhead([c] + rest, mode).None?
    ensures Next([c] + rest, st, mode) ==
            Choose(c, if rest == [] then "" else [rest[0]], None, st, mode)
  {
    hide RawAhead;
    var s := [c] + rest;
    assert s[0] == c;
    if !st.Code? { assert Choose(c, Following(s), RawAhead(s, mode), st, mode) == Choose(c, Following(s), None, st, mode); }
  }

  lemma {:induction false} MaskCons(c: char, rest: string, st: State, mode: Mode)
    requires st.Code? ==> RawAhead([c] + rest, mode).None?
    requires Choose(c, if rest == [] then "" else [rest[0]], None, st, mode).consumed == 1
    ensures var m := Choose(c, if rest == [] then "" else [rest[0]], None, st, mode);
            Mask([c] + rest, st, mode) == m.emitted + Mask(rest, m.next, mode)
  {
    hide Next, RawAhead, Choose;
    NextOnCons(c, rest, st, mode);
    assert ([c] + rest)[1..] == rest;
  }

  lemma {:induction false} MaskGap(code: string, rest: string, mode: Mode)
    requires Quiet(code, rest, mode)
    ensures Mask(code + rest, Code, mode) == code + Mask(rest, Code, mode)
  {
    hide RawLength, OpensRaw, Mask;
    if code == [] {
      assert code + rest == rest;
    } else {
      assert code + rest == [code[0]] + (code[1..] + rest);
      if mode.Rust? { RawNeedsOpener(code + rest); }
      MaskCons(code[0], code[1..] + rest, Code, mode);
      MaskGap(code[1..], rest, mode);
      assert [code[0]] + (code[1..] + Mask(rest, Code, mode)) == code + Mask(rest, Code, mode);
    }
  }

  lemma {:induction false} HashRunAt(s: string, i: nat)
    requires i < HashRun(s)
    ensures s[i] == '#'
  {
    if i > 0 { HashRunAt(s[1..], i - 1); }
  }

  /** A raw opener cannot reach past an apostrophe. */
  lemma {:induction false} NoRawOver(code: string, rest: string)
    requires Unquoted(code) && code != [] && code[|code| - 1] == '\''
    ensures !OpensRaw(code + rest)
  {
    hide HashRun;
    var s := code + rest;
    var k := |code| - 1;
    var p := RawPrefix(s);
    if p > 0 {
      assert s[k] == '\'';
      var h := HashRun(s[p..]);
      if p + h > k {
        HashRunAt(s[p..], k - p);
      } else if p + h < k {
        assert s[p + h] == code[p + h];
      }
    }
  }

  /** Without quotes and comment openers a text that ends in an apostrophe is quiet in Rust. */
  lemma {:induction false} QuietCharacter(code: string, rest: string)
    requires Unquoted(code) && (code != [] ==> code[|code| - 1] == '\'')
    requires forall i :: 0 < i < |code| && code[i - 1] == '/' ==> !IsSlash(code[i])
    ensures Quiet(code, rest, Rust)
  {
    hide OpensRaw;
    if code != [] {
      NoRawOver(code, rest);
      forall i | 0 < i < |code[1..]| && code[1..][i - 1] == '/' ensures !IsSlash(code[1..][i]) {
        assert code[1..][i - 1] == code[i] && code[1..][i] == code[i + 1];
      }
      QuietCharacter(code[1..], rest);
      if |code| > 1 { assert (code + rest)[1] == code[1]; }
    }
  }

  /** The masker passes over a harmless character literal. */
  lemma {:induction false} MaskCharacter(literal: string, rest: string)
    requires IsCharacter(literal) && Harmless(literal)
    ensures Mask(literal + rest, Code, Rust) == literal + Mask(rest, Code, Rust)
  {
    hide Mask, Quiet, CharLength, IsCharacter;
    if Unquoted(literal) {
      RecognisedMeaning(literal);
      CharacterShape(literal);
      QuietCharacter(literal, rest);
      MaskGap(literal, rest, Rust);
    } else {
      var q := if literal == "'\\x``'" then '`' else '"';
      assert literal == "'\\x" + ([q] + ([] + [q])) + "'";
      MaskTwoQuotes(q, rest);
    }
  }

  lemma {:induction false} MaskTwoQuotes(q: char, rest: string)
    requires q == '"' || q == '`'
    ensures Mask(("'\\x" + ([q] + ([] + [q])) + "'") + rest, Code, Rust) ==
            ("'\\x" + ([q] + ([] + [q])) + "'") + Mask(rest, Code, Rust)
  {
    hide Mask;
    var quoted := [q] + ([] + [q]);
    assert ("'\\x" + quoted + "'") + rest == "'\\x" + (quoted + ("'" + rest));
    assert [q, q] + ("'" + rest) == quoted + ("'" + rest);
    QuietHexEscape("'\\x", quoted + ("'" + rest));
    MaskGap("'\\x", quoted + ("'" + rest), Rust);
    MaskString(q, [], "'" + rest, Rust);
    QuietCharacter("'", rest);
    MaskGap("'", rest, Rust);
    var done := Mask(rest, Code, Rust);
    assert ("'\\x" + quoted + "'") + done == "'\\x" + (quoted + ("'" + done));
  }

  /** The front of a character literal with a hex escape. */
  lemma {:induction false} QuietHexEscape(front: string, rest: string)
    requires front == "'" || front == "'\\" || front == "'\\x"
    ensures Quiet(front, rest, Rust)
  {
    hide Quiet;
    QuietNothing(rest);
    if front == "'\\x" {
      assert ['\''] + "\\x" == front && ['\\'] + "x" == "\\x" && ['x'] + "" == "x";
      QuietOne('x', "", rest);
      QuietOne('\\', "x", rest);
      QuietOne('\'', "\\x", rest);
    } else if front == "'\\" {
      assert ['\''] + "\\" == front && ['\\'] + "" == "\\";
      QuietOne('\\', "", rest);
      QuietOne('\'', "\\", rest);
    } else {
      QuietOne('\'', "", rest);
      assert ['\''] + "" == front;
    }
  }

  lemma {:induction false} QuietNothing(rest: string)
    ensures Quiet("", rest, Rust)
  {
  }

  lemma {:induction false} QuietOne(c: char, code: string, rest: string)
    requires c !in {'"', '`', '/', 'b', 'c', 'r'} && Quiet(code, rest, Rust)
    ensures Quiet([c] + code, rest, Rust)
  {
    hide HashRun;
    var s := [c] + code;
    assert s[1..] == code && (s + rest)[0] == c;
  }

  /** What the scanner takes for a character literal: a plain character, an escaped one, `\x` with
      any two characters, or a code point without anything the masker reacts to. */
  lemma {:induction false} CharacterShape(literal: string)
    requires Recognised(literal)
    ensures |literal| >= 3 && literal[|literal| - 1] == '\''
    ensures || |literal| == 3 || (|literal| == 4 && literal[1] == '\\')
            || (|literal| == 6 && literal[1] == '\\' && literal[2] == 'x')
            || forall i :: 0 <= i < |literal| ==> literal[i] !in {'"', '`', '/'}
  {
    if literal[1] == '\\' && literal[2] == 'u' && literal[3] == '{' {
      var n := HexRun(literal[4..]);
      forall i | 0 <= i < |literal| ensures literal[i] !in {'"', '`', '/'} {
        if 4 <= i < 4 + n {
          HexRunAt(literal[4..], i - 4);
          assert literal[4..][i - 4] == literal[i];
        }
      }
    }
  }

  lemma {:induction false} HexRunAt(s: string, i: nat)
    requires i < HexRun(s)
    ensures IsHexOrUnderscore(s[i])
  {
    if i > 0 { HexRunAt(s[1..], i - 1); }
  }

  lemma {:induction false} RawNeedsOpener(s: string)
    ensures !OpensRaw(s) ==> RawLength(s).None?
  {
    hide FindClose, HashRun;
  }

  lemma {:induction false} MaskQuoted(body: string, d: char, rest: string, mode: Mode)
    requires WellEscaped(body, d) && d != '\\'
    ensures Mask(body + ([d] + rest), Quoted(d, false), mode) == body + ([d] + Mask(rest, Code, mode))
    decreases |body|
  {
    hide Mask;
    var end := [d] + rest;
    var done := [d] + Mask(rest, Code, mode);
    if body == [] {
      assert body + end == end && body + done == done;
      MaskCons(d, rest, Quoted(d, false), mode);
    } else if body[0] == '\\' {
      assert body + end == [body[0]] + ([body[1]] + (body[2..] + end));
      MaskCons(body[0], [body[1]] + (body[2..] + end), Quoted(d, false), mode);
      MaskCons(body[1], body[2..] + end, Quoted(d, true), mode);
      MaskQuoted(body[2..], d, rest, mode);
      assert body + done == [body[0]] + ([body[1]] + (body[2..] + done));
    } else {
      assert body + end == [body[0]] + (body[1..] + end);
      MaskCons(body[0], body[1..] + end, Quoted(d, false), mode);
      MaskQuoted(body[1..], d, rest, mode);
      assert body + done == [body[0]] + (body[1..] + done);
    }
  }

  lemma {:induction false} MaskLine(text: string, rest: string, mode: Mode)
    requires '\n' !in text
    ensures Mask(text + ("\n" + rest), Line, mode) == BlankAll(text) + ("\n" + Mask(rest, Code, mode))
  {
    hide Mask;
    var end := "\n" + rest;
    var done := "\n" + Mask(rest, Code, mode);
    if text == [] {
      assert text + end == end && BlankAll(text) + done == done;
      MaskCons('\n', rest, Line, mode);
    } else {
      assert text + end == [text[0]] + (text[1..] + end);
      MaskCons(text[0], text[1..] + end, Line, mode);
      MaskLine(text[1..], rest, mode);
      assert BlankAll(text) + done == [Blank(text[0])] + (BlankAll(text[1..]) + done);
    }
  }

  lemma {:induction false} MaskPair(a: char, b: char, rest: string, st: State, mode: Mode)
    requires st.Block? || (st.Code? && a == '/')
    requires Choose(a, [b], None, st, mode).consumed == 2
    ensures Mask([a, b] + rest, st, mode) == "  " + Mask(rest, Choose(a, [b], None, st, mode).next, mode)
  {
    hide RawAhead;
    var s := [a, b] + rest;
    assert s == [a] + ([b] + rest);
    if st.Code? { RawNotComment(s, mode); }
    NextOnCons(a, [b] + rest, st, mode);
    assert s[2..] == rest;
  }

  function BlockState(depth: nat): State {
    if depth == 0 then Code else Block(depth)
  }

  lemma {:induction false} MaskBlock(marks: seq<Mark>, depth: nat, rest: string, mode: Mode)
    requires Nested(marks, depth)
    ensures Mask(MarkText(marks) + rest, BlockState(depth), mode) == BlankAll(MarkText(marks)) + Mask(rest, Code, mode)
  {
    hide Mask;
    var done := Mask(rest, Code, mode);
    if marks == [] {
      assert MarkText(marks) + rest == rest && BlankAll(MarkText(marks)) + done == done;
    } else {
      var inner := MarkText(marks[1..]);
      var st := BlockState(depth);
      if marks[0].Plain? {
        MaskBlock(marks[1..], depth, rest, mode);
        assert MarkText(marks) + rest == [marks[0].c] + (inner + rest);
        NestedNonEmpty(marks[1..], depth);
        assert (inner + rest)[0] == inner[0];
        MaskCons(marks[0].c, inner + rest, st, mode);
        assert BlankAll([marks[0].c] + inner) == [Blank(marks[0].c)] + BlankAll(inner) by {
          assert ([marks[0].c] + inner)[1..] == inner;
        }
        Associative([Blank(marks[0].c)], BlankAll(inner), done);
      } else {
        var pair := if marks[0].Open? then "/*" else "*/";
        var next := if marks[0].Open? then depth + 1 else depth - 1;
        MaskBlock(marks[1..], next, rest, mode);
        Associative(pair, inner, rest);
        MaskPair(pair[0], pair[1], inner + rest, st, mode);
        assert pair == [pair[0], pair[1]];
        BlankPair(pair, inner);
        Associative("  ", BlankAll(inner), done);
      }
    }
  }

  lemma {:induction false} NestedNonEmpty(marks: seq<Mark>, depth: nat)
    requires Nested(marks, depth) && depth > 0
    ensures MarkText(marks) != []
  {
  }

  lemma {:induction false} BlankPair(pair: string, rest: string)
    requires |pair| == 2 && pair[0] != '\n' && pair[1] != '\n'
    ensures BlankAll(pair + rest) == "  " + BlankAll(rest)
  {
    var s := pair + rest;
    assert s[1..] == [pair[1]] + rest;
    assert s[1..][1..] == rest;
  }

  /** The masker on one well-formed token: literals and code verbatim, comments blanked. */
  lemma {:induction false} MaskToken(t: Token, rest: string, mode: Mode)
    requires TokenOk(t, rest, mode)
    ensures Mask(TokenText(t) + rest, Code, mode) == TokenMasked(t) + Mask(rest, Code, mode)
  {
    hide Mask;
    match t
    case Gap(code) => MaskGap(code, rest, mode);
    case Char(literal) => MaskCharacter(literal, rest);
    case Str(d, body) => MaskString(d, body, rest, mode);
    case Raw(prefix, h, body) => MaskRaw(prefix, h, body, rest);
    case LineComment(text) => MaskLineComment(text, rest, mode);
    case LastComment(text) => MaskLastComment(text, rest, mode);
    case BlockComment(marks) =>
      var inner := MarkText(marks);
      Associative("/*", inner, rest);
      MaskPair('/', '*', inner + rest, Code, mode);
      MaskBlock(marks, 1, rest, mode);
      BlankPair("/*", inner);
      Associative("  ", BlankAll(inner), Mask(rest, Code, mode));
  }

  lemma {:induction false} MaskString(d: char, body: string, rest: string, mode: Mode)
    requires IsQuote(d, mode) && WellEscaped(body, d)
    ensures Mask(([d] + (body + [d])) + rest, Code, mode) == ([d] + (body + [d])) + Mask(rest, Code, mode)
  {
    hide Mask, WellEscaped;
    var end := [d] + rest;
    var done := [d] + Mask(rest, Code, mode);
    assert ([d] + (body + [d])) + rest == [d] + (body + end);
    QuoteNotRaw(d, body + end, mode);
    MaskCons(d, body + end, Code, mode);
    MaskQuoted(body, d, rest, mode);
    assert ([d] + (body + [d])) + Mask(rest, Code, mode) == [d] + (body + done);
  }

  lemma {:induction false} QuoteNotRaw(d: char, rest: string, mode: Mode)
    requires d !in {'b', 'c', 'r'}
    ensures RawAhead([d] + rest, mode).None?
  {
  }

  lemma {:induction false} MaskRaw(prefix: string, h: nat, body: string, rest: string)
    requires IsRawPrefix(prefix) && NoTerminator(body, h)
    ensures Mask(RawText(prefix, h, body) + rest, Code, Rust) == RawText(prefix, h, body) + Mask(rest, Code, Rust)
  {
    hide RawText, RawLength, NoTerminator;
    RawLengthOf(prefix, h, body, rest);
    AppendDrop(RawText(prefix, h, body), rest);
  }

  lemma {:induction false} MaskLineComment(text: string, rest: string, mode: Mode)
    requires '\n' !in text
    ensures Mask(("//" + (text + "\n")) + rest, Code, mode) == BlankAll("//" + (text + "\n")) + Mask(rest, Code, mode)
  {
    hide Mask, RawAhead;
    var end := "\n" + rest;
    var done := "\n" + Mask(rest, Code, mode);
    assert ("//" + (text + "\n")) + rest == "/" + ("/" + (text + end));
    RawNotComment("/" + ("/" + (text + end)), mode);
    MaskCons('/', "/" + (text + end), Code, mode);
    MaskCons('/', text + end, Line, mode);
    MaskLine(text, rest, mode);
    BlankPair("//", text + "\n");
    BlankJoin(text, "\n");
    assert BlankAll("\n") == "\n";
    assert ("  " + (BlankAll(text) + "\n")) + Mask(rest, Code, mode) == " " + (" " + (BlankAll(text) + done));
  }

  lemma {:induction false} MaskToEnd(text: string, mode: Mode)
    requires '\n' !in text
    ensures Mask(text, Line, mode) == BlankAll(text)
  {
    hide Mask;
    if text == [] {
      MaskNothing(Line, mode);
    } else {
      assert text == [text[0]] + text[1..];
      MaskCons(text[0], text[1..], Line, mode);
      MaskToEnd(text[1..], mode);
    }
  }

  /** A line comment that ends with the text. */
  lemma {:induction false} MaskLastComment(text: string, rest: string, mode: Mode)
    requires '\n' !in text && rest == []
    ensures Mask(("//" + text) + rest, Code, mode) == BlankAll("//" + text) + Mask(rest, Code, mode)
  {
    hide Mask, RawAhead;
    var s := "/" + ("/" + text);
    assert ("//" + text) + rest == s;
    RawNotComment(s, mode);
    MaskCons('/', "/" + text, Code, mode);
    MaskCons('/', text, Line, mode);
    MaskToEnd(text, mode);
    MaskNothing(Code, mode);
    BlankPair("//", text);
    assert ("  " + BlankAll(text)) + [] == " " + (" " + BlankAll(text));
  }

  lemma {:induction false} BlankJoin(a: string, b: string)
    ensures BlankAll(a + b) == BlankAll(a) + BlankAll(b)
  {
    if a == [] {
      assert a + b == b && BlankAll(a) + BlankAll(b) == BlankAll(b);
    } else {
      BlankJoin(a[1..], b);
      assert (a + b)[1..] == a[1..] + b;
      assert BlankAll(a) + BlankAll(b) == [Blank(a[0])] + (BlankAll(a[1..]) + BlankAll(b));
    }
  }

  /** Masking a rendered token list blanks exactly its comments. */
  lemma {:induction false} MaskOfRendering(ts: seq<Token>, mode: Mode)
    requires WellFormed(ts, mode)
    ensures Mask(Render(ts), Code, mode) == RenderMasked(ts)
  {
    hide TokenOk, TokenText, TokenMasked, Next;
    if ts != [] {
      MaskToken(ts[0], Render(ts[1..]), mode);
      MaskOfRendering(ts[1..], mode);
    }
  }

  // ---------------------------------------------------------------- scanning masked tokens

  lemma {:induction false} EscapedBodyOf(body: string, d: char, rest: string)
    requires WellEscaped(body, d) && d != '\\'
    ensures EscapedBody(body + ([d] + rest), d) == Some(|body|)
    decreases |body|
  {
    var end := [d] + rest;
    if body == [] {
      assert body + end == end;
    } else if body[0] == '\\' {
      assert (body + end)[2..] == body[2..] + end;
      EscapedBodyOf(body[2..], d, rest);
    } else {
      assert (body + end)[1..] == body[1..] + end;
      EscapedBodyOf(body[1..], d, rest);
    }
  }

  /** A quoted literal in front of `rest`, cut the way both scanners cut it. */
  lemma {:induction false} QuotedParts(d: char, body: string, rest: string)
    requires WellEscaped(body, d) && d != '\\'
    ensures var s := ([d] + (body + [d])) + rest;
            s[0] == d && EscapedBody(s[1..], d) == Some(|body|) &&
            s[1..1 + |body|] == body && s[|body| + 2..] == rest
  {
    var s := ([d] + (body + [d])) + rest;
    assert s[1..] == body + ([d] + rest);
    EscapedBodyOf(body, d, rest);
  }

  lemma {:induction false} SkipBlanks(s: string, rest: string, mode: Mode)
    ensures StringLiterals(BlankAll(s) + rest, mode) == StringLiterals(rest, mode)
  {
    hide RawOpener;
    if s == [] {
      assert BlankAll(s) + rest == rest;
    } else {
      SkipBlanks(s[1..], rest, mode);
      var all := BlankAll(s) + rest;
      assert all[1..] == BlankAll(s[1..]) + rest;
      assert RawOpener(all).None? by { NotRawOpener(all); }
    }
  }

  lemma {:induction false} NotRawOpener(s: string)
    ensures s != [] && s[0] != 'r' ==> RawOpener(s).None?
  {
  }

  lemma {:induction false} OpensRawBlanked(s: string, masked: string)
    requires Blanked(s, masked) && !OpensRaw(s)
    ensures RawOpener(masked).None?
  {
    if RawOpener(masked).Some? {
      var h := HashRun(masked[1..]);
      HashRunBlanked(s[1..], masked[1..]);
    }
  }

  /** Where blanking begins, the character after it is blank too: a comment opens with two
      characters. */
  predicate OpensBlanked(rest: string, masked: string) {
    |rest| == |masked| && forall i :: 0 <= i < |rest| - 1 ==> BlankedOn(rest, masked, i)
  }

  predicate BlankedOn(s: string, masked: string, i: nat)
    requires i + 1 < |s| == |masked|
  {
    s[i] != masked[i] && (i > 0 ==> s[i - 1] == masked[i - 1]) ==> masked[i + 1] == ' ' || masked[i + 1] == '\n'
  }

  lemma {:induction false} BlankedOnJoin(a: string, x: string, rest: string, masked: string, i: nat)
    requires |a| == |x| && |a| <= i && OpensBlanked(rest, masked) && i + 1 < |a| + |rest|
    ensures BlankedOn(a + rest, x + masked, i)
  {
    assert BlankedOn(rest, masked, i - |a|);
  }

  lemma {:induction false} BlankAllAt(s: string, i: nat)
    requires i < |s|
    ensures |BlankAll(s)| == |s| && BlankAll(s)[i] == Blank(s[i])
  {
    if i > 0 {
      BlankAllAt(s[1..], i - 1);
    } else if |s| > 1 {
      BlankAllAt(s[1..], 0);
    }
  }

  lemma {:induction false} NestedEnds(marks: seq<Mark>, depth: nat)
    requires Nested(marks, depth) && depth > 0
    ensures |MarkText(marks)| >= 2 && MarkText(marks)[|MarkText(marks)| - 2..] == "*/"
  {
    if |marks| == 1 {
      assert marks[1..] == [] && MarkText(marks) == "*/" + [];
    } else if marks[0].Plain? {
      NestedEnds(marks[1..], depth);
    } else if marks[0].Open? {
      NestedEnds(marks[1..], depth + 1);
    } else if depth > 1 {
      NestedEnds(marks[1..], depth - 1);
    }
  }

  /** A comment in front of something ends with a newline, which stays, or with two blanked
      characters. */
  lemma {:induction false} CommentEnds(t: Token, rest: string, mode: Mode)
    requires TokenOk(t, rest, mode) && IsComment(t)
    ensures var s, n := TokenText(t), |TokenText(t)|;
            n >= 2 && (rest == [] || s[n - 1] == '\n' || (s[n - 2] == '*' && s[n - 1] == '/'))
  {
    if t.BlockComment? {
      NestedEnds(t.marks, 1);
      var m := MarkText(t.marks);
      assert m[|m| - 2..][0] == m[|m| - 2] && m[|m| - 2..][1] == m[|m| - 1];
    }
  }

  lemma {:induction false} TokenOpensBlanked(t: Token, rest: string, masked: string, mode: Mode)
    requires TokenOk(t, rest, mode) && OpensBlanked(rest, masked)
    ensures OpensBlanked(TokenText(t) + rest, TokenMasked(t) + masked)
  {
    hide TokenOk, TokenText, BlankedOn;
    var s, b := TokenText(t), TokenMasked(t);
    if IsComment(t) {
      CommentEnds(t, rest, mode);
      BlankAllAt(s, 0);
    }
    forall i | 0 <= i < |s + rest| - 1 ensures BlankedOn(s + rest, b + masked, i) {
      if i >= |s| {
        BlankedOnJoin(s, b, rest, masked, i);
      } else if IsComment(t) {
        CommentBlanksOn(s, rest, masked, i);
      } else {
        BlankedOnSame(s, rest, masked, i);
      }
    }
    AllBlankedOn(s + rest, b + masked);
  }

  lemma {:induction false} AllBlankedOn(s: string, masked: string)
    requires |s| == |masked| && forall i :: 0 <= i < |s| - 1 ==> BlankedOn(s, masked, i)
    ensures OpensBlanked(s, masked)
  {
  }

  lemma {:induction false} BlankedOnSame(s: string, rest: string, masked: string, i: nat)
    requires i < |s| && |rest| == |masked| && i + 1 < |s + rest|
    ensures BlankedOn(s + rest, s + masked, i)
  {
  }

  lemma {:induction false} CommentBlanksOn(s: string, rest: string, masked: string, i: nat)
    requires i < |s| && |rest| == |masked| && i + 1 < |s + rest|
    requires |s| >= 2 && (rest == [] || s[|s| - 1] == '\n' || (s[|s| - 2] == '*' && s[|s| - 1] == '/'))
    ensures |BlankAll(s)| == |s| && BlankedOn(s + rest, BlankAll(s) + masked, i)
  {
    BlankAllAt(s, i);
    if i > 0 { BlankAllAt(s, i - 1); }
    if i + 1 < |s| { BlankAllAt(s, i + 1); }
  }

  lemma {:induction false} RenderOpensBlanked(ts: seq<Token>, mode: Mode)
    requires WellFormed(ts, mode)
    ensures OpensBlanked(Render(ts), RenderMasked(ts))
  {
    hide TokenOk, TokenText, TokenMasked;
    if ts != [] {
      RenderOpensBlanked(ts[1..], mode);
      TokenOpensBlanked(ts[0], Render(ts[1..]), RenderMasked(ts[1..]), mode);
    }
  }

  lemma {:induction false} HexRunBlanked(s: string, masked: string)
    requires Blanked(s, masked)
    ensures HexRun(masked) <= HexRun(s) && masked[..HexRun(masked)] == s[..HexRun(masked)]
    ensures HexRun(masked) < |s| && masked[HexRun(masked)] == '}' ==> HexRun(s) == HexRun(masked)
  {
    if s != [] && IsHexOrUnderscore(masked[0]) {
      HexRunBlanked(s[1..], masked[1..]);
      var n := HexRun(masked);
      assert masked[..n] == [masked[0]] + masked[1..][..n - 1] && s[..n] == [s[0]] + s[1..][..n - 1];
    }
  }

  lemma {:induction false} HasDigitOf(s: string, t: string, n: nat)
    requires n <= |s| && n <= |t| && s[..n] == t[..n]
    ensures HasDigit(s, n) == HasDigit(t, n)
  {
    if n > 0 {
      assert s[0] == s[..n][0] && t[0] == t[..n][0];
      assert s[1..][..n - 1] == s[..n][1..] && t[1..][..n - 1] == t[..n][1..];
      HasDigitOf(s[1..], t[1..], n - 1);
    }
  }

  /** Masking what follows makes no character literal out of a lone apostrophe. */
  lemma {:induction false} LifetimeStays(code: string, rest: string, masked: string)
    requires code != [] && !OpensCharacter(code + rest)
    requires Blanked(rest, masked) && OpensBlanked(rest, masked)
    ensures !OpensCharacter(code + masked)
  {
    hide CharLength, OpensCharacter, IsCharacter, Blanked, OpensBlanked;
    if code[0] == '\'' {
      CharacterMeaning(code + rest);
      CharacterMeaning(code + masked);
      ApostropheStays(code, rest, masked);
    } else {
      NoCharacterElsewhere(code + masked);
    }
  }

  lemma {:induction false} ApostropheStays(code: string, rest: string, masked: string)
    requires code != [] && code[0] == '\'' && CharLength(code + rest).None?
    requires Blanked(rest, masked) && OpensBlanked(rest, masked)
    ensures CharLength(code + masked).None?
  {
    hide HexRun, HasDigit;
    var s, t := code + rest, code + masked;
    BlankedSame(code);
    BlankedJoin(code, rest, code, masked);
    if CharLength(t).Some? {
      BlankedAt(s, t, 1);
      BlankedAt(s, t, 2);
      if s[1] != t[1] {
        LaterBlank(code, rest, masked, 1);
      } else if t[1] == '\\' {
        BlankedAt(s, t, 3);
        if t[2] != s[2] {
          LaterBlank(code, rest, masked, 2);
        } else if t[2] == 'u' && t[3] == '{' {
          BlankedDrop(s, t, 4);
          HexRunBlanked(s[4..], t[4..]);
          var n := HexRun(t[4..]);
          assert t[4..][n] == t[4 + n];
          BlankedAt(s, t, 4 + n);
          BlankedAt(s, t, 5 + n);
          HasDigitOf(s[4..], t[4..], n);
        } else if t[2] == 'x' {
          BlankedAt(s, t, 5);
        }
      }
    }
  }

  lemma {:induction false} LaterBlank(code: string, rest: string, masked: string, i: nat)
    requires OpensBlanked(rest, masked) && 0 < i < |code + rest| - 1 && |rest| == |masked|
    requires (code + rest)[i - 1] == (code + masked)[i - 1] && (code + rest)[i] != (code + masked)[i]
    ensures (code + masked)[i + 1] == ' ' || (code + masked)[i + 1] == '\n'
  {
    BlankedOnJoin(code, code, rest, masked, i);
  }

  lemma {:induction false} ScanGap(code: string, rest: string, masked: string, mode: Mode)
    requires GapOk(code, rest, mode) && Blanked(rest, masked) && OpensBlanked(rest, masked)
    ensures StringLiterals(code + masked, mode) == StringLiterals(masked, mode)
  {
    hide OpensRaw, RawOpener, CharLength, OpensBlanked, StringLiterals, OpensCharacter;
    if code == [] {
      assert code + masked == masked;
    } else {
      ScanGap(code[1..], rest, masked, mode);
      assert (code + masked)[1..] == code[1..] + masked;
      if mode.Rust? {
        BlankedSame(code);
        BlankedJoin(code, rest, code, masked);
        OpensRawBlanked(code + rest, code + masked);
        LifetimeStays(code, rest, masked);
      }
      SkipOne(code + masked, mode);
    }
  }

  lemma {:induction false} SkipOne(s: string, mode: Mode)
    requires s != [] && s[0] != '"' && s[0] != '`' && (mode.TypeScript? ==> s[0] != '\'')
    requires mode.Rust? ==> RawOpener(s).None? && !OpensCharacter(s)
    ensures StringLiterals(s, mode) == StringLiterals(s[1..], mode)
  {
    hide RawOpener, CharLength, EscapedBody, OpensCharacter;
    if s[0] == '\'' { CharacterMeaning(s); }
  }

  lemma {:induction false} HexRunOver(s: string, rest: string)
    requires HexRun(s) < |s|
    ensures HexRun(s + rest) == HexRun(s)
  {
    assert (s + rest)[1..] == s[1..] + rest;
    if IsHexOrUnderscore(s[0]) { HexRunOver(s[1..], rest); }
  }

  lemma {:induction false} CharacterOver(literal: string, rest: string)
    requires Recognised(literal)
    ensures CharLength(literal + rest) == Some(|literal|)
  {
    hide HexRun, HasDigit;
    var s := literal + rest;
    if literal[1] == '\\' && literal[2] == 'u' && literal[3] == '{' {
      var n := HexRun(literal[4..]);
      assert s[4..] == literal[4..] + rest;
      HexRunOver(literal[4..], rest);
      assert s[4..][..n] == literal[4..][..n];
      HasDigitOf(s[4..], literal[4..], n);
    }
  }

  lemma {:induction false} HasDigitMeans(s: string, n: nat)
    requires n <= |s|
    ensures HasDigit(s, n) <==> exists i :: 0 <= i < n && s[i] != '_'
  {
    if n > 0 {
      HasDigitMeans(s[1..], n - 1);
      if s[0] == '_' && exists i :: 0 <= i < n && s[i] != '_' {
        var i :| 0 <= i < n && s[i] != '_';
        assert s[1..][i - 1] == s[i];
      }
      if exists i :: 0 <= i < n - 1 && s[1..][i] != '_' {
        var i :| 0 <= i < n - 1 && s[1..][i] != '_';
        assert s[i + 1] == s[1..][i];
      }
    }
  }

  lemma {:induction false} HexRunTo(s: string, n: nat)
    requires n < |s| && s[n] == '}'
    requires forall i :: 0 <= i < n ==> IsHexOrUnderscore(s[i])
    ensures HexRun(s) == n
  {
    if n > 0 {
      assert forall i :: 0 <= i < n - 1 ==> s[1..][i] == s[i + 1];
      HexRunTo(s[1..], n - 1);
    }
  }

  /** A code point escape: `CharLength` takes all of it exactly when the grammar does. */
  lemma {:induction false} CodePointMeaning(literal: string)
    requires |literal| >= 4 && literal[0] == '\'' && literal[1] == '\\' && literal[2] == 'u' && literal[3] == '{'
    ensures Recognised(literal) <==> literal[|literal| - 1] == '\'' && |literal| >= 3 && IsCodePoint(literal[1..|literal| - 1])
  {
    var tail := literal[4..];
    var n := HexRun(tail);
    HasDigitMeans(tail, n);
    var inside := literal[1..|literal| - 1];
    if Recognised(literal) {
      assert inside[..3] == "\\u{";
      forall i | 3 <= i < |inside| - 1
        ensures '0' <= inside[i] <= '9' || 'a' <= inside[i] <= 'f' || 'A' <= inside[i] <= 'F' || inside[i] == '_'
      {
        HexRunAt(tail, i - 3);
        assert inside[i] == tail[i - 3];
      }
      var i :| 0 <= i < n && tail[i] != '_';
      assert inside[i + 3] == tail[i];
    }
    if literal[|literal| - 1] == '\'' && IsCodePoint(inside) {
      var m := |inside| - 4;
      assert forall i :: 0 <= i < m ==> tail[i] == inside[i + 3];
      assert tail[m] == inside[|inside| - 1];
      HexRunTo(tail, m);
      var i :| 3 <= i < |inside| - 1 && inside[i] != '_';
      assert tail[i - 3] == inside[i];
    }
  }

  /** The scanner takes a whole text for a character literal if and only if the grammar does. */
  lemma {:induction false} RecognisedMeaning(literal: string)
    ensures Recognised(literal) <==> IsCharacter(literal)
  {
    hide HexRun, HasDigit, IsCodePoint;
    if |literal| >= 4 && literal[0] == '\'' && literal[1] == '\\' && literal[2] == 'u' && literal[3] == '{' {
      CodePointMeaning(literal);
    } else if IsCharacter(literal) && IsCodePoint(literal[1..|literal| - 1]) {
      CodePointFront(literal);
    }
  }

  lemma {:induction false} CodePointFront(literal: string)
    requires |literal| >= 3 && IsCodePoint(literal[1..|literal| - 1])
    ensures |literal| >= 7 && literal[1] == '\\' && literal[2] == 'u' && literal[3] == '{'
  {
    var inside := literal[1..|literal| - 1];
    assert inside[..3][0] == inside[0] && inside[..3][1] == inside[1] && inside[..3][2] == inside[2];
  }

  lemma {:induction false} CharLengthCuts(s: string)
    requires s != [] && s[0] == '\'' && CharLength(s).Some?
    ensures Recognised(s[..CharLength(s).value])
  {
    hide HexRun, HasDigit;
    var n := CharLength(s).value;
    var t := s[..n];
    assert forall i :: 0 <= i < n ==> t[i] == s[i];
    if s[1] == '\\' && s[2] == 'u' && s[3] == '{' {
      var m := HexRun(s[4..]);
      assert s[4..][..n - 4] == t[4..];
      HexRunCut(s[4..], n - 4);
      assert s[4..][..m] == t[4..][..m];
      HasDigitOf(s[4..], t[4..], m);
    }
  }

  lemma {:induction false} HexRunCut(s: string, n: nat)
    requires HexRun(s) < n <= |s|
    ensures HexRun(s[..n]) == HexRun(s)
  {
    var t := s[..n];
    if IsHexOrUnderscore(s[0]) {
      assert t[1..] == s[1..][..n - 1];
      HexRunCut(s[1..], n - 1);
    }
  }

  /** What `_rust_char_literal_end` finds at an apostrophe: exactly the character literal of the
      grammar that stands there, and nothing when none does. */
  lemma {:induction false} CharacterMeaning(s: string)
    requires s != [] && s[0] == '\''
    ensures forall n :: CharLength(s) == Some(n) <==> 0 <= n <= |s| && IsCharacter(s[..n])
    ensures CharLength(s).Some? <==> OpensCharacter(s)
  {
    hide CharLength, IsCharacter, Recognised;
    if CharLength(s).Some? {
      CharLengthCuts(s);
      RecognisedMeaning(s[..CharLength(s).value]);
    }
    forall n | 0 <= n <= |s| && IsCharacter(s[..n]) ensures CharLength(s) == Some(n) {
      RecognisedMeaning(s[..n]);
      CharacterOver(s[..n], s[n..]);
      TakeDrop(s, n);
    }
  }

  lemma {:induction false} NoCharacterElsewhere(s: string)
    requires s == [] || s[0] != '\''
    ensures !OpensCharacter(s)
  {
  }

  lemma {:induction false} ScanCharacter(literal: string, rest: string)
    requires IsCharacter(literal)
    ensures RustLiterals(literal + rest) == RustLiterals(rest)
  {
    hide CharLength, RustLiterals, IsCharacter;
    RecognisedMeaning(literal);
    CharacterOver(literal, rest);
    assert (literal + rest)[0] == '\'';
    RustLiteralsAtChar(literal + rest);
    AppendDrop(literal, rest);
  }

  lemma {:induction false} ScanString(d: char, body: string, rest: string, mode: Mode)
    requires Delimits(d, mode) && WellEscaped(body, d)
    ensures StringLiterals(([d] + (body + [d])) + rest, mode) == [body] + StringLiterals(rest, mode)
  {
    hide EscapedBody, RawOpener, WellEscaped;
    QuotedParts(d, body, rest);
    NotRawOpener(([d] + (body + [d])) + rest);
  }

  lemma {:induction false} ScanRaw(prefix: string, h: nat, body: string, rest: string)
    requires IsRawPrefix(prefix) && NoTerminator(body, h)
    ensures RustLiterals(RawText(prefix, h, body) + rest) == [body] + RustLiterals(rest)
  {
    hide RawOpener, NoTerminator;
    var s := RawText("r", h, body) + rest;
    if prefix != "r" {
      var t := RawText(prefix, h, body) + rest;
      assert t == [prefix[0]] + s;
      assert t[1..] == s;
      NotRawOpener(t);
    }
    RawCut(h, body, rest);
  }

  lemma {:induction false} RustLiteralsAtRaw(s: string, h: nat, c: nat)
    requires RawOpener(s) == Some(h) && FindClose(s[h + 2..], h) == Some(c)
    ensures h + 2 + c + 1 + h <= |s| &&
            RustLiterals(s) == [s[h + 2..h + 2 + c]] + RustLiterals(s[h + 2 + c + 1 + h..])
  {
    hide FindClose, HashRun, RawOpener, EscapedBody, CharLength, Closes;
    assert s[0] == 'r';
  }

  lemma {:induction false} RawOpenerOf(h: nat, inside: string)
    ensures RawOpener("r" + (Hashes(h) + ("\"" + inside))) == Some(h)
  {
    hide HashRun;
    RawFront("r", h, inside);
  }

  /** The scanner's cut of a raw literal with prefix `r`. */
  lemma {:induction false} RawCut(h: nat, body: string, rest: string)
    requires NoTerminator(body, h)
    ensures RustLiterals(RawText("r", h, body) + rest) == [body] + RustLiterals(rest)
  {
    hide FindClose, NoTerminator, RawText, HashRun, RustLiterals, RawOpener;
    var s := RawText("r", h, body) + rest;
    var after := "\"" + (Hashes(h) + rest);
    var inside := body + after;
    RawTextAppend("r", h, body, rest);
    RawFront("r", h, inside);
    RawOpenerOf(h, inside);
    assert s[h + 2..] == inside;
    FindCloseOf(body, h, rest);
    RustLiteralsAtRaw(s, h, |body|);
    AppendDrop(body, after);
    DropTake(s, h + 2, |body|);
    RawTail(s, h, body, rest);
  }

  lemma {:induction false} RawTail(s: string, h: nat, body: string, rest: string)
    requires h + 2 <= |s| && s[h + 2..] == body + ("\"" + (Hashes(h) + rest))
    ensures h + 2 + |body| + 1 + h <= |s| && s[h + 2 + |body| + 1 + h..] == rest
  {
    var tail := Hashes(h) + rest;
    AppendDrop(body, "\"" + tail);
    DropDrop(s, h + 2, |body|);
    AppendDrop("\"", tail);
    DropDrop(s, h + 2 + |body|, 1);
    AppendDrop(Hashes(h), rest);
    DropDrop(s, h + 2 + |body| + 1, h);
  }

  lemma {:induction false} ScanToken(t: Token, rest: string, masked: string, mode: Mode)
    requires TokenOk(t, rest, mode) && Blanked(rest, masked) && OpensBlanked(rest, masked)
    ensures StringLiterals(TokenMasked(t) + masked, mode) == TokenBodies(t) + StringLiterals(masked, mode)
  {
    hide StringLiterals, WellEscaped, NoTerminator, Nested, Blanked, OpensBlanked, Harmless, IsCharacter;
    match t
    case Gap(code) => ScanGap(code, rest, masked, mode);
    case Char(literal) => ScanRustCharacter(literal, masked);
    case Str(d, body) => ScanString(d, body, masked, mode);
    case Raw(prefix, h, body) => ScanRustRaw(prefix, h, body, masked);
    case LineComment(_) => SkipBlanks(TokenText(t), masked, mode);
    case LastComment(_) => SkipBlanks(TokenText(t), masked, mode);
    case BlockComment(_) => SkipBlanks(TokenText(t), masked, mode);
  }

  lemma {:induction false} ScanRustCharacter(literal: string, rest: string)
    requires IsCharacter(literal)
    ensures StringLiterals(literal + rest, Rust) == [] + StringLiterals(rest, Rust)
  {
    ScanCharacter(literal, rest);
  }

  lemma {:induction false} ScanRustRaw(prefix: string, h: nat, body: string, rest: string)
    requires IsRawPrefix(prefix) && NoTerminator(body, h)
    ensures StringLiterals(RawText(prefix, h, body) + rest, Rust) == [body] + StringLiterals(rest, Rust)
  {
    ScanRaw(prefix, h, body, rest);
  }

  lemma {:induction false} ScanOfMasked(ts: seq<Token>, mode: Mode)
    requires WellFormed(ts, mode)
    ensures StringLiterals(RenderMasked(ts), mode) == Bodies(ts)
  {
    hide StringLiterals, TokenOk, TokenMasked, TokenBodies, OpensBlanked;
    if ts == [] {
      NoLiterals(mode);
    } else {
      var rest := ts[1..];
      MaskOfRendering(rest, mode);
      MaskShape(Render(rest), Code, mode);
      RenderOpensBlanked(rest, mode);
      ScanToken(ts[0], Render(rest), RenderMasked(rest), mode);
      ScanOfMasked(rest, mode);
    }
  }

  lemma {:induction false} NoLiterals(mode: Mode)
    ensures StringLiterals([], mode) == []
  {
  }

  /** Masking keeps the meaning of the literal scanners: on the rendering of any well-formed list
      of literals, comments and code, scanning the masked text yields exactly the literal bodies
      in order, whatever quotes the comments and whatever comment markers the literals contain. */
  lemma {:induction false} ScanAfterMasking(ts: seq<Token>, mode: Mode)
    requires WellFormed(ts, mode)
    ensures StringLiterals(Mask(Render(ts), Code, mode), mode) == Bodies(ts)
  {
    MaskOfRendering(ts, mode);
    ScanOfMasked(ts, mode);
  }

  // ---------------------------------------------------------------- character literals

  /** Whether scanning after masking is right behind a character literal, whatever tokens follow. */
  ghost predicate KeepsMeaning(literal: string) {
    forall ts :: WellFormed(ts, Rust) ==> RustLiterals(Mask(literal + Render(ts), Code, Rust)) == Bodies(ts)
  }

  /** The exact limit of the Rust mode.  The scanner knows character literals and the masker does
      not, so a quote or a comment opener in one misleads the masker: scanning after masking is
      right for every continuation if and only if the literal is harmless. */
  lemma {:induction false} CharacterLiteralKept(literal: string)
    requires IsCharacter(literal)
    ensures KeepsMeaning(literal) <==> Harmless(literal)
  {
    hide Mask, RustLiterals, IsCharacter, Harmless, WellFormed;
    if Harmless(literal) {
      forall ts | WellFormed(ts, Rust) ensures RustLiterals(Mask(literal + Render(ts), Code, Rust)) == Bodies(ts) {
        MaskCharacter(literal, Render(ts));
        ScanCharacter(literal, Mask(Render(ts), Code, Rust));
        ScanRustAfterMasking(ts);
      }
    } else if OpensQuote(literal) {
      CharacterLiteralHidesComment(literal);
      QuotedCommentOk();
      assert Render([LineComment("\"x\"")]) == HIDDEN;
      assert Bodies([LineComment("\"x\"")]) == [];
    } else {
      HarmfulShape(literal);
      CharacterLiteralOpensComment(literal[4]);
      assert literal == CommentCharacter(literal[4]);
      QuotedOk();
      assert Render([Str('"', "x")]) == "\"x\"";
      assert Bodies([Str('"', "x")]) == ["x"];
    }
  }

  lemma {:induction false} ScanRustAfterMasking(ts: seq<Token>)
    requires WellFormed(ts, Rust)
    ensures RustLiterals(Mask(Render(ts), Code, Rust)) == Bodies(ts)
  {
    ScanAfterMasking(ts, Rust);
  }

  /** A comment line that holds a string. */
  const HIDDEN := "//\"x\"\n"

  lemma {:induction false} QuotedCommentOk()
    ensures WellFormed([LineComment("\"x\"")], Rust)
  {
  }

  lemma {:induction false} QuotedOk()
    ensures WellFormed([Str('"', "x")], Rust)
  {
    assert WellEscaped("x", '"') by { assert "x"[1..] == ""; }
  }

  /** The literal holds a quote that leaves the masker inside a string. */
  predicate OpensQuote(literal: string) {
    !Unquoted(literal) && literal != "'\\x\"\"'" && literal != "'\\x``'"
  }

  function CommentCharacter(second: char): string {
    "'\\x/" + [second] + "'"
  }

  lemma {:induction false} HarmfulShape(literal: string)
    requires IsCharacter(literal) && !Harmless(literal) && !OpensQuote(literal)
    ensures |literal| == 6 && IsSlash(literal[4]) && literal == CommentCharacter(literal[4])
  {
    hide CharLength, IsCharacter;
    RecognisedMeaning(literal);
    CharacterShape(literal);
    var i :| 0 < i < |literal| && literal[i - 1] == '/' && IsSlash(literal[i]);
    assert literal[i] != '\'' && literal[i - 1] != '\'' && literal[0] == '\'';
  }

  /** Every character literal that opens a quote: the masker takes the rest of the line for
      strings and keeps it whole, and the scanner reports a string out of a comment. */
  lemma {:induction false} CharacterLiteralHidesComment(literal: string)
    requires IsCharacter(literal) && OpensQuote(literal)
    ensures var text := literal + HIDDEN;
            Mask(text, Code, Rust) == text && RustLiterals(Mask(text, Code, Rust)) == ["x"]
  {
    hide Mask, RustLiterals, CharLength, IsCharacter;
    RecognisedMeaning(literal);
    CharacterShape(literal);
    if |literal| == 3 {
      assert literal == "'" + [literal[1]] + "'";
      KeptBehindQuote("'", literal[1], "'");
    } else if |literal| == 4 {
      assert literal == "'\\" + [literal[2]] + "'";
      KeptBehindQuote("'\\", literal[2], "'");
    } else if literal[3] == '"' || literal[3] == '`' {
      assert literal == "'\\x" + [literal[3]] + [literal[4], '\''];
      TwoQuotesAreHarmless(literal);
      KeptBehindQuote("'\\x", literal[3], [literal[4], '\'']);
    } else {
      assert literal == ("'\\x" + [literal[3]]) + [literal[4]] + "'";
      KeptBehindPair(literal[3], literal[4]);
    }
    ScanCharacter(literal, HIDDEN);
    ScanHidden();
  }

  lemma {:induction false} TwoQuotesAreHarmless(literal: string)
    requires |literal| == 6 && literal[..3] == "'\\x" && literal[5] == '\'' && OpensQuote(literal)
    requires literal[3] == '"' || literal[3] == '`'
    ensures literal[3] != literal[4]
  {
    assert literal == literal[..3] + [literal[3], literal[4], literal[5]];
    if literal[3] == literal[4] {
      assert false;
    }
  }

  /** After a quote the masker keeps everything, the comment line included. */
  lemma {:induction false} KeptInQuote(q: char, after: string)
    requires q == '"' || q == '`'
    requires |after| == 1 || |after| == 2
    requires after[|after| - 1] == '\'' && after[0] != q
    ensures Mask(after + HIDDEN, Quoted(q, false), Rust) == after + HIDDEN
  {
    hide Mask;
    if q == '"' {
      assert after + HIDDEN == (after + "//") + (['"'] + "x\"\n");
      EscapedEnd(after, "//", q);
      MaskQuoted(after + "//", q, "x\"\n", Rust);
      KeptRest();
    } else {
      assert HIDDEN == "//" + "\"x\"\n" && "//" + ("\"x\"\n" + "") == HIDDEN;
      EscapedEnd(after, HIDDEN, q);
      MaskOpenQuote(after + HIDDEN, q);
    }
  }

  lemma {:induction false} EscapedEnd(after: string, more: string, q: char)
    requires (|after| == 1 || |after| == 2) && after[|after| - 1] == '\'' && after[0] != q && q != '\''
    requires forall i :: 0 <= i < |more| ==> more[i] != q && more[i] != '\\'
    ensures WellEscaped(after + more, q)
  {
    EscapedPlain(more, q);
    var s := after + more;
    if |after| == 1 {
      assert s[1..] == more;
    } else {
      assert s[2..] == more && s[1..] == ['\''] + more && s[1..][1..] == more;
    }
  }

  lemma {:induction false} EscapedPlain(text: string, q: char)
    requires forall i :: 0 <= i < |text| ==> text[i] != q && text[i] != '\\'
    ensures WellEscaped(text, q)
  {
    if text != [] { EscapedPlain(text[1..], q); }
  }

  lemma {:induction false} MaskOpenQuote(text: string, q: char)
    requires WellEscaped(text, q) && q != '\\'
    ensures Mask(text, Quoted(q, false), Rust) == text
    decreases |text|
  {
    hide Mask;
    if text == [] {
      MaskNothing(Quoted(q, false), Rust);
    } else if text[0] == '\\' {
      assert text == [text[0]] + ([text[1]] + text[2..]);
      MaskCons(text[0], [text[1]] + text[2..], Quoted(q, false), Rust);
      MaskCons(text[1], text[2..], Quoted(q, true), Rust);
      MaskOpenQuote(text[2..], q);
    } else {
      assert text == [text[0]] + text[1..];
      MaskCons(text[0], text[1..], Quoted(q, false), Rust);
      MaskOpenQuote(text[1..], q);
    }
  }

  lemma {:induction false} MaskNothing(st: State, mode: Mode)
    ensures Mask([], st, mode) == []
  {
  }

  lemma {:induction false} KeptRest()
    ensures Mask("x\"\n", Code, Rust) == "x\"\n"
  {
    hide Mask;
    assert "x\"\n" == ['x'] + (['"'] + "\n");
    QuoteNotRaw('x', ['"'] + "\n", Rust);
    MaskCons('x', ['"'] + "\n", Code, Rust);
    QuoteNotRaw('"', "\n", Rust);
    MaskCons('"', "\n", Code, Rust);
    EscapedPlain("\n", '"');
    MaskOpenQuote("\n", '"');
  }

  lemma {:induction false} KeptBehindQuote(front: string, q: char, after: string)
    requires (q == '"' || q == '`') && (front == "'" || front == "'\\" || front == "'\\x")
    requires (|after| == 1 || |after| == 2) && after[|after| - 1] == '\'' && after[0] != q
    ensures Mask((front + [q] + after) + HIDDEN, Code, Rust) == (front + [q] + after) + HIDDEN
  {
    hide Mask;
    var rest := after + HIDDEN;
    assert (front + [q] + after) + HIDDEN == front + ([q] + rest);
    QuietHexEscape(front, [q] + rest);
    MaskGap(front, [q] + rest, Rust);
    QuoteNotRaw(q, rest, Rust);
    MaskCons(q, rest, Code, Rust);
    KeptInQuote(q, after);
  }

  /** The quote is the second of the two characters after `\x`; `r"` even opens a raw literal. */
  lemma {:induction false} KeptBehindPair(a: char, q: char)
    requires (q == '"' || q == '`') && a != '"' && a != '`'
    ensures var literal := ("'\\x" + [a]) + [q] + "'";
            Mask(literal + HIDDEN, Code, Rust) == literal + HIDDEN
  {
    hide Mask;
    var rest := "'" + HIDDEN;
    var pair := [a] + ([q] + rest);
    assert (("'\\x" + [a]) + [q] + "'") + HIDDEN == "'\\x" + pair;
    QuietHexEscape("'\\x", pair);
    MaskGap("'\\x", pair, Rust);
    if a == 'r' && q == '"' {
      assert pair == RawText("r", 0, "'//") + "x\"\n" by { assert Hashes(0) == ""; }
      assert NoTerminator("'//", 0) by { NoQuoteNoTerminator("'//"); }
      MaskRaw("r", 0, "'//", "x\"\n");
      KeptRest();
    } else {
      PairNotRaw(a, q, rest);
      MaskCons(a, [q] + rest, Code, Rust);
      QuoteNotRaw(q, rest, Rust);
      MaskCons(q, rest, Code, Rust);
      KeptInQuote(q, "'");
    }
  }

  lemma {:induction false} NoQuoteNoTerminator(body: string)
    requires Unquoted(body)
    ensures NoTerminator(body, 0)
  {
    if body != [] { NoQuoteNoTerminator(body[1..]); }
  }

  lemma {:induction false} PairNotRaw(a: char, q: char, rest: string)
    requires (q == '"' || q == '`') && !(a == 'r' && q == '"')
    ensures RawAhead([a] + ([q] + rest), Rust).None?
  {
    var s := [a] + ([q] + rest);
    assert s[0] == a && s[1] == q && s[1..] == [q] + rest;
  }

  lemma {:induction false} ScanHidden()
    ensures RustLiterals(HIDDEN) == ["x"]
  {
    hide RustLiterals, EscapedBody;
    var line := ("\"" + ("x" + "\"")) + "\n";
    assert HIDDEN == ['/'] + (['/'] + line);
    NotRawOpener(HIDDEN);
    RustLiteralsAtOther(HIDDEN);
    assert HIDDEN[1..] == ['/'] + line;
    NotRawOpener(['/'] + line);
    RustLiteralsAtOther(['/'] + line);
    assert (['/'] + line)[1..] == line;
    EscapedPlain("x", '"');
    ScanString('"', "x", "\n", Rust);
    assert line == (['"'] + ("x" + ['"'])) + "\n";
    NotRawOpener("\n");
    RustLiteralsAtOther("\n");
    assert "\n"[1..] == "";
    RustLiteralsEmpty();
  }

  /** The other way to mislead the masker: it blanks what follows a comment opener. */
  lemma {:induction false} CharacterLiteralOpensComment(second: char)
    requires IsSlash(second)
    ensures RustLiterals(Mask(CommentCharacter(second) + "\"x\"", Code, Rust)) == []
  {
    hide Mask, RustLiterals, CharLength;
    var tail := "'" + "\"x\"";
    assert CommentCharacter(second) + "\"x\"" == "'\\x" + (['/'] + ([second] + tail));
    QuietHexEscape("'\\x", ['/'] + ([second] + tail));
    MaskGap("'\\x", ['/'] + ([second] + tail), Rust);
    if second == '*' {
      assert ['/'] + ([second] + tail) == ['/', '*'] + tail;
      MaskPair('/', '*', tail, Code, Rust);
      TailBlanked(Block(1));
    } else {
      RawNotComment(['/'] + ([second] + tail), Rust);
      MaskCons('/', [second] + tail, Code, Rust);
      MaskCons('/', tail, Line, Rust);
      TailBlanked(Line);
      assert " " + (" " + "    ") == "  " + "    ";
    }
    assert "'\\x" + ("  " + "    ") == ['\''] + (['\\'] + (['x'] + "      "));
    ScanBlankedCharacter();
  }

  lemma {:induction false} TailBlanked(st: State)
    requires st == Line || st == Block(1)
    ensures Mask("'" + "\"x\"", st, Rust) == "    "
  {
    hide Mask;
    assert "'" + "\"x\"" == ['\''] + (['"'] + (['x'] + (['"'] + "")));
    MaskNothing(st, Rust);
    MaskCons('"', "", st, Rust);
    MaskCons('x', ['"'] + "", st, Rust);
    MaskCons('"', ['x'] + (['"'] + ""), st, Rust);
    MaskCons('\'', ['"'] + (['x'] + (['"'] + "")), st, Rust);
  }

  lemma {:induction false} ScanBlankedCharacter()
    ensures RustLiterals(['\''] + (['\\'] + (['x'] + "      "))) == []
  {
    hide RustLiterals;
    var s := ['\''] + (['\\'] + (['x'] + "      "));
    assert s[1] == '\\' && s[2] == 'x' && s[5] == ' ';
    RustLiteralsAtChar(s);
    assert s[1..] == ['\\'] + (['x'] + "      ");
    RustLiteralsAtOther(['\\'] + (['x'] + "      "));
    assert (['\\'] + (['x'] + "      "))[1..] == ['x'] + "      ";
    RustLiteralsAtOther(['x'] + "      ");
    assert (['x'] + "      ")[1..] == "      ";
    ScanSpaces("      ");
  }

  lemma {:induction false} ScanSpaces(s: string)
    requires forall i :: 0 <= i < |s| ==> s[i] == ' '
    ensures RustLiterals(s) == []
  {
    if s != [] {
      NotRawOpener(s);
      RustLiteralsAtOther(s);
      ScanSpaces(s[1..]);
    }
  }

  lemma {:induction false} RustLiteralsEmpty()
    ensures RustLiterals([]) == []
  {
  }

  lemma {:induction false} RustLiteralsAtChar(s: string)
    requires s != [] && s[0] == '\''
    ensures RustLiterals(s) == RustLiterals(s[if CharLength(s).Some? then CharLength(s).value else 1..])
  {
    hide CharLength;
  }

  lemma {:induction false} RustLiteralsAtOther(s: string)
    requires s != [] && s[0] != '\'' && s[0] != '"' && RawOpener(s).None?
    ensures RustLiterals(s) == RustLiterals(s[1..])
  {
    hide CharLength, EscapedBody, RawOpener;
  }

  lemma {:induction false} RustLiteralsAtString(s: string, n: nat)
    requires s != [] && s[0] == '"' && EscapedBody(s[1..], '"') == Some(n)
    ensures RustLiterals(s) == [s[1..1 + n]] + RustLiterals(s[n + 2..])
  {
    hide EscapedBody;
  }

  lemma {:induction false} RustLiteralsStop(s: string)
    requires s != []
    requires if s[0] == '"' then EscapedBody(s[1..], '"').None?
             else RawOpener(s).Some? && FindClose(s[RawOpener(s).value + 2..], RawOpener(s).value).None?
    ensures RustLiterals(s) == []
  {
    hide EscapedBody, FindClose;
  }

  // ---------------------------------------------------------------- literals that never close

  /** The scan for a delimiter finds the first one that no backslash escapes. */
  lemma {:induction false} EscapedBodyMeaning(s: string, d: char, n: nat)
    requires d != '\\' && n < |s|
    ensures EscapedBody(s, d) == Some(n) <==> s[n] == d && WellEscaped(s[..n], d)
    decreases n
  {
    if s[0] == '\\' {
      if n > 0 { assert s[..n][0] == '\\'; }
      if n >= 2 {
        assert s[..n][2..] == s[2..][..n - 2];
        EscapedBodyMeaning(s[2..], d, n - 2);
      }
    } else if n > 0 {
      assert s[..n][0] == s[0] && s[..n][1..] == s[1..][..n - 1];
      EscapedBodyMeaning(s[1..], d, n - 1);
    }
  }

  /** After a delimiter that opens a literal no unescaped one follows. */
  ghost predicate NeverCloses(s: string, d: char) {
    forall n :: 0 <= n < |s| && s[n] == d ==> !WellEscaped(s[..n], d)
  }

  /** A literal that never closes ends the scan. */
  lemma {:induction false} OpenLiteralEndsScan(d: char, s: string, mode: Mode)
    requires Delimits(d, mode) && NeverCloses(s, d)
    ensures StringLiterals([d] + s, mode) == []
  {
    hide EscapedBody, WellEscaped, CharLength;
    assert ([d] + s)[1..] == s;
    if EscapedBody(s, d).Some? { EscapedBodyMeaning(s, d, EscapedBody(s, d).value); }
    NotRawOpener([d] + s);
  }

  /** A raw literal without its terminator ends the scan, too. */
  lemma {:induction false} OpenRawLiteralEndsScan(h: nat, inside: string)
    requires forall n :: 0 <= n <= |inside| ==> !("\"" + Hashes(h) <= inside[n..])
    ensures RustLiterals("r" + (Hashes(h) + ("\"" + inside))) == []
  {
    hide FindClose, RawOpener, Closes, HashRun, Hashes;
    var s := "r" + (Hashes(h) + ("\"" + inside));
    RawOpenerOf(h, inside);
    assert s[h + 2..] == inside;
    if FindClose(inside, h).Some? {
      var n := FindClose(inside, h).value;
      FoundCloses(inside, h);
      CloseIsTerminator(inside[n..], h);
    }
    RustLiteralsStop(s);
  }

  lemma {:induction false} FoundCloses(s: string, h: nat)
    requires FindClose(s, h).Some?
    ensures Closes(s[FindClose(s, h).value..], h)
  {
    hide Closes;
    if !Closes(s, h) {
      FoundCloses(s[1..], h);
      DropDrop(s, 1, FindClose(s[1..], h).value);
    } else {
      assert s[0..] == s;
    }
  }

  lemma {:induction false} CloseIsTerminator(s: string, h: nat)
    requires Closes(s, h)
    ensures "\"" + Hashes(h) <= s
  {
    HashesLead(s[1..], h);
    assert s == [s[0]] + s[1..];
  }

  lemma {:induction false} HashesLead(s: string, h: nat)
    requires HashRun(s) >= h
    ensures Hashes(h) <= s
  {
    if h > 0 {
      HashesLead(s[1..], h - 1);
      assert s == [s[0]] + s[1..];
    }
  }

  // ---------------------------------------------------------------- the loops

  /** Position of the closing delimiter, seen from `cursor`. */
  function ClosingFrom(code: string, cursor: nat, delimiter: char): Option<nat> {
    if cursor > |code| || EscapedBody(code[cursor..], delimiter).None? then None
    else Some(cursor + EscapedBody(code[cursor..], delimiter).value)
  }

  lemma {:induction false} ClosingFromStep(code: string, cursor: nat, delimiter: char)
    requires cursor < |code| && delimiter != '\\'
    ensures ClosingFrom(code, cursor, delimiter) ==
            if code[cursor] == '\\' then ClosingFrom(code, cursor + 2, delimiter)
            else if code[cursor] == delimiter then Some(cursor)
            else ClosingFrom(code, cursor + 1, delimiter)
  {
    if cursor + 2 <= |code| { DropDrop(code, cursor, 2); }
    DropDrop(code, cursor, 1);
  }

  /** `_escaped_literal`: body and exclusive end of the literal whose delimiter is at `opening`. */
  method EscapedLiteral(code: string, opening: nat, delimiter: char) returns (literal: Option<(string, nat)>)
    requires opening < |code| && delimiter != '\\'
    ensures var n := EscapedBody(code[opening + 1..], delimiter);
            literal == if n.None? then None
                       else Some((code[opening + 1..opening + 1 + n.value], opening + n.value + 2))
  {
    hide EscapedBody;
    var cursor := opening + 1;
    while cursor < |code|
      invariant opening + 1 <= cursor
      invariant ClosingFrom(code, cursor, delimiter) == ClosingFrom(code, opening + 1, delimiter)
      decreases |code| + 2 - cursor
    {
      var character := code[cursor];
      ClosingFromStep(code, cursor, delimiter);
      if character == '\\' {
        cursor := cursor + 2;
        continue;
      }
      if character == delimiter {
        return Some((code[opening + 1..cursor], cursor + 1));
      }
      cursor := cursor + 1;
    }
    return None;
  }

  /** `_typescript_string_literals`. */
  method TypeScriptStringLiterals(code: string) returns (values: seq<string>)
    ensures values == TypeScriptLiterals(code)
  {
    hide EscapedBody, TypeScriptLiterals;
    values := [];
    var cursor := 0;
    while cursor < |code|
      invariant 0 <= cursor <= |code|
      invariant values + TypeScriptLiterals(code[cursor..]) == TypeScriptLiterals(code)
    {
      var delimiter := code[cursor];
      ghost var s := code[cursor..];
      DropDrop(code, cursor, 1);
      TypeScriptLiteralsAt(s);
      if delimiter !in {'"', '\'', '`'} {
        cursor := cursor + 1;
        continue;
      }
      var literal := EscapedLiteral(code, cursor, delimiter);
      if literal.None? {
        return;
      }
      ghost var n := literal.value.1 - cursor - 2;
      DropSlice(code, cursor, 1, 1 + n);
      DropDrop(code, cursor, n + 2);
      values, cursor := values + [literal.value.0], literal.value.1;
    }
    TypeScriptLiteralsEmpty();
  }

  lemma {:induction false} TypeScriptLiteralsAt(s: string)
    requires s != []
    ensures TypeScriptLiterals(s) ==
            if s[0] != '"' && s[0] != '\'' && s[0] != '`' then TypeScriptLiterals(s[1..])
            else if EscapedBody(s[1..], s[0]).None? then []
            else [s[1..1 + EscapedBody(s[1..], s[0]).value]] + TypeScriptLiterals(s[EscapedBody(s[1..], s[0]).value + 2..])
  {
    hide EscapedBody;
  }

  lemma {:induction false} TypeScriptLiteralsEmpty()
    ensures TypeScriptLiterals([]) == []
  {
  }

  /** The inner loop over the digits of a `\u{...}` escape. */
  method HexEscapeEnd(code: string, start: nat) returns (closing: nat, digits: nat)
    requires start <= |code|
    ensures closing == start + HexRun(code[start..])
    ensures digits > 0 <==> HasDigit(code[start..], HexRun(code[start..]))
  {
    closing, digits := start, 0;
    ghost var s := code[start..];
    while closing < |code| && IsHexOrUnderscore(code[closing])
      invariant start <= closing <= |code|
      invariant HexRun(s) == closing - start + HexRun(code[closing..])
      invariant digits > 0 <==> HasDigit(s, closing - start)
    {
      HasDigitStep(s, closing - start);
      DropDrop(code, closing, 1);
      digits := digits + (if code[closing] != '_' then 1 else 0);
      closing := closing + 1;
    }
  }

  /** `_rust_char_literal_end`. */
  method RustCharLiteralEnd(code: string, opening: nat) returns (end: Option<nat>)
    requires opening < |code|
    ensures var n := CharLength(code[opening..]);
            end == if n.None? then None else Some(opening + n.value)
  {
    var body := opening + 1;
    if body >= |code| || code[body] in {'\'', '\r', '\n'} {
      return None;
    }
    var closing;
    if code[body] != '\\' {
      closing := body + 1;
    } else if body + 1 >= |code| {
      return None;
    } else if code[body + 1] == 'x' {
      closing := body + 4;
    } else if code[body + 1] == 'u' && body + 2 < |code| && code[body + 2] == '{' {
      var digits;
      DropDrop(code, opening, 4);
      closing, digits := HexEscapeEnd(code, body + 3);
      if digits == 0 || closing >= |code| || code[closing] != '}' {
        return None;
      }
      closing := closing + 1;
    } else {
      closing := body + 2;
    }
    assert closing < |code| ==> code[opening..][closing - opening] == code[closing];
    if closing < |code| && code[closing] == '\'' {
      return Some(closing + 1);
    }
    return None;
  }

  lemma {:induction false} HasDigitStep(s: string, n: nat)
    requires n < |s|
    ensures HasDigit(s, n + 1) <==> HasDigit(s, n) || s[n] != '_'
  {
    if n > 0 { HasDigitStep(s[1..], n - 1); }
  }

  /** `_rust_string_literals`. */
  method RustStringLiterals(code: string) returns (values: seq<string>)
    ensures values == RustLiterals(code)
  {
    hide EscapedBody, FindClose, CharLength, RustLiterals, RawOpener;
    values := [];
    var cursor := 0;
    while cursor < |code|
      invariant 0 <= cursor <= |code|
      invariant values + RustLiterals(code[cursor..]) == RustLiterals(code)
    {
      var character := code[cursor];
      ghost var s := code[cursor..];
      DropDrop(code, cursor, 1);
      if character == '\'' {
        RustLiteralsAtChar(s);
        var charEnd := RustCharLiteralEnd(code, cursor);
        if charEnd.Some? { DropDrop(code, cursor, charEnd.value - cursor); }
        cursor := if charEnd.Some? then charEnd.value else cursor + 1;
        continue;
      }
      if character == 'r' {
        var hashesEnd := RawHashesEnd(code, cursor);
        var hashCount := hashesEnd - cursor - 1;
        if hashesEnd < |code| && code[hashesEnd] == '"' {
          var body := hashesEnd + 1;
          DropDrop(code, cursor, body - cursor);
          var closing := FindClose(code[body..], hashCount);
          if closing.None? {
            RustLiteralsStop(s);
            RustLiteralsEmpty();
            break;
          }
          RustLiteralsAtRaw(s, hashCount, closing.value);
          DropSlice(code, cursor, hashCount + 2, hashCount + 2 + closing.value);
          DropDrop(code, cursor, hashCount + 2 + closing.value + 1 + hashCount);
          values := values + [code[body..body + closing.value]];
          cursor := body + closing.value + 1 + hashCount;
          continue;
        }
      }
      if character != '"' {
        NotRawOpener(s);
        RustLiteralsAtOther(s);
        cursor := cursor + 1;
        continue;
      }
      var literal := EscapedLiteral(code, cursor, '"');
      if literal.None? {
        RustLiteralsStop(s);
        RustLiteralsEmpty();
        break;
      }
      ghost var n := literal.value.1 - cursor - 2;
      RustLiteralsAtString(s, n);
      DropSlice(code, cursor, 1, 1 + n);
      DropDrop(code, cursor, n + 2);
      values, cursor := values + [literal.value.0], literal.value.1;
    }
    if cursor == |code| { RustLiteralsEmpty(); }
  }

  /** The scanner's inner loop over the hashes of a raw opener. */
  method RawHashesEnd(code: string, cursor: nat) returns (hashesEnd: nat)
    requires cursor < |code| && code[cursor] == 'r'
    ensures cursor < hashesEnd <= |code|
    ensures RawOpener(code[cursor..]) ==
            if hashesEnd < |code| && code[hashesEnd] == '"' then Some(hashesEnd - cursor - 1) else None
  {
    hashesEnd := cursor + 1;
    while hashesEnd < |code| && code[hashesEnd] == '#'
      invariant cursor + 1 <= hashesEnd <= |code|
      invariant HashRun(code[cursor + 1..]) == hashesEnd - cursor - 1 + HashRun(code[hashesEnd..])
    {
      DropDrop(code, hashesEnd, 1);
      hashesEnd := hashesEnd + 1;
    }
    DropDrop(code, cursor, 1);
  }
}
