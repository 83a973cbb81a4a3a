/** The comment masker of the boundary guard (check_architecture.py).

    Everything the masker decides depends only on the text still ahead and on what it is inside
    of, so the specification consumes a suffix and a state; the index-driven loop
    `WithoutComments` is proved to compute it. */
module Masking {
  import opened Sequences
  import opened Wrappers

  datatype Mode = Rust | TypeScript

  /** What the scanner is inside of. `Line` is the source's inner loop over a line comment. */
  datatype State = Code | Quoted(delimiter: char, escaped: bool) | Block(depth: nat) | Line

  predicate IsQuote(c: char, mode: Mode) {
    c == '"' || c == '`' || (mode.TypeScript? && c == '\'')
  }

  /** Number of leading `#` characters. */
  function HashRun(s: string): (n: nat)
    ensures n <= |s|
  {
    if s != [] && s[0] == '#' then 1 + HashRun(s[1..]) else 0
  }

  /** The terminator, a quote followed by `h` hashes, is a prefix of `s`. */
  predicate Closes(s: string, h: nat) {
    s != [] && s[0] == '"' && HashRun(s[1..]) >= h
  }

  /** `s.find(terminator)`: the first position where the terminator stands. */
  function FindClose(s: string, h: nat): (r: Option<nat>)
    ensures r.Some? ==> r.value + 1 + h <= |s|
  {
    if Closes(s, h) then Some(0)
    else if s == [] then None
    else
      var r := FindClose(s[1..], h);
      if r.Some? then Some(1 + r.value) else None
  }

  /** Length of the prefix `r`, `br` or `cr`; zero when there is none. */
  function RawPrefix(s: string): nat {
    if |s| >= 2 && (s[0] == 'b' || s[0] == 'c') && s[1] == 'r' then 2
    else if |s| >= 1 && s[0] == 'r' then 1
    else 0
  }

  /** Total length of the complete Rust raw literal at the front of `s`, if there is one. */
  function RawLength(s: string): (r: Option<nat>)
    ensures r.Some? ==> 2 <= r.value <= |s| && s[0] in {'b', 'c', 'r'}
  {
    var p := RawPrefix(s);
    if p == 0 then None else
    var h := HashRun(s[p..]);
    if p + h == |s| || s[p + h] != '"' then None else
    var closing := FindClose(s[p + h + 1..], h);
    if closing.None? then None else Some(p + h + 1 + closing.value + 1 + h)
  }

  function Blank(c: char): char {
    if c == '\n' then '\n' else ' '
  }

  /** One move of the scanner: what it writes, how far it advances and where it is afterwards. */
  datatype Move = Move(emitted: string, consumed: nat, next: State)

  /** The move decided by the current character, the one after it (or "") and the raw literal that
      starts here, if any. */
  function Choose(c: char, following: string, raw: Option<string>, st: State, mode: Mode): Move {
    match st
    case Block(d) =>
      if c == '/' && following == "*" then Move("  ", 2, Block(d + 1))
      else if c == '*' && following == "/" then Move("  ", 2, if d <= 1 then Code else Block(d - 1))
      else Move([Blank(c)], 1, st)
    case Quoted(q, escaped) =>
      Move([c], 1,
           if escaped then Quoted(q, false)
           else if c == '\\' then Quoted(q, true)
           else if c == q then Code
           else st)
    case Line =>
      Move([Blank(c)], 1, if c == '\n' then Code else Line)
    case Code =>
      if raw.Some? then Move(raw.value, |raw.value|, Code)
      else if c == '/' && following == "/" then Move(" ", 1, Line)
      else if c == '/' && following == "*" then Move("  ", 2, Block(1))
      else Move([c], 1, if IsQuote(c, mode) then Quoted(c, false) else Code)
  }

  function Following(s: string): string {
    if |s| > 1 then [s[1]] else ""
  }

  /** The raw literal at the front of `s` as the masker sees it: only in Rust. */
  function RawAhead(s: string, mode: Mode): (r: Option<string>)
    ensures r.Some? ==> 2 <= |r.value| <= |s| && r.value == s[..|r.value|]
  {
    if mode.Rust? && RawLength(s).Some? then Some(s[..RawLength(s).value]) else None
  }

  /** The move at a non-empty suffix `s`. */
  function Next(s: string, st: State, mode: Mode): (m: Move)
    requires s != []
    ensures 0 < m.consumed == |m.emitted| <= |s|
  {
    Choose(s[0], Following(s), RawAhead(s, mode), st, mode)
  }

  /** The masked form of the suffix `s`, entered in state `st`. */
  function Mask(s: string, st: State, mode: Mode): string
    decreases |s|
  {
    if s == [] then []
    else
      var m := Next(s, st, mode);
      m.emitted + Mask(s[m.consumed..], m.next, mode)
  }

  // ---------------------------------------------------------------- what masking can change

  predicate KeptOrBlanked(c: char, masked: char) {
    masked == c || (masked == ' ' && c != '\n')
  }

  /** `masked` is `s` with some characters other than newlines turned into spaces. */
  predicate Blanked(s: string, masked: string) {
    |masked| == |s| && (s != [] ==> KeptOrBlanked(s[0], masked[0]) && Blanked(s[1..], masked[1..]))
  }

  lemma {:induction false} BlankedSame(s: string)
    ensures Blanked(s, s)
  {
    if s != [] { BlankedSame(s[1..]); }
  }

  lemma {:induction false} BlankedJoin(a: string, b: string, x: string, y: string)
    requires Blanked(a, x) && Blanked(b, y)
    ensures Blanked(a + b, x + y)
  {
    if a == [] {
      assert a + b == b && x + y == y;
    } else {
      BlankedJoin(a[1..], b, x[1..], y);
      assert (a + b)[1..] == a[1..] + b;
      assert (x + y)[1..] == x[1..] + y;
    }
  }

  lemma {:induction false} BlankedAt(s: string, masked: string, i: nat)
    requires Blanked(s, masked) && i < |s|
    ensures KeptOrBlanked(s[i], masked[i])
  {
    if i > 0 { BlankedAt(s[1..], masked[1..], i - 1); }
  }

  lemma {:induction false} BlankedDrop(s: string, masked: string, k: nat)
    requires Blanked(s, masked) && k <= |s|
    ensures Blanked(s[k..], masked[k..])
  {
    if k > 0 {
      BlankedDrop(s[1..], masked[1..], k - 1);
      DropDrop(s, 1, k - 1);
      DropDrop(masked, 1, k - 1);
    } else {
      assert s[0..] == s && masked[0..] == masked;
    }
  }

  lemma {:induction false} NextShape(s: string, st: State, mode: Mode)
    requires s != []
    ensures Blanked(s[..Next(s, st, mode).consumed], Next(s, st, mode).emitted)
  {
    hide RawLength;
    var m := Next(s, st, mode);
    if st.Code? && RawAhead(s, mode).Some? {
      BlankedSame(s[..m.consumed]);
    } else if m.consumed == 1 {
      assert s[..1] == [s[0]];
    } else {
      assert s[..2] == [s[0]] + [s[1]] && "  " == " " + " ";
      BlankedJoin([s[0]], [s[1]], " ", " ");
    }
  }

  lemma {:induction false} MaskShape(s: string, st: State, mode: Mode)
    ensures Blanked(s, Mask(s, st, mode))
    decreases |s|
  {
    if s != [] {
      var m := Next(s, st, mode);
      MaskShape(s[m.consumed..], m.next, mode);
      NextShape(s, st, mode);
      BlankedJoin(s[..m.consumed], s[m.consumed..], m.emitted, Mask(s[m.consumed..], m.next, mode));
      TakeDrop(s, m.consumed);
    }
  }

  // ---------------------------------------------------------------- raw literals

  function Hashes(n: nat): (r: string)
    ensures |r| == n
  {
    if n == 0 then [] else "#" + Hashes(n - 1)
  }

  /** No suffix of `body` begins with the terminator for `h` hashes. */
  predicate NoTerminator(body: string, h: nat) {
    body == [] || (!Closes(body, h) && NoTerminator(body[1..], h))
  }

  /** The text of a raw literal. */
  function RawText(prefix: string, h: nat, body: string): string {
    prefix + (Hashes(h) + ("\"" + (body + ("\"" + Hashes(h)))))
  }

  predicate IsRawPrefix(prefix: string) {
    prefix == "r" || prefix == "br" || prefix == "cr"
  }

  lemma {:induction false} HashRunStops(x: string, y: string)
    requires y != [] ==> y[0] != '#'
    ensures HashRun(x + y) == HashRun(x)
  {
    if x == [] { assert x + y == y; } else { assert (x + y)[1..] == x[1..] + y; HashRunStops(x[1..], y); }
  }

  lemma {:induction false} HashRunGrows(x: string, y: string)
    ensures HashRun(x + y) >= HashRun(x)
  {
    if x != [] { assert (x + y)[1..] == x[1..] + y; HashRunGrows(x[1..], y); }
  }

  lemma {:induction false} HashRunOfHashes(h: nat, rest: string)
    ensures HashRun(Hashes(h) + rest) == h + HashRun(rest)
  {
    if h == 0 {
      assert Hashes(h) + rest == rest;
    } else {
      assert (Hashes(h) + rest)[1..] == Hashes(h - 1) + rest;
      HashRunOfHashes(h - 1, rest);
    }
  }

  lemma {:induction false} HashRunTaken(s: string, h: nat)
    requires h <= HashRun(s)
    ensures s[..h] == Hashes(h)
  {
    if h > 0 {
      HashRunTaken(s[1..], h - 1);
      assert s[..h] == [s[0]] + s[1..][..h - 1];
    }
  }

  lemma {:induction false} FindCloseOf(body: string, h: nat, tail: string)
    requires NoTerminator(body, h)
    ensures FindClose(body + ("\"" + (Hashes(h) + tail)), h) == Some(|body|)
  {
    var rest := "\"" + (Hashes(h) + tail);
    if body == [] {
      assert body + rest == rest;
      assert rest[1..] == Hashes(h) + tail;
      HashRunOfHashes(h, tail);
    } else {
      assert (body + rest)[1..] == body[1..] + rest;
      HashRunStops(body[1..], rest);
      FindCloseOf(body[1..], h, tail);
    }
  }

  lemma {:induction false} FindCloseShape(s: string, h: nat)
    requires FindClose(s, h).Some?
    ensures var c := FindClose(s, h).value;
            NoTerminator(s[..c], h) && s[c..c + 1 + h] == "\"" + Hashes(h)
  {
    hide HashRun;
    var c := FindClose(s, h).value;
    if c == 0 {
      HashRunTaken(s[1..], h);
      assert s[..1 + h] == [s[0]] + s[1..][..h];
    } else {
      FindCloseShape(s[1..], h);
      StillUnterminated(s, h, c);
      assert s[1..][c - 1..c + h] == s[c..c + 1 + h];
    }
  }

  lemma {:induction false} StillUnterminated(s: string, h: nat, c: nat)
    requires 0 < c <= |s| && !Closes(s, h) && NoTerminator(s[1..][..c - 1], h)
    ensures NoTerminator(s[..c], h)
  {
    hide HashRun;
    var body := s[..c];
    assert body[1..] == s[1..][..c - 1];
    assert s[1..] == body[1..] + s[c..];
    HashRunGrows(body[1..], s[c..]);
  }

  lemma {:induction false} RawTextAppend(prefix: string, h: nat, body: string, tail: string)
    ensures RawText(prefix, h, body) + tail ==
            prefix + (Hashes(h) + ("\"" + (body + ("\"" + (Hashes(h) + tail)))))
  {
    var e := "\"" + Hashes(h);
    assert e + tail == "\"" + (Hashes(h) + tail);
    Associative(body, e, tail);
    var d := "\"" + (body + e);
    assert d + tail == "\"" + ((body + e) + tail);
    Associative(Hashes(h), d, tail);
    Associative(prefix, Hashes(h) + d, tail);
  }

  /** The front of a raw literal, up to the opening quote. */
  lemma {:induction false} RawFront(prefix: string, h: nat, inside: string)
    requires IsRawPrefix(prefix)
    ensures var s := prefix + (Hashes(h) + ("\"" + inside));
            RawPrefix(s) == |prefix| && HashRun(s[|prefix|..]) == h &&
            |prefix| + h < |s| && s[|prefix| + h] == '"' && s[|prefix| + h + 1..] == inside
  {
    var quoted := "\"" + inside;
    var rest := Hashes(h) + quoted;
    AppendDrop(prefix, rest);
    HashRunOfHashes(h, quoted);
    AppendDrop(Hashes(h), quoted);
    DropDrop(prefix + rest, |prefix|, h);
    DropDrop(prefix + rest, |prefix| + h, 1);
    assert (prefix + rest)[|prefix| + h] == (prefix + rest)[|prefix| + h..][0];
    AppendDrop("\"", inside);
  }

  /** A raw literal whose body does not contain its terminator is recognised exactly, whatever
      follows it. */
  lemma {:induction false} RawLengthOf(prefix: string, h: nat, body: string, tail: string)
    requires IsRawPrefix(prefix) && NoTerminator(body, h)
    ensures RawLength(RawText(prefix, h, body) + tail) == Some(|RawText(prefix, h, body)|)
  {
    var inside := body + ("\"" + (Hashes(h) + tail));
    RawTextAppend(prefix, h, body, tail);
    RawFront(prefix, h, inside);
    FindCloseOf(body, h, tail);
  }

  lemma {:induction false} RawPrefixTaken(s: string)
    requires RawPrefix(s) > 0
    ensures RawPrefix(s) <= |s| && IsRawPrefix(s[..RawPrefix(s)])
  {
    assert |s| >= 2 ==> s[..2] == [s[0], s[1]];
  }

  lemma {:induction false} RawParts(s: string) returns (p: nat, h: nat, c: nat)
    requires RawLength(s).Some?
    ensures p == RawPrefix(s) > 0 && p + h + 1 + c + 1 + h == RawLength(s).value <= |s|
    ensures s[p..p + h] == Hashes(h) && s[p + h] == '"'
    ensures FindClose(s[p + h + 1..], h) == Some(c)
  {
    p := RawPrefix(s);
    h := HashRun(s[p..]);
    c := FindClose(s[p + h + 1..], h).value;
    HashRunTaken(s[p..], h);
    DropTake(s, p, h);
  }

  lemma {:induction false} RawBody(s: string, from: nat, h: nat, c: nat) returns (body: string)
    requires from <= |s| && FindClose(s[from..], h) == Some(c)
    ensures from + c + 1 + h <= |s| && body == s[from..from + c] && NoTerminator(body, h)
    ensures s[from + c..from + c + 1 + h] == "\"" + Hashes(h)
  {
    body := s[from..][..c];
    FindCloseShape(s[from..], h);
    DropTake(s, from, c);
    DropSlice(s, from, c, c + 1 + h);
  }

  /** Conversely, what `RawLength` recognises has that shape. */
  lemma {:induction false} RawLengthShape(s: string) returns (prefix: string, h: nat, body: string)
    requires RawLength(s).Some?
    ensures IsRawPrefix(prefix) && NoTerminator(body, h)
    ensures s[..RawLength(s).value] == RawText(prefix, h, body)
  {
    hide RawLength, NoTerminator, RawText;
    var p, k, c := RawParts(s);
    RawPrefixTaken(s);
    body := RawBody(s, p + k + 1, k, c);
    prefix, h := s[..p], k;
    RawTextSlices(s, p, h, c);
  }

  lemma {:induction false} RawTextSlices(s: string, p: nat, h: nat, c: nat)
    requires p + h + 1 + c + 1 + h <= |s| && s[p..p + h] == Hashes(h) && s[p + h] == '"'
    requires s[p + h + 1 + c..p + h + 1 + c + 1 + h] == "\"" + Hashes(h)
    ensures s[..p + h + 1 + c + 1 + h] == RawText(s[..p], h, s[p + h + 1..p + h + 1 + c])
  {
    assert s[..p + h + 1 + c + 1 + h] ==
           s[..p] + (s[p..p + h] + ([s[p + h]] + (s[p + h + 1..p + h + 1 + c] + s[p + h + 1 + c..p + h + 1 + c + 1 + h])));
  }

  lemma {:induction false} RawLengthLocal(s: string, rest: string)
    requires RawLength(s).Some?
    ensures RawLength(s[..RawLength(s).value] + rest) == RawLength(s)
  {
    var prefix, h, body := RawLengthShape(s);
    RawLengthOf(prefix, h, body, rest);
  }

  // ---------------------------------------------------------------- blanking and raw literals

  lemma {:induction false} HashRunBlanked(s: string, masked: string)
    requires Blanked(s, masked)
    ensures HashRun(masked) <= HashRun(s)
    ensures HashRun(masked) < |s| && masked[HashRun(masked)] == '"' ==>
              HashRun(s) == HashRun(masked) && s[HashRun(s)] == '"'
  {
    if s != [] && masked[0] == '#' {
      HashRunBlanked(s[1..], masked[1..]);
    }
  }

  lemma {:induction false} FindCloseBlanked(s: string, masked: string, h: nat)
    requires Blanked(s, masked) && FindClose(masked, h).Some?
    ensures FindClose(s, h).Some?
  {
    HashRunBlanked(s[1..], masked[1..]);
    if !Closes(masked, h) {
      FindCloseBlanked(s[1..], masked[1..], h);
    }
  }

  /** Blanking never completes a raw literal: if the text has none here, the result has none. */
  lemma {:induction false} RawLengthBlanked(s: string, masked: string)
    requires Blanked(s, masked) && RawLength(s).None?
    ensures RawLength(masked).None?
  {
    var p := RawPrefix(masked);
    if p != 0 && RawLength(masked).Some? {
      assert s[1..][1..] == s[2..] && masked[1..][1..] == masked[2..] && RawPrefix(s) == p by {
        BlankedAt(s, masked, p - 1);
      }
      BlankedDrop(s, masked, p);
      HashRunBlanked(s[p..], masked[p..]);
      var from := p + HashRun(masked[p..]) + 1;
      assert masked[p..][from - 1 - p] == masked[from - 1] && s[p..][from - 1 - p] == s[from - 1];
      BlankedDrop(s, masked, from);
      FindCloseBlanked(s[from..], masked[from..], from - 1 - p);
      assert false;
    }
  }

  // ---------------------------------------------------------------- idempotence

  /** State in which a second pass meets the text that the first pass meets in `st`:
      comments are gone, so only literals are still open. */
  function Collapse(st: State): State {
    if st.Quoted? then st else Code
  }

  /** Two blanks: a comment opener or closer. */
  predicate IsBlankPair(m: Move) {
    m.emitted == "  "
  }

  /** What the first pass wrote, with the rest behind it, is a blanked form of the text. */
  lemma {:induction false} OutputBlanked(s: string, st: State, mode: Mode, rest: string)
    requires s != [] && Blanked(s[Next(s, st, mode).consumed..], rest)
    ensures Blanked(s, Next(s, st, mode).emitted + rest)
  {
    var m := Next(s, st, mode);
    NextShape(s, st, mode);
    BlankedJoin(s[..m.consumed], s[m.consumed..], m.emitted, rest);
    TakeDrop(s, m.consumed);
  }

  /** The raw literal that a second pass sees is the one the first pass saw. */
  lemma {:induction false} RawAheadMasked(s: string, out: string, mode: Mode)
    requires Blanked(s, out)
    requires RawAhead(s, mode).Some? ==> RawAhead(s, mode).value <= out
    ensures RawAhead(out, mode) == RawAhead(s, mode)
  {
    hide RawLength, Blanked;
    if mode.Rust? && RawLength(s).Some? {
      var n := RawLength(s).value;
      assert out[..n] == s[..n];
      assert s[..n] + out[n..] == out by { TakeDrop(out, n); }
      RawLengthLocal(s, out[n..]);
    } else if mode.Rust? {
      RawLengthBlanked(s, out);
    }
  }

  /** The move that a second pass makes on what the first pass wrote. */
  lemma {:induction false} NextOnMasked(s: string, st: State, mode: Mode, rest: string)
    requires s != [] && Blanked(s[Next(s, st, mode).consumed..], rest)
    ensures var m := Next(s, st, mode);
            var out := m.emitted + rest;
            if IsBlankPair(m) && !(st.Code? && RawAhead(s, mode).Some?)
            then Next(out, Collapse(st), mode) == Move(" ", 1, Code) == Next(out[1..], Code, mode)
                 && Collapse(m.next) == Code
            else Next(out, Collapse(st), mode) == Move(m.emitted, m.consumed, Collapse(m.next))
  {
    hide RawLength, Blanked, RawAhead;
    var m := Next(s, st, mode);
    var out := m.emitted + rest;
    OutputBlanked(s, st, mode, rest);
    assert out[0] == m.emitted[0];
    if st.Code? { RawAheadMasked(s, out, mode); }
    if |s| > 1 { BlankedAt(s, out, 1); }
    SpaceStays(out, mode);
    if |out| > 1 { SpaceStays(out[1..], mode); }
  }

  /** A blank is an ordinary character of code. */
  lemma {:induction false} SpaceStays(out: string, mode: Mode)
    requires out != []
    ensures out[0] == ' ' || out[0] == '\n' ==> Next(out, Code, mode) == Move([out[0]], 1, Code)
  {
  }

  /** Masking a masked text changes nothing, in every state and in both modes. */
  lemma {:induction false} MaskIdempotentFrom(s: string, st: State, mode: Mode)
    ensures Mask(Mask(s, st, mode), Collapse(st), mode) == Mask(s, st, mode)
    decreases |s|
  {
    hide Next, RawLength, Blanked, RawAhead;
    if s != [] {
      var m := Next(s, st, mode);
      var rest := Mask(s[m.consumed..], m.next, mode);
      var out := m.emitted + rest;
      MaskShape(s[m.consumed..], m.next, mode);
      NextOnMasked(s, st, mode, rest);
      MaskIdempotentFrom(s[m.consumed..], m.next, mode);
      AppendDrop(m.emitted, rest);
      if IsBlankPair(m) && !(st.Code? && RawAhead(s, mode).Some?) {
        DropDrop(out, 1, 1);
        assert " " + (" " + rest) == out;
      }
    }
  }

  /** The masker on a whole text, in both modes and with no assumption on the text: the length is
      kept, every newline stays where it was and no other character becomes anything but itself
      or a space, and masking twice is masking once. */
  lemma {:induction false} MaskerContract(text: string, mode: Mode)
    ensures |Mask(text, Code, mode)| == |text|
    ensures forall i :: 0 <= i < |text| ==> KeptOrBlanked(text[i], Mask(text, Code, mode)[i])
    ensures forall i :: 0 <= i < |text| ==> (Mask(text, Code, mode)[i] == '\n' <==> text[i] == '\n')
    ensures Mask(Mask(text, Code, mode), Code, mode) == Mask(text, Code, mode)
  {
    var masked := Mask(text, Code, mode);
    MaskShape(text, Code, mode);
    forall i | 0 <= i < |text| ensures KeptOrBlanked(text[i], masked[i]) { BlankedAt(text, masked, i); }
    MaskIdempotentFrom(text, Code, mode);
  }

  // ---------------------------------------------------------------- the loops

  lemma {:induction false} NoRawPrefix(s: string)
    requires RawPrefix(s) == 0
    ensures RawLength(s).None?
  {
  }

  /** `RawLength` in terms of positions of the whole text: prefix up to `hashes`, hashes up to
      `cursor`. */
  lemma {:induction false} RawLengthFrom(text: string, opening: nat, hashes: nat, cursor: nat)
    requires opening < hashes <= cursor <= |text|
    requires RawPrefix(text[opening..]) == hashes - opening && HashRun(text[hashes..]) == cursor - hashes
    ensures RawLength(text[opening..]) ==
            if cursor == |text| || text[cursor] != '"' || FindClose(text[cursor + 1..], cursor - hashes).None? then None
            else Some(cursor + 1 - opening + FindClose(text[cursor + 1..], cursor - hashes).value + 1 + (cursor - hashes))
  {
    hide FindClose, HashRun;
    DropDrop(text, opening, hashes - opening);
    if cursor < |text| { DropDrop(text, opening, cursor + 1 - opening); }
  }

  /** `_rust_raw_literal_end`: exclusive end of the raw literal that starts at `opening`. */
  method RustRawLiteralEnd(text: string, opening: nat) returns (end: Option<nat>)
    requires opening <= |text|
    ensures RawLength(text[opening..]).None? ==> end.None?
    ensures RawLength(text[opening..]).Some? ==> end == Some(opening + RawLength(text[opening..]).value)
  {
    hide RawLength, FindClose;
    var cursor := opening;
    if cursor + 1 < |text| && (text[cursor] == 'b' || text[cursor] == 'c') && text[cursor + 1] == 'r' {
      cursor := cursor + 2;
    } else if cursor < |text| && text[cursor] == 'r' {
      cursor := cursor + 1;
    } else {
      NoRawPrefix(text[opening..]);
      return None;
    }
    var hashes := cursor;
    while cursor < |text| && text[cursor] == '#'
      invariant hashes <= cursor <= |text|
      invariant HashRun(text[hashes..]) == cursor - hashes + HashRun(text[cursor..])
    {
      assert text[cursor..][1..] == text[cursor + 1..];
      cursor := cursor + 1;
    }
    RawLengthFrom(text, opening, hashes, cursor);
    if cursor >= |text| || text[cursor] != '"' {
      return None;
    }
    var closing := FindClose(text[cursor + 1..], cursor - hashes);
    end := if closing.None? then None else Some(cursor + 1 + closing.value + 1 + (cursor - hashes));
  }

  /** What the masker's variables say about where it is. */
  function Current(quote: Option<char>, escaped: bool, blockDepth: nat): State {
    if blockDepth > 0 then Block(blockDepth)
    else if quote.Some? then Quoted(quote.value, escaped)
    else Code
  }

  /** The loop as a function of its variables: the rest of `text` from `index` on, masked behind
      what is already `written`. */
  function MaskLoop(text: string, index: nat, st: State, mode: Mode, written: string): string
    requires index <= |text|
    decreases |text| - index
  {
    if index == |text| then written
    else
      var m := Next(text[index..], st, mode);
      MaskLoop(text, index + m.consumed, m.next, mode, written + m.emitted)
  }

  lemma {:induction false} MaskLoopIsMask(text: string, index: nat, st: State, mode: Mode, written: string)
    requires index <= |text|
    ensures MaskLoop(text, index, st, mode, written) == written + Mask(text[index..], st, mode)
    decreases |text| - index
  {
    hide Next;
    if index < |text| {
      var m := Next(text[index..], st, mode);
      MaskLoopIsMask(text, index + m.consumed, m.next, mode, written + m.emitted);
      DropDrop(text, index, m.consumed);
      Associative(written, m.emitted, Mask(text[index + m.consumed..], m.next, mode));
    }
  }

  /** `Next` in terms of positions of the whole text. */
  lemma {:induction false} NextAt(text: string, index: nat, st: State, mode: Mode)
    requires index < |text|
    ensures Next(text[index..], st, mode) ==
            Choose(text[index], if index + 1 < |text| then [text[index + 1]] else "", RawAhead(text[index..], mode), st, mode)
  {
    hide RawAhead, Choose;
  }

  lemma {:induction false} RawNotComment(s: string, mode: Mode)
    requires s != [] && (s[0] == '/' || s[0] == '\n')
    ensures RawAhead(s, mode).None?
  {
  }

  /** The inner loop over a line comment stops in front of the newline, back in code. */
  lemma {:induction false} LineEnds(text: string, index: nat, mode: Mode, written: string)
    requires index <= |text| && (index < |text| ==> text[index] == '\n')
    ensures MaskLoop(text, index, Line, mode, written) == MaskLoop(text, index, Code, mode, written)
  {
    hide Next, RawAhead;
    if index < |text| {
      NextAt(text, index, Line, mode);
      NextAt(text, index, Code, mode);
      RawNotComment(text[index..], mode);
    }
  }

  /** `_without_comments`. */
  method WithoutComments(text: string, singleQuotedStrings: bool) returns (result: string)
    ensures result == Mask(text, Code, if singleQuotedStrings then TypeScript else Rust)
  {
    hide RawLength, Next;
    result := [];
    var index := 0;
    var quote: Option<char> := None;
    var escaped := false;
    var blockDepth: nat := 0;
    ghost var mode := if singleQuotedStrings then TypeScript else Rust;
    ghost var whole := MaskLoop(text, 0, Code, mode, []);
    while index < |text|
      invariant 0 <= index <= |text|
      invariant escaped ==> quote.Some?
      invariant blockDepth > 0 ==> quote.None?
      invariant MaskLoop(text, index, Current(quote, escaped, blockDepth), mode, result) == whole
      decreases |text| - index
    {
      var character := text[index];
      var following := if index + 1 < |text| then [text[index + 1]] else "";
      NextAt(text, index, Current(quote, escaped, blockDepth), mode);
      if blockDepth > 0 {
        if character == '/' && following == "*" {
          blockDepth := blockDepth + 1;
          result := result + "  ";
          index := index + 2;
        } else if character == '*' && following == "/" {
          blockDepth := blockDepth - 1;
          result := result + "  ";
          index := index + 2;
        } else {
          result := result + [if character == '\n' then '\n' else ' '];
          index := index + 1;
        }
      } else if quote.Some? {
        result := result + [character];
        if escaped {
          escaped := false;
        } else if character == '\\' {
          escaped := true;
        } else if character == quote.value {
          quote := None;
        }
        index := index + 1;
      } else {
        var rawEnd: Option<nat> := None;
        if !singleQuotedStrings && character in {'b', 'c', 'r'} {
          rawEnd := RustRawLiteralEnd(text, index);
        }
        if rawEnd.Some? {
          DropTake(text, index, rawEnd.value - index);
          result := result + text[index..rawEnd.value];
          index := rawEnd.value;
        } else if character == '/' && following == "/" {
          result, index := BlankLine(text, index, result, mode);
        } else if character == '/' && following == "*" {
          blockDepth := 1;
          result := result + "  ";
          index := index + 2;
        } else {
          if character == '"' || character == '`' || (singleQuotedStrings && character == '\'') {
            quote := Some(character);
          }
          result := result + [character];
          index := index + 1;
        }
      }
    }
    MaskLoopIsMask(text, 0, Code, mode, []);
  }

  /** The masker's inner loop: blank the line comment that starts at `opening`. */
  method BlankLine(text: string, opening: nat, written: string, ghost mode: Mode)
    returns (result: string, index: nat)
    requires opening + 1 < |text| && text[opening] == '/' == text[opening + 1]
    ensures opening < index <= |text|
    ensures MaskLoop(text, index, Code, mode, result) == MaskLoop(text, opening, Code, mode, written)
  {
    hide Next, RawAhead;
    NextAt(text, opening, Code, mode);
    NextAt(text, opening, Line, mode);
    RawNotComment(text[opening..], mode);
    result, index := written, opening;
    while index < |text| && text[index] != '\n'
      invariant opening <= index <= |text|
      invariant MaskLoop(text, index, Line, mode, result) == MaskLoop(text, opening, Line, mode, written)
    {
      NextAt(text, index, Line, mode);
      result := result + " ";
      index := index + 1;
    }
    LineEnds(text, index, mode, result);
  }
}
