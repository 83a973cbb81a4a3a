/** The raw block walk over a decompressed SDK archive (publication.py): it accepts only a unique
    decomposition into headers and padded payloads, and undoes a block printer.  The size field is
    read the way Python's `int(field, 8)` reads bytes. */
module TarWalk {
  import opened Limits
  import opened PythonText
  import opened Wrappers
  import opened Sequences

  predicate AllZero(s: seq<byte>) {
    s == [] || (s[0] == 0 && AllZero(s[1..]))
  }

  function Zeros(n: nat): (s: seq<byte>)
    ensures |s| == n
  {
    if n == 0 then [] else [0] + Zeros(n - 1)
  }

  lemma {:induction false} ZerosAreZero(s: seq<byte>)
    ensures AllZero(s) <==> s == Zeros(|s|)
  {
    if s != [] {
      ZerosAreZero(s[1..]);
      assert s == [s[0]] + s[1..];
      assert Zeros(|s|)[1..] == Zeros(|s| - 1);
    }
  }

  lemma {:induction false} AllZeroParts(s: seq<byte>, n: nat)
    requires n <= |s|
    ensures AllZero(s) <==> AllZero(s[..n]) && AllZero(s[n..])
  {
    if n == 0 {
      assert s[0..] == s;
    } else {
      AllZeroParts(s[1..], n - 1);
      assert s[..n][1..] == s[1..][..n - 1];
      DropDrop(s, 1, n - 1);
    }
  }

  // ---------------------------------------------------------------- the size field

  predicate IsAsciiSpace(b: byte) {
    b == 32 || 9 <= b <= 13
  }

  function SkipSpaces(s: seq<byte>): seq<byte> {
    if s != [] && IsAsciiSpace(s[0]) then SkipSpaces(s[1..]) else s
  }

  predicate AllSpace(s: seq<byte>) {
    s == [] || (IsAsciiSpace(s[0]) && AllSpace(s[1..]))
  }

  predicate IsOctal(b: byte) {
    48 <= b <= 55
  }

  /** How far digits and underscores go. */
  function DigitRun(s: seq<byte>): (n: nat)
    ensures n <= |s|
  {
    if s != [] && (IsOctal(s[0]) || s[0] == 95) then 1 + DigitRun(s[1..]) else 0
  }

  /** Underscores stand only between two digits. */
  predicate WellGrouped(s: seq<byte>) {
    s == [] || (if s[0] == 95 then |s| > 1 && s[1] != 95 && WellGrouped(s[1..]) else WellGrouped(s[1..]))
  }

  function OctalValue(s: seq<byte>): int {
    if s == [] then 0
    else
      var n := |s| - 1;
      if s[n] == 95 then OctalValue(s[..n]) else 8 * OctalValue(s[..n]) + (s[n] as int - 48)
  }

  /** The text behind the prefix `0o`, if it has one, and the underscore after that. */
  function Unprefixed(u: seq<byte>): seq<byte> {
    if |u| >= 2 && u[0] == 48 && (u[1] == 111 || u[1] == 79)
    then if |u| > 2 && u[2] == 95 then u[3..] else u[2..]
    else u
  }

  /** `int(s, 8)`: None is its ValueError. */
  function OctalInt(s: seq<byte>): Option<int> {
    var t := SkipSpaces(s);
    var negative := t != [] && t[0] == 45;
    var u := if t != [] && (t[0] == 43 || t[0] == 45) then t[1..] else t;
    var v := Unprefixed(u);
    var n := DigitRun(v);
    if n == 0 || v[0] == 95 || !WellGrouped(v[..n]) || !AllSpace(v[n..]) then None
    else Some(if negative then -OctalValue(v[..n]) else OctalValue(v[..n]))
  }

  function RStripField(s: seq<byte>): seq<byte> {
    if s != [] && (s[|s| - 1] == 0 || s[|s| - 1] == 32) then RStripField(s[..|s| - 1]) else s
  }

  /** The declared size of a header. */
  function DeclaredSize(header: seq<byte>): Option<int>
    requires |header| == 512
  {
    var field := RStripField(header[124..136]);
    OctalInt(if field == [] then [48] else field)
  }

  // ---------------------------------------------------------------- what a size field says

  ghost predicate Spaces(s: seq<byte>) {
    forall i :: 0 <= i < |s| ==> s[i] in {9, 10, 11, 12, 13, 32}
  }

  /** Octal digits with single underscores between them. */
  ghost predicate Digits(s: seq<byte>) {
    && s != [] && s[0] != 95 && s[|s| - 1] != 95
    && (forall i :: 0 <= i < |s| ==> 48 <= s[i] <= 55 || s[i] == 95)
    && (forall i :: 0 < i < |s| && s[i - 1] == 95 ==> s[i] != 95)
  }

  /** The number the digits write, read from the front, behind the number `high`. */
  function Reading(s: seq<byte>, high: int): int {
    if s == [] then high
    else Reading(s[1..], if s[0] == 95 then high else 8 * high + (s[0] as int - 48))
  }

  /** The grammar of `int(text, 8)`: spaces, a sign, the prefix `0o` with an underscore or without,
      digits, spaces. */
  ghost predicate IntText(s: seq<byte>, n: int) {
    exists before, sign, prefix, digits, after ::
      && s == before + (sign + (prefix + (digits + after))) && Spaces(before) && IsSign(sign) && IsPrefix(prefix)
      && Digits(digits) && Spaces(after) && n == (if sign == [45] then -Reading(digits, 0) else Reading(digits, 0))
  }

  predicate IsSign(sign: seq<byte>) {
    sign == [] || sign == [43] || sign == [45]
  }

  predicate IsPrefix(prefix: seq<byte>) {
    prefix == [] || prefix == [48, 111] || prefix == [48, 79] || prefix == [48, 111, 95] || prefix == [48, 79, 95]
  }

  lemma {:induction false} SkipSpacesMeans(s: seq<byte>)
    ensures exists before :: Spaces(before) && s == before + SkipSpaces(s)
    ensures SkipSpaces(s) != [] ==> !IsAsciiSpace(SkipSpaces(s)[0])
  {
    if s != [] && IsAsciiSpace(s[0]) {
      SkipSpacesMeans(s[1..]);
      var before :| Spaces(before) && s[1..] == before + SkipSpaces(s[1..]);
      assert Spaces([s[0]] + before) && s == ([s[0]] + before) + SkipSpaces(s);
    } else {
      assert Spaces([]) && s == [] + SkipSpaces(s);
    }
  }

  lemma {:induction false} SkipSpacesOver(before: seq<byte>, t: seq<byte>)
    requires Spaces(before) && (t != [] ==> !IsAsciiSpace(t[0]))
    ensures SkipSpaces(before + t) == t
  {
    if before == [] {
      assert before + t == t;
    } else {
      assert (before + t)[1..] == before[1..] + t;
      SkipSpacesOver(before[1..], t);
    }
  }

  lemma {:induction false} AllSpaceMeans(s: seq<byte>)
    ensures AllSpace(s) <==> Spaces(s)
  {
    if s != [] {
      AllSpaceMeans(s[1..]);
      assert forall i :: 0 < i < |s| ==> s[i] == s[1..][i - 1];
      assert forall i :: 0 <= i < |s| - 1 ==> s[1..][i] == s[i + 1];
    }
  }

  lemma {:induction false} DigitRunAt(s: seq<byte>, i: nat)
    requires i < DigitRun(s)
    ensures IsOctal(s[i]) || s[i] == 95
  {
    if i > 0 { DigitRunAt(s[1..], i - 1); }
  }

  lemma {:induction false} DigitRunStops(s: seq<byte>)
    ensures DigitRun(s) < |s| ==> !IsOctal(s[DigitRun(s)]) && s[DigitRun(s)] != 95
  {
    if s != [] && (IsOctal(s[0]) || s[0] == 95) { DigitRunStops(s[1..]); }
  }

  lemma {:induction false} DigitRunOver(digits: seq<byte>, after: seq<byte>)
    requires forall i :: 0 <= i < |digits| ==> IsOctal(digits[i]) || digits[i] == 95
    requires after != [] ==> !IsOctal(after[0]) && after[0] != 95
    ensures DigitRun(digits + after) == |digits|
  {
    if digits == [] {
      assert digits + after == after;
    } else {
      assert (digits + after)[1..] == digits[1..] + after;
      DigitRunOver(digits[1..], after);
    }
  }

  lemma {:induction false} WellGroupedMeans(s: seq<byte>)
    ensures WellGrouped(s) <==>
              (s != [] ==> s[|s| - 1] != 95) && forall i :: 0 < i < |s| && s[i - 1] == 95 ==> s[i] != 95
  {
    if s != [] {
      var rest := s[1..];
      WellGroupedMeans(rest);
      assert forall i :: 0 < i < |rest| ==> rest[i] == s[i + 1] && rest[i - 1] == s[i];
      if WellGrouped(s) {
        forall i | 0 < i < |s| && s[i - 1] == 95 ensures s[i] != 95 {
          if i > 1 { assert rest[i - 2] == s[i - 1] && rest[i - 1] == s[i]; }
        }
      }
    }
  }

  /** Reading from the front gives what reading from the back gives. */
  lemma {:induction false} ReadingIsValue(s: seq<byte>, high: int)
    ensures s != [] ==> Reading(s, high) == if s[|s| - 1] == 95 then Reading(s[..|s| - 1], high)
                                            else 8 * Reading(s[..|s| - 1], high) + (s[|s| - 1] as int - 48)
  {
    if |s| > 1 {
      ReadingIsValue(s[1..], if s[0] == 95 then high else 8 * high + (s[0] as int - 48));
      assert s[1..][..|s| - 2] == s[..|s| - 1][1..];
    }
  }

  lemma {:induction false} ValueMeans(s: seq<byte>)
    ensures OctalValue(s) == Reading(s, 0)
  {
    if s != [] {
      ReadingIsValue(s, 0);
      ValueMeans(s[..|s| - 1]);
    }
  }

  lemma {:induction false} UnprefixedMeans(u: seq<byte>)
    ensures exists prefix :: IsPrefix(prefix) && u == prefix + Unprefixed(u)
  {
    var v := Unprefixed(u);
    if |u| >= 2 && u[0] == 48 && (u[1] == 111 || u[1] == 79) {
      if |u| > 2 && u[2] == 95 {
        assert u == [48, u[1], 95] + v;
      } else {
        assert u == [48, u[1]] + v;
      }
    } else {
      assert u == [] + v && IsPrefix([]);
    }
  }

  lemma {:induction false} UnprefixedOver(prefix: seq<byte>, digits: seq<byte>, after: seq<byte>)
    requires IsPrefix(prefix) && Digits(digits) && Spaces(after)
    ensures Unprefixed(prefix + (digits + after)) == digits + after
  {
    var v := digits + after;
    var u := prefix + v;
    assert v[0] == digits[0];
    if prefix == [] {
      assert u == v;
      if |v| >= 2 { assert v[1] == if |digits| >= 2 then digits[1] else after[1 - |digits|]; }
    } else {
      assert u[|prefix|..] == v && u[|prefix|] == v[0];
    }
  }

  /** What is left must be digits and spaces. */
  lemma {:induction false} DigitsThenSpaces(v: seq<byte>)
    ensures var n := DigitRun(v);
            (n != 0 && v[0] != 95 && WellGrouped(v[..n]) && AllSpace(v[n..])) <==>
              Digits(v[..n]) && Spaces(v[n..])
  {
    var n := DigitRun(v);
    WellGroupedMeans(v[..n]);
    AllSpaceMeans(v[n..]);
    forall i | 0 <= i < n ensures 48 <= v[..n][i] <= 55 || v[..n][i] == 95 { DigitRunAt(v, i); }
  }

  lemma {:induction false} RunOfDigits(digits: seq<byte>, after: seq<byte>)
    requires Digits(digits) && Spaces(after)
    ensures DigitRun(digits + after) == |digits|
    ensures (digits + after)[..|digits|] == digits && (digits + after)[|digits|..] == after
  {
    DigitRunOver(digits, after);
  }

  /** The size field is read as Python reads it, and refused exactly when Python refuses it. */
  lemma {:induction false} OctalIntMeaning(s: seq<byte>, n: int)
    ensures OctalInt(s) == Some(n) <==> IntText(s, n)
  {
    hide SkipSpaces, DigitRun, WellGrouped, AllSpace, OctalValue, Reading, Digits, Spaces, IsAsciiSpace;
    if OctalInt(s) == Some(n) { ReadIsIntText(s, n); }
    if IntText(s, n) { IntTextIsRead(s, n); }
  }

  /** The pieces of a numeral make one. */
  lemma {:induction false} PiecesAreIntText(s: seq<byte>, n: int, before: seq<byte>, sign: seq<byte>, prefix: seq<byte>,
                                            digits: seq<byte>, after: seq<byte>)
    requires s == before + (sign + (prefix + (digits + after))) && Spaces(before) && IsSign(sign) && IsPrefix(prefix)
    requires Digits(digits) && Spaces(after) && n == (if sign == [45] then -Reading(digits, 0) else Reading(digits, 0))
    ensures IntText(s, n)
  {
    hide Reading, Digits, Spaces, IsSign, IsPrefix;
  }

  lemma {:induction false} ReadIsIntText(s: seq<byte>, n: int)
    requires OctalInt(s) == Some(n)
    ensures IntText(s, n)
  {
    hide SkipSpaces, DigitRun, WellGrouped, AllSpace, OctalValue, Reading, Digits, Spaces, IsAsciiSpace, IntText, IsPrefix, Unprefixed;
    SkipSpacesMeans(s);
    var t := SkipSpaces(s);
    var before :| Spaces(before) && s == before + t;
    var sign := if t != [] && (t[0] == 43 || t[0] == 45) then [t[0]] else [];
    var u := t[|sign|..];
    assert t == sign + u;
    UnprefixedMeans(u);
    var v := Unprefixed(u);
    var prefix :| IsPrefix(prefix) && u == prefix + v;
    DigitsThenSpaces(v);
    var k := DigitRun(v);
    ValueMeans(v[..k]);
    assert v == v[..k] + v[k..];
    PiecesAreIntText(s, n, before, sign, prefix, v[..k], v[k..]);
  }

  lemma {:induction false} IntTextIsRead(s: seq<byte>, n: int)
    requires IntText(s, n)
    ensures OctalInt(s) == Some(n)
  {
    hide SkipSpaces, DigitRun, WellGrouped, AllSpace, OctalValue, Reading, IsPrefix, Unprefixed;
    var before, sign, prefix, digits, after :|
      && s == before + (sign + (prefix + (digits + after))) && Spaces(before) && IsSign(sign) && IsPrefix(prefix)
      && Digits(digits) && Spaces(after) && n == (if sign == [45] then -Reading(digits, 0) else Reading(digits, 0));
    var v := digits + after;
    var u := prefix + v;
    var t := sign + u;
    FrontOfPrefix(prefix, digits, after);
    assert sign != [] ==> t[0] == sign[0];
    assert sign == [] ==> t == u;
    SkipSpacesOver(before, t);
    assert sign != [] ==> t[1..] == u;
    UnprefixedOver(prefix, digits, after);
    RunOfDigits(digits, after);
    DigitsThenSpaces(v);
    ValueMeans(digits);
    OctalIntParts(t, u, v);
    assert SkipSpaces(s) == t;
  }

  lemma {:induction false} FrontOfPrefix(prefix: seq<byte>, digits: seq<byte>, after: seq<byte>)
    requires IsPrefix(prefix) && Digits(digits)
    ensures var u := prefix + (digits + after); u != [] && 48 <= u[0] <= 55
  {
  }

  /** `OctalInt` on a text without leading spaces. */
  lemma {:induction false} OctalIntParts(t: seq<byte>, u: seq<byte>, v: seq<byte>)
    requires u == (if t != [] && (t[0] == 43 || t[0] == 45) then t[1..] else t) && v == Unprefixed(u)
    ensures forall s :: SkipSpaces(s) == t ==>
              OctalInt(s) ==
                var n := DigitRun(v);
                if n == 0 || v[0] == 95 || !WellGrouped(v[..n]) || !AllSpace(v[n..]) then None
                else Some(if t != [] && t[0] == 45 then -OctalValue(v[..n]) else OctalValue(v[..n]))
  {
    hide SkipSpaces, DigitRun, WellGrouped, AllSpace, OctalValue;
  }

  ghost predicate Padding(s: seq<byte>) {
    forall i :: 0 <= i < |s| ==> s[i] == 0 || s[i] == 32
  }

  lemma {:induction false} RStripMeans(s: seq<byte>, core: seq<byte>)
    ensures core == RStripField(s) <==>
              core <= s && Padding(s[|core|..]) && (core != [] ==> core[|core| - 1] != 0 && core[|core| - 1] != 32)
  {
    if s != [] && (s[|s| - 1] == 0 || s[|s| - 1] == 32) {
      var n := |s| - 1;
      RStripMeans(s[..n], core);
      if core <= s && Padding(s[|core|..]) && (core != [] ==> core[|core| - 1] != 0 && core[|core| - 1] != 32) {
        assert core != s;
        assert core <= s[..n] && forall i :: 0 <= i < n - |core| ==> s[..n][|core|..][i] == s[|core|..][i];
      }
      if core <= s[..n] && Padding(s[..n][|core|..]) {
        assert forall i :: 0 <= i < |s| - |core| ==>
                 s[|core|..][i] == if i < n - |core| then s[..n][|core|..][i] else s[n];
      }
    }
  }

  /** The declared size: bytes 124 to 136 without the padding behind them, zero when nothing is left. */
  lemma {:induction false} DeclaredSizeMeaning(header: seq<byte>, n: int)
    requires |header| == 512
    ensures DeclaredSize(header) == Some(n) <==>
              exists core, padding :: header[124..136] == core + padding && Padding(padding) &&
                (if core == [] then n == 0
                 else core[|core| - 1] != 0 && core[|core| - 1] != 32 && IntText(core, n))
  {
    hide OctalInt, IntText, RStripField, Padding;
    var field := header[124..136];
    var core := RStripField(field);
    RStripMeans(field, core);
    OctalIntMeaning(core, n);
    ZeroIsRead();
    assert field == core + field[|core|..];
    forall c, padding | field == c + padding && Padding(padding) && (c != [] ==> c[|c| - 1] != 0 && c[|c| - 1] != 32)
      ensures c == core
    {
      RStripMeans(field, c);
      assert field[|c|..] == padding;
    }
  }

  lemma {:induction false} ZeroIsRead()
    ensures OctalInt([48]) == Some(0)
  {
    var s: seq<byte> := [48];
    assert s[..1] == s && s[1..] == [] && s[..0] == [];
    assert DigitRun(s) == 1;
    assert OctalValue(s) == 0;
  }

  function Padded(size: nat): (n: nat)
    ensures n % 512 == 0 && size <= n < size + 512
  {
    (size + 511) / 512 * 512
  }

  // ---------------------------------------------------------------- the walk

  datatype Block = Block(header: seq<byte>, payload: seq<byte>)

  /** A member of an archive: a header that is not empty, declares a size within the bound and is
      followed by that many bytes, padded. */
  predicate ValidBlock(b: Block) {
    && |b.header| == 512 && !AllZero(b.header)
    && var size := DeclaredSize(b.header);
       size.Some? && 0 <= size.value <= MEMBER_BOUND && |b.payload| == Padded(size.value)
  }

  predicate ValidBlocks(blocks: seq<Block>) {
    blocks == [] || (ValidBlock(blocks[0]) && ValidBlocks(blocks[1..]))
  }

  function Concat(blocks: seq<Block>): seq<byte> {
    if blocks == [] then [] else blocks[0].header + (blocks[0].payload + Concat(blocks[1..]))
  }

  /** The end of an archive: two empty blocks and then only zeros. */
  predicate Terminator(tail: seq<byte>) {
    |tail| >= 1024 && AllZero(tail)
  }

  /** The members from here on, or None when the walk stops with an error. */
  function Walk(decoded: seq<byte>): Option<seq<Block>>
    decreases |decoded|
  {
    if |decoded| < 512 then None
    else
      var header := decoded[..512];
      if AllZero(header) then
        if |decoded| >= 1024 && AllZero(decoded[512..1024]) && AllZero(decoded[1024..]) then Some([]) else None
      else
        var size := DeclaredSize(header);
        if size.None? || !(0 <= size.value <= MEMBER_BOUND) then None
        else
          var next := 512 + Padded(size.value);
          if next > |decoded| then None
          else
            var rest := Walk(decoded[next..]);
            if rest.None? then None else Some([Block(header, decoded[512..next])] + rest.value)
  }

  ghost predicate Decomposes(decoded: seq<byte>, blocks: seq<Block>, tail: seq<byte>) {
    ValidBlocks(blocks) && Terminator(tail) && decoded == Concat(blocks) + tail
  }

  /** What is accepted decomposes into the members found and a terminator. */
  lemma {:induction false} WalkDecomposes(decoded: seq<byte>)
    requires Walk(decoded).Some?
    ensures exists tail :: Decomposes(decoded, Walk(decoded).value, tail)
    decreases |decoded|
  {
    hide DeclaredSize, AllZero;
    var header := decoded[..512];
    if AllZero(header) {
      AllZeroParts(decoded[512..], 512);
      DropTake(decoded, 512, 512);
      DropDrop(decoded, 512, 512);
      AllZeroParts(decoded, 512);
      assert Concat([]) + decoded == decoded;
      assert Decomposes(decoded, [], decoded);
    } else {
      var next := 512 + Padded(DeclaredSize(header).value);
      WalkDecomposes(decoded[next..]);
      var rest := Walk(decoded[next..]).value;
      var tail :| Decomposes(decoded[next..], rest, tail);
      var b := Block(header, decoded[512..next]);
      assert ([b] + rest)[1..] == rest;
      Associative(b.payload, Concat(rest), tail);
      Associative(b.header, b.payload + Concat(rest), tail);
      TakeDrop(decoded, 512);
      TakeDrop(decoded[512..], next - 512);
      DropTake(decoded, 512, next - 512);
      DropDrop(decoded, 512, next - 512);
      assert Decomposes(decoded, [b] + rest, tail);
    }
  }

  /** Whatever decomposes is accepted, with exactly these members. */
  lemma {:induction false} DecompositionIsWalked(decoded: seq<byte>, blocks: seq<Block>, tail: seq<byte>)
    requires Decomposes(decoded, blocks, tail)
    ensures Walk(decoded) == Some(blocks)
    decreases |blocks|
  {
    hide DeclaredSize, AllZero;
    if blocks == [] {
      assert decoded == tail;
      AllZeroParts(decoded, 512);
      AllZeroParts(decoded[512..], 512);
      DropTake(decoded, 512, 512);
      DropDrop(decoded, 512, 512);
    } else {
      var b, rest := blocks[0], Concat(blocks[1..]) + tail;
      Associative(b.payload, Concat(blocks[1..]), tail);
      Associative(b.header, b.payload + Concat(blocks[1..]), tail);
      assert decoded == b.header + (b.payload + rest);
      AppendDrop(b.header, b.payload + rest);
      AppendDrop(b.payload, rest);
      var next := 512 + |b.payload|;
      DropTake(decoded, 512, |b.payload|);
      DropDrop(decoded, 512, |b.payload|);
      DecompositionIsWalked(rest, blocks[1..], tail);
      assert [b] + blocks[1..] == blocks;
    }
  }

  /** Acceptance is decomposability, and a decomposition is unique in its members and its tail. */
  lemma {:induction false} WalkIsDecomposition(decoded: seq<byte>)
    ensures Walk(decoded).Some? <==> exists blocks, tail :: Decomposes(decoded, blocks, tail)
    ensures forall blocks, tail, blocks', tail' :: Decomposes(decoded, blocks, tail) && Decomposes(decoded, blocks', tail') ==>
              blocks == blocks' && tail == tail'
  {
    hide Decomposes, Walk;
    if Walk(decoded).Some? {
      WalkDecomposes(decoded);
      var tail :| Decomposes(decoded, Walk(decoded).value, tail);
    }
    forall blocks, tail | Decomposes(decoded, blocks, tail) ensures Walk(decoded) == Some(blocks) {
      DecompositionIsWalked(decoded, blocks, tail);
    }
    forall blocks, tail, blocks', tail' | Decomposes(decoded, blocks, tail) && Decomposes(decoded, blocks', tail')
      ensures blocks == blocks' && tail == tail'
    {
      TailIsDetermined(decoded, blocks, tail, tail');
    }
  }

  lemma {:induction false} TailIsDetermined(decoded: seq<byte>, blocks: seq<Block>, tail: seq<byte>, tail': seq<byte>)
    requires Decomposes(decoded, blocks, tail) && (Decomposes(decoded, blocks, tail'))
    ensures tail == tail'
  {
    hide ValidBlocks, Terminator, Concat;
    AppendDrop(Concat(blocks), tail);
    AppendDrop(Concat(blocks), tail');
  }

  /** Two accepted byte strings with the same members differ only in how many zeros end them. */
  lemma {:induction false} TailIsZeros(decoded: seq<byte>)
    requires Walk(decoded).Some?
    ensures exists n: nat :: n >= 1024 && decoded == Concat(Walk(decoded).value) + Zeros(n)
  {
    hide Walk, Concat, AllZero, ValidBlocks;
    WalkDecomposes(decoded);
    var tail :| Decomposes(decoded, Walk(decoded).value, tail);
    ZerosAreZero(tail);
    assert |tail| >= 1024 && decoded == Concat(Walk(decoded).value) + Zeros(|tail|);
  }

  // ---------------------------------------------------------------- the program

  /** Where the headers of the members stand. */
  function Offsets(blocks: seq<Block>, start: nat): seq<nat> {
    if blocks == [] then [] else [start] + Offsets(blocks[1..], start + |blocks[0].header| + |blocks[0].payload|)
  }

  /** The walk of `decode_sdk_archive`.  `offsets` lists the headers it stops at. */
  method WalkArchive(decoded: seq<byte>) returns (r: Result<nat>, ghost offsets: seq<nat>)
    ensures r.Ok? <==> Walk(decoded).Some?
    ensures r.Ok? ==> r.value == |Concat(Walk(decoded).value)| + 1024
    ensures r.Ok? ==> offsets == Offsets(Walk(decoded).value, 0)
  {
    hide DeclaredSize, AllZero, Concat, Offsets;
    offsets := [];
    var offset := 0;
    var terminator: Option<nat> := None;
    while offset + 512 <= |decoded|
      invariant 0 <= offset <= |decoded|
      invariant WalkedFrom(decoded, offset, offsets)
      invariant terminator.None?
      decreases |decoded| - offset
    {
      DropTake(decoded, offset, 512);
      var header := decoded[offset..offset + 512];
      ZerosAreZero(header);
      if header == Zeros(512) {
        WalkStopsHere(decoded, offset, offsets);
        if !(offset + 1024 <= |decoded|) {
          return Err("SDK tar terminator differs"), offsets;
        }
        ZerosAreZero(decoded[offset + 512..offset + 1024]);
        if decoded[offset + 512..offset + 1024] != Zeros(512) {
          return Err("SDK tar terminator differs"), offsets;
        }
        terminator := Some(offset + 1024);
        break;
      }
      var size := DeclaredSize(header);
      if size.None? {
        WalkRefusesHere(decoded, offset, offsets);
        return Err("SDK tar size field differs"), offsets;
      }
      if !(0 <= size.value <= MEMBER_BOUND) {
        WalkRefusesHere(decoded, offset, offsets);
        return Err("SDK raw tar size exceeds member bound"), offsets;
      }
      var nextOffset := offset + 512 + (size.value + 511) / 512 * 512;
      if !(offset < nextOffset <= |decoded|) {
        WalkRefusesHere(decoded, offset, offsets);
        return Err("SDK raw tar offset exceeds archive bound"), offsets;
      }
      WalkGoesOn(decoded, offset, offsets);
      offsets := offsets + [offset];
      offset := nextOffset;
    }
    if terminator.None? {
      WalkRefusesHere(decoded, offset, offsets);
      return Err("SDK tar trailing bytes differ"), offsets;
    }
    var zero := AllZeroFrom(decoded, terminator.value);
    if !zero {
      return Err("SDK tar trailing bytes differ"), offsets;
    }
    r := Ok(terminator.value);
  }

  /** `not any(decoded[terminator:])`. */
  method AllZeroFrom(decoded: seq<byte>, start: nat) returns (zero: bool)
    requires start <= |decoded|
    ensures zero == AllZero(decoded[start..])
  {
    var i := start;
    while i < |decoded| && decoded[i] == 0
      invariant start <= i <= |decoded|
      invariant AllZero(decoded[start..]) == AllZero(decoded[i..])
    {
      DropDrop(decoded, i, 1);
      i := i + 1;
    }
    zero := i == |decoded|;
  }

  /** The invariant of the walk: the whole is accepted just when the rest is, and what is found up to
      here only adds to it. */
  ghost predicate WalkedFrom(decoded: seq<byte>, offset: nat, offsets: seq<nat>)
    requires offset <= |decoded|
  {
    var all, rest := Walk(decoded), Walk(decoded[offset..]);
    && (all.Some? <==> rest.Some?)
    && (all.Some? ==> |Concat(all.value)| == offset + |Concat(rest.value)|)
    && (all.Some? ==> Offsets(all.value, 0) == offsets + Offsets(rest.value, offset))
  }

  lemma {:induction false} WalkGoesOn(decoded: seq<byte>, offset: nat, offsets: seq<nat>)
    requires offset + 512 <= |decoded| && WalkedFrom(decoded, offset, offsets)
    requires !AllZero(decoded[offset..offset + 512])
    requires var size := DeclaredSize(decoded[offset..offset + 512]);
      size.Some? && 0 <= size.value <= MEMBER_BOUND && offset + 512 + Padded(size.value) <= |decoded|
    ensures WalkedFrom(decoded, offset + 512 + Padded(DeclaredSize(decoded[offset..offset + 512]).value), offsets + [offset])
  {
    hide DeclaredSize, AllZero;
    DropTake(decoded, offset, 512);
    var here := decoded[offset..];
    var next := 512 + Padded(DeclaredSize(decoded[offset..offset + 512]).value);
    DropDrop(decoded, offset, next);
    var rest := Walk(here[next..]);
    if rest.Some? {
      var b := Block(here[..512], here[512..next]);
      assert Walk(here) == Some([b] + rest.value);
      assert ([b] + rest.value)[1..] == rest.value;
      assert |b.header| + |b.payload| == next;
      Associative(offsets, [offset], Offsets(rest.value, offset + next));
    }
  }

  lemma {:induction false} WalkStopsHere(decoded: seq<byte>, offset: nat, offsets: seq<nat>)
    requires offset + 512 <= |decoded| && WalkedFrom(decoded, offset, offsets)
    requires AllZero(decoded[offset..offset + 512])
    ensures Walk(decoded).Some? <==>
              offset + 1024 <= |decoded| && AllZero(decoded[offset + 512..offset + 1024]) && AllZero(decoded[offset + 1024..])
    ensures Walk(decoded).Some? ==> |Concat(Walk(decoded).value)| == offset && Offsets(Walk(decoded).value, 0) == offsets
  {
    hide DeclaredSize, AllZero;
    DropTake(decoded, offset, 512);
    if offset + 1024 <= |decoded| {
      DropSlice(decoded, offset, 512, 1024);
      DropDrop(decoded, offset, 1024);
    }
    assert offsets + [] == offsets;
  }

  lemma {:induction false} WalkRefusesHere(decoded: seq<byte>, offset: nat, offsets: seq<nat>)
    requires offset <= |decoded| && WalkedFrom(decoded, offset, offsets)
    requires offset + 512 <= |decoded| ==>
      var header := decoded[offset..offset + 512];
      !AllZero(header) &&
      (DeclaredSize(header).None? || !(0 <= DeclaredSize(header).value <= MEMBER_BOUND) ||
       offset + 512 + Padded(DeclaredSize(header).value) > |decoded|)
    ensures Walk(decoded).None?
  {
    hide DeclaredSize, AllZero, Concat, Offsets;
    if offset + 512 <= |decoded| { DropTake(decoded, offset, 512); }
  }

  // ---------------------------------------------------------------- a printer

  function OctalDigits(n: nat, width: nat): (s: seq<byte>)
    ensures |s| == width
  {
    if width == 0 then [] else OctalDigits(n / 8, width - 1) + [48 + n % 8]
  }

  function Power8(n: nat): nat {
    if n == 0 then 1 else 8 * Power8(n - 1)
  }

  predicate AllOctal(s: seq<byte>) {
    s == [] || (IsOctal(s[0]) && AllOctal(s[1..]))
  }

  lemma {:induction false} AllOctalAppend(s: seq<byte>, b: byte)
    requires AllOctal(s) && IsOctal(b)
    ensures AllOctal(s + [b])
  {
    if s == [] {
      assert (s + [b])[1..] == [];
    } else {
      assert (s + [b])[1..] == s[1..] + [b];
      AllOctalAppend(s[1..], b);
    }
  }

  lemma {:induction false} DigitsMean(n: nat, width: nat)
    requires n < Power8(width)
    ensures AllOctal(OctalDigits(n, width)) && OctalValue(OctalDigits(n, width)) == n
    ensures forall i :: 0 <= i < width ==> 48 <= OctalDigits(n, width)[i] <= 55
  {
    hide OctalValue, AllOctal;
    if width > 0 {
      var front := OctalDigits(n / 8, width - 1);
      DigitsMean(n / 8, width - 1);
      AllOctalAppend(front, 48 + n % 8);
      OctalValueAppend(front, 48 + n % 8);
    } else {
      NoDigits();
    }
  }

  lemma {:induction false} NoDigits()
    ensures AllOctal([]) && OctalValue([]) == 0
  {
  }

  lemma {:induction false} OctalValueAppend(s: seq<byte>, b: byte)
    requires 48 <= b <= 55
    ensures OctalValue(s + [b]) == 8 * OctalValue(s) + (b - 48)
  {
    assert (s + [b])[..|s|] == s;
  }

  lemma {:induction false} OctalRun(s: seq<byte>)
    requires AllOctal(s)
    ensures DigitRun(s) == |s| && WellGrouped(s)
  {
    if s != [] { OctalRun(s[1..]); }
  }

  lemma {:induction false} PlainDigitsRead(s: seq<byte>)
    requires AllOctal(s) && |s| >= 2 && IsOctal(s[1])
    ensures OctalInt(s) == Some(OctalValue(s))
  {
    hide OctalValue;
    OctalRun(s);
    assert s[..|s|] == s && s[|s|..] == [];
  }

  /** A member as `tar` writes it: what stands before the size field, the contents, and what stands
      after the size field. */
  datatype Member = Member(before: seq<byte>, contents: seq<byte>, after: seq<byte>)

  predicate Printable(m: Member) {
    |m.before| == 124 && |m.after| == 376 && |m.contents| <= MEMBER_BOUND
  }

  /** Eleven octal digits and a NUL. */
  function SizeField(n: nat): (s: seq<byte>)
    ensures |s| == 12
  {
    OctalDigits(n, 11) + [0]
  }

  function HeaderOf(m: Member): seq<byte> {
    m.before + (SizeField(|m.contents|) + m.after)
  }

  function BlockOf(m: Member): Block {
    Block(HeaderOf(m), m.contents + Zeros(Padded(|m.contents|) - |m.contents|))
  }

  function BlocksOf(members: seq<Member>): seq<Block> {
    if members == [] then [] else [BlockOf(members[0])] + BlocksOf(members[1..])
  }

  predicate AllPrintable(members: seq<Member>) {
    members == [] || (Printable(members[0]) && AllPrintable(members[1..]))
  }

  /** The printed archive, ended by at least two empty blocks. */
  function PrintArchive(members: seq<Member>, ending: nat): seq<byte> {
    Concat(BlocksOf(members)) + Zeros(1024 + ending)
  }

  lemma {:induction false} PrintedSize(m: Member)
    requires Printable(m)
    ensures |HeaderOf(m)| == 512 && !AllZero(HeaderOf(m)) && DeclaredSize(HeaderOf(m)) == Some(|m.contents|)
  {
    hide OctalDigits, OctalInt, AllZero, Power8;
    var n := |m.contents|;
    var header, digits := HeaderOf(m), OctalDigits(n, 11);
    assert n < Power8(11) by { Power8Of11(); }
    DigitsMean(n, 11);
    assert header[124..136] == SizeField(n);
    assert SizeField(n)[11] == 0 && SizeField(n)[..11] == digits;
    assert RStripField(digits) == digits;
    PlainDigitsRead(digits);
    assert header[124] == digits[0];
    NotAllZero(header, 124);
  }

  lemma {:induction false} Power8Of11()
    ensures MEMBER_BOUND < Power8(11)
  {
    assert Power8(3) == 512;
    assert Power8(6) == 262144;
    assert Power8(9) == 134217728;
    assert Power8(11) == 8589934592;
  }

  lemma {:induction false} NotAllZero(s: seq<byte>, i: nat)
    requires i < |s| && s[i] != 0
    ensures !AllZero(s)
  {
    if i > 0 { NotAllZero(s[1..], i - 1); }
  }

  lemma {:induction false} PrintedBlocksAreValid(members: seq<Member>)
    requires AllPrintable(members)
    ensures ValidBlocks(BlocksOf(members))
  {
    hide HeaderOf, DeclaredSize, AllZero, Zeros;
    if members != [] {
      PrintedSize(members[0]);
      PrintedBlocksAreValid(members[1..]);
      assert ([BlockOf(members[0])] + BlocksOf(members[1..]))[1..] == BlocksOf(members[1..]);
    }
  }

  /** The walk undoes the printer, whatever the headers hold besides the size and however many zeros
      end the archive. */
  lemma {:induction false} WalkUndoesPrinting(members: seq<Member>, ending: nat)
    requires AllPrintable(members)
    ensures Walk(PrintArchive(members, ending)) == Some(BlocksOf(members))
  {
    hide BlocksOf, Concat, ValidBlocks, Walk, AllZero;
    PrintedBlocksAreValid(members);
    ZerosAreZero(Zeros(1024 + ending));
    DecompositionIsWalked(PrintArchive(members, ending), BlocksOf(members), Zeros(1024 + ending));
  }

  /** After the members and one empty block, any byte that is not zero is refused, wherever it stands. */
  lemma {:induction false} TrailingByteIsRefused(members: seq<Member>, tail: seq<byte>, i: nat)
    requires AllPrintable(members) && 512 <= i < |tail| && tail[i] != 0 && AllZero(tail[..512])
    ensures Walk(Concat(BlocksOf(members)) + tail).None?
  {
    hide BlocksOf, Walk, AllZero;
    PrintedBlocksAreValid(members);
    RefusedAfter(BlocksOf(members), tail, i);
  }

  lemma {:induction false} RefusedAfter(blocks: seq<Block>, tail: seq<byte>, i: nat)
    requires ValidBlocks(blocks) && 512 <= i < |tail| && tail[i] != 0 && AllZero(tail[..512])
    ensures Walk(Concat(blocks) + tail).None?
    decreases |blocks|
  {
    hide Walk, ValidBlock, AllZero;
    if blocks == [] {
      assert Concat(blocks) + tail == tail;
      RefusedTail(tail, i);
    } else {
      var b, rest := blocks[0], Concat(blocks[1..]) + tail;
      Associative(b.payload, Concat(blocks[1..]), tail);
      Associative(b.header, b.payload + Concat(blocks[1..]), tail);
      RefusedAfter(blocks[1..], tail, i);
      WalkOver(b, rest);
    }
  }

  lemma {:induction false} RefusedTail(tail: seq<byte>, i: nat)
    requires 512 <= i < |tail| && tail[i] != 0 && AllZero(tail[..512])
    ensures Walk(tail).None?
  {
    hide DeclaredSize, AllZero;
    if |tail| >= 1024 {
      if i < 1024 { NotAllZero(tail[512..1024], i - 512); } else { NotAllZero(tail[1024..], i - 1024); }
    }
  }

  /** A member in front changes nothing about whether the rest is refused. */
  lemma {:induction false} WalkOver(b: Block, rest: seq<byte>)
    requires ValidBlock(b)
    ensures Walk(b.header + (b.payload + rest)).None? <==> Walk(rest).None?
  {
    hide DeclaredSize, AllZero;
    AppendDrop(b.header, b.payload + rest);
    AppendDrop(b.payload, rest);
    DropDrop(b.header + (b.payload + rest), 512, |b.payload|);
  }
}
