/** Base64 as sections 3.5 and 4 of RFC 4648 define it.  Decoding, like Python's, ignores the unused
    bits of the last digit, so only re-encoding tells the canonical form. */
module Base64 {
  import opened PythonText
  import opened Wrappers

  function Digit(v: int): char
    requires 0 <= v < 64
  {
    if v < 26 then 'A' + v as char
    else if v < 52 then 'a' + (v - 26) as char
    else if v < 62 then '0' + (v - 52) as char
    else if v == 62 then '+' else '/'
  }

  function Value(c: char): (v: Option<int>)
    ensures v.Some? ==> 0 <= v.value < 64
  {
    if 'A' <= c <= 'Z' then Some(c as int - 'A' as int)
    else if 'a' <= c <= 'z' then Some(c as int - 'a' as int + 26)
    else if '0' <= c <= '9' then Some(c as int - '0' as int + 52)
    else if c == '+' then Some(62)
    else if c == '/' then Some(63)
    else None
  }

  lemma {:induction false} ValueOfDigit(v: int)
    requires 0 <= v < 64
    ensures Value(Digit(v)) == Some(v) && Digit(v) != '='
  {
  }

  function Three(a: byte, b: byte, c: byte): string {
    [Digit(a / 4), Digit(a % 4 * 16 + b / 16), Digit(b % 16 * 4 + c / 64), Digit(c % 64)]
  }

  function Encode(data: seq<byte>): string {
    if data == [] then ""
    else if |data| == 1 then [Digit(data[0] / 4), Digit(data[0] % 4 * 16), '=', '=']
    else if |data| == 2 then [Digit(data[0] / 4), Digit(data[0] % 4 * 16 + data[1] / 16), Digit(data[1] % 16 * 4), '=']
    else Three(data[0], data[1], data[2]) + Encode(data[3..])
  }

  /** Four digits and padding; a text whose length is no multiple of four is refused. */
  function Decode(text: string): Option<seq<byte>> {
    if text == "" then Some([])
    else if |text| < 4 then None
    else
      var v0, v1, v2, v3 := Value(text[0]), Value(text[1]), Value(text[2]), Value(text[3]);
      if v0.None? || v1.None? then None
      else if |text| == 4 && text[3] == '=' then
        if text[2] == '=' then Some([v0.value * 4 + v1.value / 16])
        else if v2.None? then None
        else Some([v0.value * 4 + v1.value / 16, v1.value % 16 * 16 + v2.value / 4])
      else
        var rest := Decode(text[4..]);
        if v2.None? || v3.None? || rest.None? then None
        else Some([v0.value * 4 + v1.value / 16, v1.value % 16 * 16 + v2.value / 4, v2.value % 4 * 64 + v3.value] + rest.value)
  }

  lemma {:induction false} EncodedLength(data: seq<byte>)
    ensures |Encode(data)| == 4 * ((|data| + 2) / 3)
  {
    hide Digit;
    if |data| > 2 {
      EncodedLength(data[3..]);
      assert (|data| + 2) / 3 == (|data[3..]| + 2) / 3 + 1;
    }
  }

  lemma {:induction false} BitsRejoin(a: byte, b: byte, c: byte)
    ensures a / 4 * 4 + (a % 4 * 16 + b / 16) / 16 == a
    ensures (a % 4 * 16 + b / 16) % 16 * 16 + (b % 16 * 4 + c / 64) / 4 == b
    ensures (b % 16 * 4 + c / 64) % 4 * 64 + c % 64 == c
    ensures 0 <= a / 4 < 64 && 0 <= a % 4 * 16 + b / 16 < 64 && 0 <= b % 16 * 4 + c / 64 < 64 && 0 <= c % 64 < 64
  {
  }

  /** Reading four digits that are no padding. */
  lemma {:induction false} DecodeGroup(v0: int, v1: int, v2: int, v3: int, rest: string)
    requires 0 <= v0 < 64 && 0 <= v1 < 64 && 0 <= v2 < 64 && 0 <= v3 < 64 && Decode(rest).Some?
    ensures Decode([Digit(v0), Digit(v1), Digit(v2), Digit(v3)] + rest) ==
            Some([v0 * 4 + v1 / 16, v1 % 16 * 16 + v2 / 4, v2 % 4 * 64 + v3] + Decode(rest).value)
  {
    hide Digit, Value;
    var text := [Digit(v0), Digit(v1), Digit(v2), Digit(v3)] + rest;
    ValueOfDigit(v0);
    ValueOfDigit(v1);
    ValueOfDigit(v2);
    ValueOfDigit(v3);
    assert text[4..] == rest;
    assert text[0] == Digit(v0) && text[1] == Digit(v1) && text[2] == Digit(v2) && text[3] == Digit(v3);
  }

  lemma {:induction false} EncodedGroup(a: byte, b: byte, c: byte, rest: string)
    requires Decode(rest).Some?
    ensures Decode(Three(a, b, c) + rest) == Some([a, b, c] + Decode(rest).value)
  {
    hide Digit, Decode;
    BitsRejoin(a, b, c);
    DecodeGroup(a / 4, a % 4 * 16 + b / 16, b % 16 * 4 + c / 64, c % 64, rest);
  }

  /** Decoding undoes encoding. */
  lemma {:induction false} DecodeEncode(data: seq<byte>)
    ensures Decode(Encode(data)) == Some(data)
  {
    hide Digit, Decode, Three;
    if |data| > 2 {
      DecodeEncode(data[3..]);
      EncodedGroup(data[0], data[1], data[2], Encode(data[3..]));
      assert [data[0], data[1], data[2]] + data[3..] == data;
    } else {
      DecodeEncodeTail(data);
    }
  }

  lemma {:induction false} DecodeEncodeTail(data: seq<byte>)
    requires |data| <= 2
    ensures Decode(Encode(data)) == Some(data)
  {
    hide Digit, Value;
    if data == [] {
      return;
    }
    var a := data[0];
    ValueOfDigit(a / 4);
    if |data| == 2 {
      var b := data[1];
      BitsRejoin(a, b, 0);
      ValueOfDigit(a % 4 * 16 + b / 16);
      ValueOfDigit(b % 16 * 4);
      assert data == [a, b];
    } else {
      BitsRejoin(a, 0, 0);
      ValueOfDigit(a % 4 * 16);
      assert data == [a];
    }
  }

  /** Among all texts that decode to the same bytes exactly one re-encodes to itself. */
  lemma {:induction false} CanonicalText(text: string, data: seq<byte>)
    ensures Decode(text) == Some(data) && Encode(data) == text <==> text == Encode(data)
    ensures Decode(text) == Some(data) && Encode(data) == text ==> |text| == 4 * ((|data| + 2) / 3)
  {
    DecodeEncode(data);
    EncodedLength(data);
  }

  /** Decoding alone would let two texts stand for one file. */
  lemma {:induction false} DecodingIsNotInjective()
    ensures Decode("QQ==") == Decode("QR==") == Some([65])
  {
    assert Value('Q') == Some(16) && Value('R') == Some(17);
  }
}
