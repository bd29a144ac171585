/**
UTF-8 as `str.encode("utf-8")` writes it and `bytes.decode("utf-8")` reads it back, strictly
(RFC 3629: no overlong forms, no surrogates, nothing above U+10FFFF).
*/
module Utf8 {
  import opened Basics

  function EncodeChar(c: char): (bs: seq<Byte>)
    ensures 1 <= |bs| <= 4
  {
    var v := c as int;
    if v < 0x80 then [v]
    else if v < 0x800 then [0xC0 + v / 64, 0x80 + v % 64]
    else if v < 0x1_0000 then [0xE0 + v / 4096, 0x80 + v / 64 % 64, 0x80 + v % 64]
    else [0xF0 + v / 262144, 0x80 + v / 4096 % 64, 0x80 + v / 64 % 64, 0x80 + v % 64]
  }

  function Encode(s: string): seq<Byte> {
    if s == "" then [] else EncodeChar(s[0]) + Encode(s[1..])
  }

  predicate Continues(b: Byte) {
    0x80 <= b < 0xC0
  }

  function Scalar(v: int): Option<char> {
    if 0 <= v < 0xD800 || 0xE000 <= v < 0x11_0000 then Some(v as char) else None
  }

  /** How long the form is that a lead byte starts; 0 for a byte that starts none. */
  function FormLength(b: Byte): nat {
    if b < 0x80 then 1 else if 0xC0 <= b < 0xE0 then 2 else if 0xE0 <= b < 0xF0 then 3
    else if 0xF0 <= b < 0xF8 then 4 else 0
  }

  function FormValue(bs: seq<int>): int
    requires 1 <= |bs| <= 4
  {
    if |bs| == 1 then bs[0]
    else if |bs| == 2 then (bs[0] - 0xC0) * 64 + bs[1] - 0x80
    else if |bs| == 3 then ((bs[0] - 0xE0) * 64 + bs[1] - 0x80) * 64 + bs[2] - 0x80
    else (((bs[0] - 0xF0) * 64 + bs[1] - 0x80) * 64 + bs[2] - 0x80) * 64 + bs[3] - 0x80
  }

  /** The smallest value that needs a form of this length. */
  function Least(n: nat): int {
    if n <= 1 then 0 else if n == 2 then 0x80 else if n == 3 then 0x800 else 0x1_0000
  }

  /** The character at the front of `bs`. */
  function DecodeChar(bs: seq<Byte>): Option<char>
    requires bs != []
  {
    var n := FormLength(bs[0]);
    if n == 0 || n > |bs| || exists i :: 1 <= i < n && !Continues(bs[i]) then None
    else if FormValue(bs[..n]) < Least(n) then None
    else Scalar(FormValue(bs[..n]))
  }

  function Decode(bs: seq<Byte>): Option<string> {
    if bs == [] then Some("")
    else if DecodeChar(bs) == None then None
    else
      var rest := Decode(bs[FormLength(bs[0])..]);
      if rest == None then None else Some([DecodeChar(bs).value] + rest.value)
  }

  lemma {:induction false} CharForm(c: char)
    ensures var bs := EncodeChar(c);
            && FormLength(bs[0]) == |bs| && FormValue(bs) == c as int >= Least(|bs|)
            && forall i :: 1 <= i < |bs| ==> Continues(bs[i])
  {
    var v := c as int;
    assert v == v / 64 * 64 + v % 64;
    assert v / 64 == v / 4096 * 64 + v / 64 % 64;
    assert v / 4096 == v / 262144 * 64 + v / 4096 % 64;
  }

  lemma {:induction false} CharRoundTrip(c: char, rest: seq<Byte>)
    ensures FormLength(EncodeChar(c)[0]) == |EncodeChar(c)|
    ensures DecodeChar(EncodeChar(c) + rest) == Some(c)
  {
    var bs := EncodeChar(c);
    CharForm(c);
    assert (bs + rest)[..|bs|] == bs;
  }

  /** Every string comes back from its encoding. */
  lemma {:induction false} RoundTrip(s: string)
    ensures Decode(Encode(s)) == Some(s)
  {
    if s != "" {
      var bs, rest := EncodeChar(s[0]), Encode(s[1..]);
      CharRoundTrip(s[0], rest);
      RoundTrip(s[1..]);
      assert (bs + rest)[|bs|..] == rest && (bs + rest)[0] == bs[0];
      assert s == [s[0]] + s[1..];
    }
  }

  /** Only the NUL character has a zero byte in its encoding. */
  lemma {:induction false} EncodeNul(s: string)
    ensures 0 in Encode(s) <==> '\0' in s
  {
    if s != "" {
      EncodeNul(s[1..]);
      var bs := EncodeChar(s[0]);
      assert 0 in bs <==> s[0] == '\0' by {
        if s[0] == '\0' {
          assert bs[0] == 0;
        }
      }
    }
  }

  /** Nor does a NUL come out of bytes that hold no zero. */
  lemma {:induction false} DecodeNul(bs: seq<Byte>)
    requires 0 !in bs && Decode(bs).Some?
    ensures '\0' !in Decode(bs).value
  {
    if bs != [] {
      DecodeNul(bs[FormLength(bs[0])..]);
      assert bs[0] != 0;
    }
  }

  // ---- strictness ------------------------------------------------------------

  lemma TwoForm(a: int, b: int)
    requires 0xC0 <= a < 0xE0 && 0x80 <= b < 0xC0
    ensures var v := (a - 0xC0) * 64 + b - 0x80; v < 0x800 && v / 64 == a - 0xC0 && v % 64 == b - 0x80
  {
  }

  lemma ThreeForm(a: int, b: int, c: int)
    requires 0xE0 <= a < 0xF0 && 0x80 <= b < 0xC0 && 0x80 <= c < 0xC0
    ensures var v := ((a - 0xE0) * 64 + b - 0x80) * 64 + c - 0x80;
            v < 0x1_0000 && v / 4096 == a - 0xE0 && v / 64 % 64 == b - 0x80 && v % 64 == c - 0x80
  {
    var u := (a - 0xE0) * 64 + b - 0x80;
    var v := u * 64 + c - 0x80;
    assert v / 64 == u && u / 64 == a - 0xE0 && v / 4096 == u / 64;
  }

  lemma FourForm(a: int, b: int, c: int, d: int)
    requires 0xF0 <= a < 0xF8 && 0x80 <= b < 0xC0 && 0x80 <= c < 0xC0 && 0x80 <= d < 0xC0
    ensures var v := (((a - 0xF0) * 64 + b - 0x80) * 64 + c - 0x80) * 64 + d - 0x80;
            && v / 262144 == a - 0xF0 && v / 4096 % 64 == b - 0x80 && v / 64 % 64 == c - 0x80 && v % 64 == d - 0x80
  {
    var t := (a - 0xF0) * 64 + b - 0x80;
    var u := t * 64 + c - 0x80;
    var v := u * 64 + d - 0x80;
    assert v / 64 == u && u / 64 == t && t / 64 == a - 0xF0;
    assert v / 4096 == u / 64 && v / 262144 == t / 64;
  }

  /** A character is read only from its own encoding. */
  lemma {:induction false} CharStrict(bs: seq<Byte>)
    requires bs != [] && DecodeChar(bs).Some?
    ensures EncodeChar(DecodeChar(bs).value) == bs[..FormLength(bs[0])]
  {
    var n := FormLength(bs[0]);
    if n == 1 {
    } else if n == 2 {
      assert Continues(bs[1]);
      TwoForm(bs[0], bs[1]);
    } else if n == 3 {
      assert Continues(bs[1]) && Continues(bs[2]);
      ThreeForm(bs[0], bs[1], bs[2]);
    } else {
      assert Continues(bs[1]) && Continues(bs[2]) && Continues(bs[3]);
      FourForm(bs[0], bs[1], bs[2], bs[3]);
    }
  }

  /** A string is read only from its own encoding: no overlong form, no surrogate, no stray byte. */
  lemma {:induction false} Strict(bs: seq<Byte>)
    requires Decode(bs).Some?
    ensures Encode(Decode(bs).value) == bs
  {
    if bs == [] {
    } else {
      var c, head, tail := DecodeStep(bs);
      Strict(tail);
      EncodeCons(c, Decode(tail).value);
    }
  }

  lemma {:induction false} DecodeStep(bs: seq<Byte>) returns (c: char, head: seq<Byte>, tail: seq<Byte>)
    requires bs != [] && Decode(bs).Some?
    ensures bs == head + tail && |tail| < |bs| && EncodeChar(c) == head
    ensures Decode(tail).Some? && Decode(bs).value == [c] + Decode(tail).value
  {
    var n := FormLength(bs[0]);
    CharStrict(bs);
    c, head, tail := DecodeChar(bs).value, bs[..n], bs[n..];
  }

  lemma EncodeCons(c: char, s: string)
    ensures Encode([c] + s) == EncodeChar(c) + Encode(s)
  {
    assert ([c] + s)[1..] == s;
  }
}
