/**
Semi-octet identities (section 10.5.1.4 of 3GPP TS 24.008): the Python pair
`imsi_to_semi_octets` and `_decode_bcd_identity`, and the C pair `ogs_bcd_to_buffer` and
`ogs_buffer_to_bcd`.
*/
module Bcd {
  import opened Basics

  type Nibble = x: int | 0 <= x < 16

  predicate IsDigit(c: char) {
    '0' <= c <= '9'
  }

  predicate AllDigits(s: string) {
    forall i :: 0 <= i < |s| ==> IsDigit(s[i])
  }

  function DigitOf(c: char): Nibble
    requires IsDigit(c)
  {
    c as int - 0x30
  }

  function DigitsOf(s: string): (ds: seq<Nibble>)
    requires AllDigits(s)
    ensures |ds| == |s| && forall i :: 0 <= i < |s| ==> ds[i] == DigitOf(s[i])
  {
    seq(|s|, i requires 0 <= i < |s| => DigitOf(s[i]))
  }

  /** One octet of two semi-octets. */
  function Octet(low: int, high: int): (b: Byte)
    requires 0 <= low < 16 && 0 <= high < 16
    ensures b % 16 == low && b / 16 == high
  {
    high * 16 + low
  }

  function CharOf(d: int): (c: char)
    requires 0 <= d < 16
    ensures d < 10 ==> IsDigit(c) && DigitOf(c) == d
  {
    (0x30 + d) as char
  }

  /** The characters of semi-octets, as the C code writes them. */
  function CharsOf(ds: seq<Nibble>): (t: string)
    ensures |t| == |ds| && forall i :: 0 <= i < |ds| ==> t[i] == CharOf(ds[i])
  {
    seq(|ds|, i requires 0 <= i < |ds| => CharOf(ds[i]))
  }

  /** Two semi-octets to an octet, the first in the low half; the filler 0xF last. */
  function Packed(ds: seq<Nibble>): seq<Byte> {
    if ds == [] then [] else if |ds| == 1 then [Octet(ds[0], 0xF)] else [Octet(ds[0], ds[1])] + Packed(ds[2..])
  }

  function Nibbles(bs: seq<Byte>): (ds: seq<Nibble>)
    ensures |ds| == 2 * |bs|
  {
    if bs == [] then [] else [bs[0] % 16, bs[0] / 16] + Nibbles(bs[1..])
  }

  lemma {:induction false} Unpacked(ds: seq<Nibble>)
    ensures Nibbles(Packed(ds)) == if |ds| % 2 == 0 then ds else ds + [0xF]
    decreases |ds|
  {
    if |ds| == 1 {
      assert Packed(ds)[1..] == [];
    } else if |ds| > 1 {
      Unpacked(ds[2..]);
      assert Packed(ds)[1..] == Packed(ds[2..]);
      assert ds == [ds[0], ds[1]] + ds[2..];
    }
  }

  /** Packing at position `i` of the semi-octets. */
  lemma PackedStep(ds: seq<Nibble>, i: nat)
    requires i < |ds|
    ensures i + 1 == |ds| ==> Packed(ds[i..]) == [Octet(ds[i], 0xF)]
    ensures i + 1 < |ds| ==> Packed(ds[i..]) == [Octet(ds[i], ds[i + 1])] + Packed(ds[i + 2..])
  {
    if i + 1 < |ds| {
      assert ds[i..][2..] == ds[i + 2..];
    }
  }

  lemma NibblesStep(bs: seq<Byte>, i: nat)
    requires i < |bs|
    ensures Nibbles(bs[i..]) == [bs[i] % 16, bs[i] / 16] + Nibbles(bs[i + 1..])
  {
    assert bs[i..][1..] == bs[i + 1..];
  }

  lemma {:induction false} PackedLength(ds: seq<Nibble>)
    ensures |Packed(ds)| == (|ds| + 1) / 2
    decreases |ds|
  {
    if |ds| > 1 {
      PackedLength(ds[2..]);
    }
  }

  /** Digit `2 * k` is the low half of octet `k`, digit `2 * k + 1` the high half, 0xF if there is none. */
  lemma {:induction false} PackedAt(ds: seq<Nibble>, k: nat)
    requires k < (|ds| + 1) / 2
    ensures |Packed(ds)| == (|ds| + 1) / 2 && Packed(ds)[k] % 16 == ds[2 * k]
    ensures Packed(ds)[k] / 16 == if 2 * k + 1 < |ds| then ds[2 * k + 1] else 0xF
    decreases k
  {
    PackedLength(ds);
    if k > 0 {
      PackedAt(ds[2..], k - 1);
    }
  }

  lemma Snoc<T>(a: seq<T>, x: T, b: seq<T>)
    ensures a + ([x] + b) == a + [x] + b
  {
  }

  // ---- Python ----------------------------------------------------------------

  /** The identity octets of a digit string: the first digit beside the type (IMSI) and the
      odd/even mark, the others packed. */
  function SemiOctets(ds: seq<Nibble>): seq<Byte>
    requires ds != []
  {
    [Octet(if |ds| % 2 == 1 then 0x9 else 0x1, ds[0])] + Packed(ds[1..])
  }

  /** The value Python's int() gives a decimal digit of any script; of ASCII, only 0 to 9 have one. */
  ghost predicate IsDecimal(decimal: char -> Option<Nibble>) {
    forall c {:trigger decimal(c)} ::
      && (decimal(c).Some? ==> decimal(c).value < 10)
      && (c < 128 as char ==> decimal(c) == if IsDigit(c) then Some(DigitOf(c)) else None)
  }

  predicate AllDecimal(s: string, decimal: char -> Option<Nibble>) {
    forall i :: 0 <= i < |s| ==> decimal(s[i]).Some?
  }

  function DecimalsOf(s: string, decimal: char -> Option<Nibble>): (ds: seq<Nibble>)
    requires AllDecimal(s, decimal)
    ensures |ds| == |s| && forall i :: 0 <= i < |s| ==> ds[i] == decimal(s[i]).value
  {
    seq(|s|, i requires 0 <= i < |s| => decimal(s[i]).value)
  }

  /** imsi_to_semi_octets(); nothing for what it refuses, or int() does (ValueError). */
  method ImsiToSemiOctets(imsi: string, decimal: char -> Option<Nibble>) returns (r: Option<seq<Byte>>)
    ensures r == if imsi != "" && AllDecimal(imsi, decimal) then Some(SemiOctets(DecimalsOf(imsi, decimal))) else None
  {
    if imsi == "" || !AllDecimal(imsi, decimal) {
      return None;
    }
    var digits := DecimalsOf(imsi, decimal);
    var out: seq<Byte> := [Octet(if |digits| % 2 == 1 then 0x9 else 0x1, digits[0])];
    var rest := digits[1..];
    var i := 0;
    while i < |rest|
      invariant out + Packed(if i <= |rest| then rest[i..] else []) == SemiOctets(digits)
      decreases |rest| - i
    {
      PackedStep(rest, i);
      var low := rest[i];
      var high: Nibble := if i + 1 < |rest| then rest[i + 1] else 0xF;
      Snoc(out, Octet(low, high), if i + 1 < |rest| then Packed(rest[i + 2..]) else []);
      out := out + [Octet(low, high)];
      i := i + 2;
    }
    assert out + [] == out;
    return Some(out);
  }

  /** "%X" of a semi-octet */
  function Hex(d: Nibble): char {
    if d < 10 then (0x30 + d) as char else (0x41 + d - 10) as char
  }

  function HexOf(ds: seq<Nibble>): (t: string)
    ensures |t| == |ds| && forall i :: 0 <= i < |ds| ==> t[i] == Hex(ds[i])
  {
    seq(|ds|, i requires 0 <= i < |ds| => Hex(ds[i]))
  }

  /** The digits _decode_bcd_identity() reads: an even identity ends before its filler. */
  function IdentityDigits(b: seq<Byte>): seq<Nibble>
    requires b != []
  {
    Trim(IsOdd(b[0]), [b[0] / 16] + Nibbles(b[1..]))
  }

  predicate IsOdd(b: Byte) {
    b / 8 % 2 == 1
  }

  function Trim(odd: bool, ds: seq<Nibble>): seq<Nibble>
    requires ds != []
  {
    if !odd && ds[|ds| - 1] == 0xF then ds[..|ds| - 1] else ds
  }

  /** _decode_bcd_identity() */
  method DecodeIdentity(b: seq<Byte>) returns (kind: nat, digits: string)
    ensures if b == [] then kind == 0 && digits == "" else kind == b[0] % 8 && digits == HexOf(IdentityDigits(b))
  {
    if b == [] {
      return 0, "";
    }
    kind := b[0] % 8;
    var ds: seq<Nibble> := [b[0] / 16];
    for i := 1 to |b|
      invariant ds + Nibbles(b[i..]) == [b[0] / 16] + Nibbles(b[1..])
    {
      NibblesStep(b, i);
      ghost var more := Nibbles(b[i + 1..]);
      assert ds + ([b[i] % 16, b[i] / 16] + more) == ds + [b[i] % 16] + [b[i] / 16] + more;
      ds := ds + [b[i] % 16];
      ds := ds + [b[i] / 16];
    }
    assert b[|b|..] == [] && ds + [] == ds;
    if !IsOdd(b[0]) && ds[|ds| - 1] == 0xF {
      ds := ds[..|ds| - 1];
    }
    digits := HexOf(ds);
  }

  /** An identity of any type: the first digit beside the type and the odd/even mark, the others
      packed. */
  function Identity(kind: nat, ds: seq<Nibble>): seq<Byte>
    requires kind < 8 && ds != []
  {
    [Octet(kind + if |ds| % 2 == 1 then 8 else 0, ds[0])] + Packed(ds[1..])
  }

  lemma FirstOctet(kind: nat, d: Nibble)
    requires kind < 8
    ensures Octet(kind + 8, d) % 8 == kind && IsOdd(Octet(kind + 8, d)) && Octet(kind + 8, d) / 16 == d
    ensures Octet(kind, d) % 8 == kind && !IsOdd(Octet(kind, d)) && Octet(kind, d) / 16 == d
  {
  }

  lemma Trimmed(ds: seq<Nibble>)
    requires ds != []
    ensures Trim(true, [ds[0]] + ds[1..]) == ds && Trim(false, [ds[0]] + (ds[1..] + [0xF])) == ds
  {
  }

  /** Every non-empty string of semi-octets, of odd or even length, comes back from its identity of
      any type. */
  lemma {:induction false} IdentityBack(kind: nat, ds: seq<Nibble>)
    requires kind < 8 && ds != []
    ensures Identity(kind, ds)[0] % 8 == kind && IdentityDigits(Identity(kind, ds)) == ds
  {
    var b := Identity(kind, ds);
    FirstOctet(kind, ds[0]);
    Unpacked(ds[1..]);
    assert b[1..] == Packed(ds[1..]);
    Trimmed(ds);
  }

  /** For every type and every non-empty digit string _decode_bcd_identity() reads that type and
      those digits from the identity. */
  lemma {:induction false} EveryType(kind: nat, s: string)
    requires kind < 8 && s != "" && AllDigits(s)
    ensures var b := Identity(kind, DigitsOf(s)); b[0] % 8 == kind && HexOf(IdentityDigits(b)) == s
  {
    IdentityBack(kind, DigitsOf(s));
    CharsBack(s);
  }

  lemma {:induction false} Repacked(bs: seq<Byte>)
    ensures Packed(Nibbles(bs)) == bs
    ensures bs != [] && bs[|bs| - 1] / 16 == 0xF ==> Packed(Nibbles(bs)[..2 * |bs| - 1]) == bs
  {
    if bs == [] {
    } else {
      var ds, rest := Nibbles(bs), Nibbles(bs[1..]);
      Repacked(bs[1..]);
      assert ds[2..] == rest;
      assert Octet(bs[0] % 16, bs[0] / 16) == bs[0];
      if |bs| > 1 {
        assert ds[..2 * |bs| - 1][2..] == rest[..2 * |bs| - 3];
        assert bs[1..][|bs| - 2] == bs[|bs| - 1];
      }
    }
  }

  /** What is read from octets, if anything, is the identity they are, exactly when the mark says odd
      or the last half is the filler. */
  lemma {:induction false} OnlyIdentities(b: seq<Byte>)
    requires b != [] && IdentityDigits(b) != []
    ensures Identity(b[0] % 8, IdentityDigits(b)) == b <==> b[0] / 8 % 2 == 1 || b[|b| - 1] / 16 == 0xF
  {
    LastHalf(b);
    if IsOdd(b[0]) || b[|b| - 1] / 16 != 0xF {
      WholeIdentity(b);
    } else {
      FilledIdentity(b);
    }
  }

  /** All halves are digits. */
  lemma {:induction false} WholeIdentity(b: seq<Byte>)
    requires b != []
    ensures var ds := [b[0] / 16] + Nibbles(b[1..]); Identity(b[0] % 8, ds) == b <==> IsOdd(b[0])
  {
    var ds := [b[0] / 16] + Nibbles(b[1..]);
    Repacked(b[1..]);
    SameFirst(b[0]);
    assert ds[1..] == Nibbles(b[1..]);
    FirstAndRest(b, Octet(b[0] % 8 + 8, b[0] / 16), Packed(ds[1..]));
  }

  /** The last half is the filler. */
  lemma {:induction false} FilledIdentity(b: seq<Byte>)
    requires |b| > 1 && !IsOdd(b[0]) && b[|b| - 1] / 16 == 0xF
    ensures var all := [b[0] / 16] + Nibbles(b[1..]); Identity(b[0] % 8, all[..|all| - 1]) == b
  {
    var all := [b[0] / 16] + Nibbles(b[1..]);
    var ds := all[..|all| - 1];
    Repacked(b[1..]);
    SameFirst(b[0]);
    assert b[1..][|b| - 2] == b[|b| - 1] && ds[1..] == Nibbles(b[1..])[..2 * (|b| - 1) - 1];
    FirstAndRest(b, Octet(b[0] % 8, b[0] / 16), Packed(ds[1..]));
  }

  lemma SameFirst(b: Byte)
    ensures Octet(b % 8 + 8, b / 16) == b <==> IsOdd(b)
    ensures Octet(b % 8, b / 16) == b <==> !IsOdd(b)
  {
  }

  lemma FirstAndRest(b: seq<Byte>, first: Byte, rest: seq<Byte>)
    requires b != [] && rest == b[1..]
    ensures [first] + rest == b <==> first == b[0]
  {
    assert [b[0]] + b[1..] == b;
  }

  lemma {:induction false} LastHalf(b: seq<Byte>)
    requires b != []
    ensures var all := [b[0] / 16] + Nibbles(b[1..]); all[|all| - 1] == b[|b| - 1] / 16
  {
    if |b| > 1 {
      NibblesLast(b[1..]);
    } else {
      assert b[1..] == [];
    }
  }

  lemma {:induction false} SemiOctetsBack(ds: seq<Nibble>)
    requires ds != []
    ensures SemiOctets(ds) == Identity(1, ds) && SemiOctets(ds)[0] % 8 == 1 && IdentityDigits(SemiOctets(ds)) == ds
  {
    IdentityBack(1, ds);
  }

  /** Every non-empty string of decimal digits, of odd or even length, comes back from its
      identity, digit for digit, and the identity is of type IMSI. */
  lemma {:induction false} IdentityRoundTrip(s: string, decimal: char -> Option<Nibble>)
    requires s != "" && AllDecimal(s, decimal) && IsDecimal(decimal)
    ensures var b := SemiOctets(DecimalsOf(s, decimal));
            && b[0] % 8 == 1 && IdentityDigits(b) == DecimalsOf(s, decimal)
            && AllDigits(HexOf(IdentityDigits(b))) && (AllDigits(s) ==> HexOf(IdentityDigits(b)) == s)
  {
    var ds := DecimalsOf(s, decimal);
    SemiOctetsBack(ds);
    if AllDigits(s) {
      AsciiDecimals(s, decimal);
      CharsBack(s);
    }
  }

  lemma AsciiDecimals(s: string, decimal: char -> Option<Nibble>)
    requires AllDigits(s) && IsDecimal(decimal)
    ensures AllDecimal(s, decimal) && DecimalsOf(s, decimal) == DigitsOf(s)
  {
    assert forall i :: 0 <= i < |s| ==> decimal(s[i]) == Some(DigitOf(s[i]));
  }

  // ---- C ---------------------------------------------------------------------

  /** One digit into its half of an octet; the low half is written first. */
  method PutDigit(out: array<Byte>, k: nat, high: bool, d: Nibble)
    requires k < out.Length && (high ==> out[k] < 16)
    modifies out
    ensures out[k] == if high then Octet(old(out[k]), d) else d
    ensures out[..k] == old(out[..k]) && forall j :: k < j < out.Length ==> out[j] == old(out[j])
  {
    if high {
      out[k] := Octet(out[k], d);
    } else {
      out[k] := d;
    }
  }

  lemma {:induction false} PackedMore(done: seq<Byte>, ds: seq<Nibble>, k: nat)
    requires 2 * k + 1 < |ds| && done + Packed(ds[2 * k..]) == Packed(ds)
    ensures done + [Octet(ds[2 * k], ds[2 * k + 1])] + Packed(ds[2 * (k + 1)..]) == Packed(ds)
  {
    PackedStep(ds, 2 * k);
    Snoc(done, Octet(ds[2 * k], ds[2 * k + 1]), Packed(ds[2 * (k + 1)..]));
  }

  /** The semi-octet of any character: what is left of it less '0', in four bits. */
  function SemiOf(c: char): Nibble {
    (c as int - 0x30) % 16
  }

  /** That is the low half of the character. */
  lemma LowHalf(c: char)
    ensures SemiOf(c) == c as int % 16
  {
  }

  function SemisOf(s: string): (ds: seq<Nibble>)
    ensures |ds| == |s| && forall i :: 0 <= i < |s| ==> ds[i] == SemiOf(s[i])
  {
    seq(|s|, i requires 0 <= i < |s| => SemiOf(s[i]))
  }

  /** The loop of ogs_bcd_to_buffer(): all but the filler of an odd digit string. */
  method PutDigits(s: string, out: array<Byte>)
    requires out.Length >= (|s| + 1) / 2
    modifies out
    ensures var ds, k := SemisOf(s), |s| / 2;
            out[..k] + Packed(ds[2 * k..]) == Packed(ds) && (|s| % 2 == 1 ==> out[k] == ds[2 * k])
    ensures forall j :: (|s| + 1) / 2 <= j < out.Length ==> out[j] == old(out[j])
  {
    ghost var ds := SemisOf(s);
    ghost var k, odd := 0, false;
    for i := 0 to |s|
      invariant i == 2 * k + if odd then 1 else 0
      invariant out[..k] + Packed(ds[2 * k..]) == Packed(ds) && (odd ==> out[k] == ds[2 * k])
      invariant forall j :: (|s| + 1) / 2 <= j < out.Length ==> out[j] == old(out[j])
    {
      Halves(i, k, odd);
      if odd {
        PackedMore(out[..k], ds, k);
      }
      PutDigit(out, i / 2, i % 2 == 1, SemiOf(s[i]));
      if odd {
        assert out[..k + 1] == out[..k] + [out[k]];
        k := k + 1;
      }
      odd := !odd;
    }
    Halves(|s|, k, odd);
  }

  lemma Halves(i: nat, k: nat, odd: bool)
    requires i == 2 * k + if odd then 1 else 0
    ensures i / 2 == k && (i % 2 == 1 <==> odd)
  {
  }

  /** ogs_bcd_to_buffer(): the octets of a digit string written into `out`. */
  method BcdToBuffer(s: string, out: array<Byte>) returns (n: nat)
    requires out.Length >= (|s| + 1) / 2
    modifies out
    ensures n == (|s| + 1) / 2 && out[..n] == Packed(SemisOf(s))
    ensures forall j :: n <= j < out.Length ==> out[j] == old(out[j])
  {
    PutDigits(s, out);
    n := (|s| + 1) / 2;
    ghost var ds := SemisOf(s);
    if |s| % 2 == 1 {
      PackedStep(ds, |s| - 1);
      PutDigit(out, n - 1, true, 0xF);
      assert out[..n] == out[..n - 1] + [out[n - 1]];
    } else {
      assert ds[|s|..] == [] && out[..n] + [] == out[..n];
    }
  }

  /** The characters ogs_buffer_to_bcd() writes before its NUL. */
  function BcdText(b: seq<Byte>): string
    requires b != []
  {
    var last := b[|b| - 1];
    CharsOf(Nibbles(b[..|b| - 1]) + if last / 16 == 0xF then [last % 16] else [last % 16, last / 16])
  }

  /** Characters written from position `i` on. */
  method Put(out: array<char>, i: nat, t: string)
    requires i + |t| <= out.Length
    modifies out
    ensures out[..i + |t|] == old(out[..i]) + t
  {
    ghost var before := out[..i];
    for k := 0 to |t|
      invariant out[..i + k] == before + t[..k]
    {
      out[i + k] := t[k];
      assert out[..i + k + 1] == before + t[..k] + [t[k]];
      assert t[..k + 1] == t[..k] + [t[k]];
    }
    assert t[..|t|] == t;
  }

  lemma {:induction false} PairStep(b: seq<Byte>, i: nat, before: string)
    requires i < |b|
    ensures before + CharsOf(Nibbles(b[i..]))
         == before + [CharOf(b[i] % 16), CharOf(b[i] / 16)] + CharsOf(Nibbles(b[i + 1..]))
  {
    NibblesStep(b, i);
    CharsCons(b[i] % 16, b[i] / 16, Nibbles(b[i + 1..]));
  }

  /** The loop of ogs_buffer_to_bcd(): all octets but the last. */
  method PutPairs(b: seq<Byte>, out: array<char>)
    requires out.Length > 2 * |b|
    modifies out
    ensures out[..2 * |b|] == CharsOf(Nibbles(b))
  {
    assert b[0..] == b && b[|b|..] == [];
    for i := 0 to |b|
      invariant out[..2 * i] + CharsOf(Nibbles(b[i..])) == CharsOf(Nibbles(b))
    {
      PutPair(b, i, out, CharsOf(Nibbles(b)));
    }
  }

  method PutPair(b: seq<Byte>, i: nat, out: array<char>, ghost all: string)
    requires i < |b| && out.Length > 2 * |b| && out[..2 * i] + CharsOf(Nibbles(b[i..])) == all
    modifies out
    ensures out[..2 * (i + 1)] + CharsOf(Nibbles(b[i + 1..])) == all
  {
    PairStep(b, i, out[..2 * i]);
    Put(out, i * 2, [CharOf(b[i] % 16), CharOf(b[i] / 16)]);
  }

  /** ogs_buffer_to_bcd() */
  method BufferToBcd(b: seq<Byte>, out: array<char>)
    requires b != [] && out.Length > 2 * |b|
    modifies out
    ensures var t := BcdText(b) + ['\0']; |t| <= out.Length && out[..|t|] == t
  {
    var i := |b| - 1;
    PutPairs(b[..i], out);
    ghost var before := out[..2 * i];
    var low, high := CharOf(b[i] % 16), CharOf(b[i] / 16);
    if b[i] / 16 == 0xF {
      CharsSnoc(Nibbles(b[..i]), [b[i] % 16]);
      assert before + [low] + ['\0'] == before + [low, '\0'];
      Put(out, i * 2, [low, '\0']);
    } else {
      CharsSnoc(Nibbles(b[..i]), [b[i] % 16, b[i] / 16]);
      assert before + [low, high] + ['\0'] == before + [low, high, '\0'];
      Put(out, i * 2, [low, high, '\0']);
    }
  }

  lemma CharsCons(x: Nibble, y: Nibble, ds: seq<Nibble>)
    ensures CharsOf([x, y] + ds) == [CharOf(x), CharOf(y)] + CharsOf(ds)
  {
  }

  lemma CharsSnoc(a: seq<Nibble>, b: seq<Nibble>)
    ensures CharsOf(a + b) == CharsOf(a) + CharsOf(b)
    ensures |b| == 1 ==> CharsOf(b) == [CharOf(b[0])]
    ensures |b| == 2 ==> CharsOf(b) == [CharOf(b[0]), CharOf(b[1])]
  {
  }

  lemma {:induction false} NibblesLast(bs: seq<Byte>)
    requires bs != []
    ensures Nibbles(bs) == Nibbles(bs[..|bs| - 1]) + [bs[|bs| - 1] % 16, bs[|bs| - 1] / 16]
  {
    if |bs| > 1 {
      NibblesLast(bs[1..]);
      assert bs[1..][..|bs| - 2] == bs[..|bs| - 1][1..];
    } else {
      assert bs[1..] == [];
    }
  }

  /** Every non-empty digit string comes back from its buffer. */
  lemma {:induction false} BufferRoundTrip(s: string)
    requires s != "" && AllDigits(s)
    ensures BcdText(Packed(SemisOf(s))) == s
  {
    var ds := DigitsOf(s);
    assert SemisOf(s) == ds;
    PackedLength(ds);
    Unpacked(ds);
    TextOfPacked(Packed(ds), ds);
    CharsBack(s);
  }

  /** The text of octets that hold `ds`, with a filler or not. */
  lemma {:induction false} TextOfPacked(b: seq<Byte>, ds: seq<Nibble>)
    requires b != [] && ds != [] && ds[|ds| - 1] < 10 && (Nibbles(b) == ds || Nibbles(b) == ds + [0xF])
    ensures BcdText(b) == CharsOf(ds)
  {
    NibblesLast(b);
    var init, low, high := Nibbles(b[..|b| - 1]), b[|b| - 1] % 16, b[|b| - 1] / 16;
    assert Nibbles(b) == init + [low] + [high];
    if Nibbles(b) == ds {
      assert ds[|ds| - 1] == high;
      assert init + [low, high] == ds;
    } else {
      LastOf(init + [low], high, ds, 0xF);
    }
  }

  lemma LastOf<T>(a: seq<T>, x: T, b: seq<T>, y: T)
    requires a + [x] == b + [y]
    ensures a == b && x == y
  {
    assert (a + [x])[..|a|] == a && (b + [y])[..|b|] == b && (a + [x])[|a|] == x && (b + [y])[|b|] == y;
  }

  lemma CharsBack(s: string)
    requires AllDigits(s)
    ensures CharsOf(DigitsOf(s)) == s && HexOf(DigitsOf(s)) == s
  {
  }
}
