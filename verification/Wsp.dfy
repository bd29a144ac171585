/**
The WSP push of `apn_provisioner/cp_builder.py` and the re-parser of it in
`apn_provisioner/validator.py` (uintvar: WAP-230-WSP section 8.1.2; value-length: 8.4.2.2).
*/
module WspSpec {
  import opened Basics
  import opened WbxmlSpec

  // ---- uintvar ---------------------------------------------------------------

  /** All groups of seven bits of `n` but the last, each with its continuation bit. */
  function High(n: nat): seq<Byte> {
    if n == 0 then [] else High(n / 128) + [n % 128 + 128]
  }

  function Uintvar(n: nat): seq<Byte> {
    High(n / 128) + [n % 128]
  }

  /** _read_uintvar() with `n` read so far; nothing if the bytes run out (IndexError). */
  function ReadUintvar(d: seq<Byte>, n: nat): (r: Option<(nat, seq<Byte>)>)
    ensures r.Some? ==> |r.value.1| < |d|
    decreases |d|
  {
    if d == [] then None
    else if d[0] >= 128 then ReadUintvar(d[1..], n * 128 + d[0] % 128)
    else Some((n * 128 + d[0], d[1..]))
  }

  lemma Seven(n: nat)
    ensures n == n / 128 * 128 + n % 128 && (n % 128 + 128) % 128 == n % 128
  {
  }

  lemma {:induction false} HighRead(n: nat, s: seq<Byte>)
    ensures ReadUintvar(High(n) + s, 0) == ReadUintvar(s, n)
  {
    if n == 0 {
      assert High(n) + s == s;
    } else {
      var q, x: Byte := n / 128, n % 128 + 128;
      Seven(n);
      HighRead(q, [x] + s);
      HighStep(q, x, s, High(n));
      ReadHigh(q, x, s);
    }
  }

  lemma HighStep(q: nat, x: Byte, s: seq<Byte>, h: seq<Byte>)
    requires h == High(q) + [x]
    ensures h + s == High(q) + ([x] + s)
  {
  }

  lemma ReadHigh(n: nat, x: Byte, s: seq<Byte>)
    requires x >= 128
    ensures ReadUintvar([x] + s, n) == ReadUintvar(s, n * 128 + (x - 128))
  {
    assert ([x] + s)[1..] == s && x % 128 == x - 128;
  }

  /** Every number is read back from its encoding, and only its encoding is read. */
  lemma {:induction false} UintvarRoundTrip(n: nat, t: seq<Byte>)
    ensures ReadUintvar(Uintvar(n) + t, 0) == Some((n, t))
  {
    var q, x: Byte := n / 128, n % 128;
    HighRead(q, [x] + t);
    assert Uintvar(n) + t == High(q) + ([x] + t);
    ReadLow(q, x, t);
    assert q * 128 + x == n;
  }

  lemma ReadLow(n: nat, x: Byte, t: seq<Byte>)
    requires x < 128
    ensures ReadUintvar([x] + t, n) == Some((n * 128 + x, t))
  {
    assert ([x] + t)[1..] == t;
  }

  /** The number octets stand for, seven bits each, the first the most significant. */
  function NumberOf(d: seq<Byte>): nat {
    if d == [] then 0 else NumberOf(d[..|d| - 1]) * 128 + d[|d| - 1] % 128
  }

  lemma NumberMore(d: seq<Byte>, x: Byte)
    ensures NumberOf(d + [x]) == NumberOf(d) * 128 + x % 128
  {
    assert (d + [x])[..|d|] == d;
  }

  ghost predicate Continued(d: seq<Byte>) {
    forall i :: 0 <= i < |d| ==> d[i] >= 128
  }

  lemma {:induction false} HighShape(n: nat)
    ensures Continued(High(n)) && NumberOf(High(n)) == n && (n > 0 ==> High(n) != [] && High(n)[0] > 128)
  {
    if n == 0 {
    } else {
      var q, x: Byte := n / 128, n % 128 + 128;
      HighShape(q);
      Seven(n);
      NumberMore(High(q), x);
      HighFirst(q, x, n);
    }
  }

  lemma HighFirst(q: nat, x: Byte, n: nat)
    requires n > 0 && q == n / 128 && x == n % 128 + 128 && (q > 0 ==> High(q) != [] && High(q)[0] > 128)
    ensures (High(q) + [x])[0] > 128
  {
  }

  /** WAP-230-WSP section 8.1.2: seven bits to an octet, the most significant first, the top bit set
      in all but the last, and no octet to spare. */
  lemma {:induction false} UintvarShape(n: nat)
    ensures var u := Uintvar(n);
            && u != [] && u[|u| - 1] < 128 && Continued(u[..|u| - 1]) && NumberOf(u) == n && u[0] != 128
  {
    var q, x: Byte := n / 128, n % 128;
    HighShape(q);
    Seven(n);
    NumberMore(High(q), x);
    assert (High(q) + [x])[..|High(q)|] == High(q);
  }

  // ---- text ------------------------------------------------------------------

  predicate AsciiText(s: string) {
    forall i :: 0 <= i < |s| ==> s[i] < 128 as char
  }

  function Ascii(s: string): (bs: seq<Byte>)
    requires AsciiText(s)
    ensures |bs| == |s|
  {
    seq(|s|, i requires 0 <= i < |s| => s[i] as int)
  }

  predicate IsAscii(bs: seq<Byte>) {
    forall i :: 0 <= i < |bs| ==> bs[i] < 128
  }

  function FromAscii(bs: seq<Byte>): string
    requires IsAscii(bs)
  {
    seq(|bs|, i requires 0 <= i < |bs| => bs[i] as char)
  }

  lemma TextOfAscii(s: string)
    requires AsciiText(s)
    ensures IsAscii(Ascii(s)) && FromAscii(Ascii(s)) == s && (0 in Ascii(s) <==> '\0' in s)
  {
    if '\0' in s {
      var i :| 0 <= i < |s| && s[i] == '\0';
      assert Ascii(s)[i] == 0;
    }
  }

  // ---- building --------------------------------------------------------------

  const MEDIA := "application/vnd.wap.connectivity-wbxml"

  datatype Push = Push(tid: Byte, media: string, sec: Option<Sec>, mac: Option<string>, wbxml: seq<Byte>)

  datatype Sec = Netwpin | Userpin | Usernetwpin | OtherSec(value: Byte)

  /** What build_content_type() accepts and `encode("ascii")` can write: 40 characters of
      ASCII that upper() leaves alone. */
  predicate MacOk(mac: string) {
    |mac| == 40 && AsciiText(mac) && forall i :: 0 <= i < |mac| ==> !('a' <= mac[i] <= 'z')
  }

  function ValueLength(n: nat): seq<Byte> {
    if n <= 30 then [n] else [0x1F] + Uintvar(n)
  }

  function MediaBytes(): seq<Byte>
    ensures AsciiText(MEDIA)
  {
    MediaPlain();
    Ascii(MEDIA)
  }

  lemma MediaPlain()
    ensures AsciiText(MEDIA) && '\0' !in MEDIA
  {
  }

  /** The parameters of the content type: SEC=NETWPIN and the MAC. */
  function Params(mac: string): seq<Byte>
    requires MacOk(mac)
  {
    [0x91, 0x80] + ([0x92] + Ascii(mac) + [0x00])
  }

  /** A content-type field with any parameters. */
  function ContentType(params: seq<Byte>): seq<Byte> {
    var value := MediaBytes() + [0x00] + params;
    ValueLength(|value|) + value
  }

  /** A push with any transaction, parameters and document. */
  function PushOf(tid: Byte, params: seq<Byte>, wbxml: seq<Byte>): seq<Byte> {
    [tid, 0x06] + Uintvar(|ContentType(params)|) + ContentType(params) + wbxml
  }

  /** build_wsp_push() */
  function PushBytes(wbxml: seq<Byte>, mac: string): seq<Byte>
    requires MacOk(mac)
  {
    PushOf(0x01, Params(mac), wbxml)
  }

  // ---- reading ---------------------------------------------------------------

  datatype State = State(k: nat, sec: Option<Sec>, mac: Option<string>)

  datatype Phase = Running(st: State) | Finished(st: State) | Failed(err: Err)

  function SecOf(b: Byte): Sec {
    if b == 0x80 then Netwpin else if b == 0x81 then Userpin else if b == 0x82 then Usernetwpin else OtherSec(b)
  }

  /** Where the MAC text that starts at `i` ends: before its NUL, or, as find() answers -1 when
      there is none, before the last byte. */
  function MacText(rest: seq<Byte>, i: nat): seq<Byte>
    requires i <= |rest|
  {
    var e := i + NulAt(rest[i..]);
    if e < |rest| then rest[i..e] else if i < |rest| then rest[i..|rest| - 1] else []
  }

  /** Where the loop goes on after it: past the NUL, or, without one, at 0. */
  function AfterMac(rest: seq<Byte>, i: nat): (k: nat)
    requires i <= |rest|
    ensures k == 0 || i < k <= |rest|
  {
    var e := i + NulAt(rest[i..]);
    if e < |rest| then e + 1 else 0
  }

  /** One turn of the parameter loop of decode_wsp_push(). */
  function Turn(rest: seq<Byte>, st: State): Phase {
    if st.k >= |rest| then Finished(st)
    else if rest[st.k] == 0x91 then
      if st.k + 1 >= |rest| then Failed(IndexErr) else Running(st.(k := st.k + 2, sec := Some(SecOf(rest[st.k + 1]))))
    else if rest[st.k] == 0x92 then
      if !IsAscii(MacText(rest, st.k + 1)) then Failed(UnicodeErr)
      else Running(st.(k := AfterMac(rest, st.k + 1), mac := Some(FromAscii(MacText(rest, st.k + 1)))))
    else Failed(Malformed)
  }

  /** The loop after `n` turns. */
  function Turns(rest: seq<Byte>, st: State, n: nat): Phase
    decreases n
  {
    if n == 0 then Running(st)
    else
      match Turn(rest, st)
      case Running(st') => Turns(rest, st', n - 1)
      case p => p
  }

  const START := State(0, None, None)

  /** From position `k` the parameters lead to a MAC with no NUL after it. */
  predicate Unterminated(rest: seq<Byte>, k: nat)
    decreases |rest| - k
  {
    k < |rest| &&
    if rest[k] == 0x91 then k + 1 < |rest| && Unterminated(rest, k + 2)
    else rest[k] == 0x92 && IsAscii(MacText(rest, k + 1))
         && (AfterMac(rest, k + 1) == 0 || Unterminated(rest, AfterMac(rest, k + 1)))
  }

  lemma {:induction false} Forward(rest: seq<Byte>, st: State)
    requires !Unterminated(rest, st.k) && Turn(rest, st).Running?
    ensures st.k < Turn(rest, st).st.k <= |rest| && !Unterminated(rest, Turn(rest, st).st.k)
  {
  }

  /** How the parameter loop ends. */
  function ReadParams(rest: seq<Byte>, st: State): (p: Phase)
    requires !Unterminated(rest, st.k)
    ensures !p.Running?
    decreases |rest| - st.k
  {
    match Turn(rest, st)
    case Running(st') => Forward(rest, st); ReadParams(rest, st')
    case p => p
  }

  lemma {:induction false} Ends(rest: seq<Byte>, st: State) returns (n: nat)
    requires !Unterminated(rest, st.k)
    ensures Turns(rest, st, n) == ReadParams(rest, st) && !Turns(rest, st, n).Running?
    decreases |rest| - st.k
  {
    match Turn(rest, st)
    case Running(st') =>
      Forward(rest, st);
      n := Ends(rest, st');
      n := n + 1;
    case _ => n := 1;
  }

  lemma {:induction false} GoesRound(rest: seq<Byte>, st: State, n: nat)
    requires Unterminated(rest, 0) && Unterminated(rest, st.k)
    ensures Turns(rest, st, n).Running?
    decreases n
  {
    if n > 0 {
      RoundAgain(rest, st);
      GoesRound(rest, Turn(rest, st).st, n - 1);
    }
  }

  lemma RoundAgain(rest: seq<Byte>, st: State)
    requires Unterminated(rest, 0) && Unterminated(rest, st.k)
    ensures Turn(rest, st).Running? && Unterminated(rest, Turn(rest, st).st.k)
  {
    if rest[st.k] == 0x91 {
      assert Unterminated(rest, st.k + 2);
    } else {
      var k := AfterMac(rest, st.k + 1);
      assert k == 0 || Unterminated(rest, k);
    }
  }

  // ---- the whole push --------------------------------------------------------

  datatype Head = HeadOk(tid: Byte, media: string, params: seq<Byte>, wbxml: seq<Byte>) | HeadErr(err: Err)

  /** A slice to `n` bytes, or to the end. */
  function Upto(d: seq<Byte>, n: nat): nat {
    if n <= |d| then n else |d|
  }

  datatype Skipped = SkipOk(rest: seq<Byte>) | SkipErr(err: Err)

  /** The bytes of the content-type field after its value-length. */
  function SkipLength(ct: seq<Byte>): (r: Skipped)
    ensures r.SkipOk? ==> |r.rest| < |ct|
  {
    if ct == [] then SkipErr(IndexErr)
    else if ct[0] <= 30 then SkipOk(ct[1..])
    else if ct[0] == 0x1F then
      var v := ReadUintvar(ct[1..], 0);
      if v == None then SkipErr(IndexErr) else SkipOk(v.value.1)
    else SkipErr(Malformed)
  }

  /** The media type and the parameters. */
  function ReadMedia(tid: Byte, value: seq<Byte>, wbxml: seq<Byte>): Head {
    var nul := NulAt(value);
    if nul == |value| then HeadErr(Malformed)
    else if !IsAscii(value[..nul]) then HeadErr(UnicodeErr)
    else if !(MEDIA <= FromAscii(value[..nul])) then HeadErr(Malformed)
    else HeadOk(tid, FromAscii(value[..nul]), value[nul + 1..], wbxml)
  }

  /** The content-type field, up to `e`, and the document. */
  function ReadField(tid: Byte, rest: seq<Byte>, e: nat): Head
    requires e <= |rest|
  {
    match SkipLength(rest[..e])
    case SkipErr(err) => HeadErr(err)
    case SkipOk(value) => ReadMedia(tid, value, rest[e..])
  }

  /** decode_wsp_push() up to its parameter loop. */
  function ReadHead(pdu: seq<Byte>): Head {
    if |pdu| < 2 then HeadErr(IndexErr)
    else if pdu[1] != 0x06 then HeadErr(Malformed)
    else
      var l := ReadUintvar(pdu[2..], 0);
      if l == None then HeadErr(IndexErr) else ReadField(pdu[0], l.value.1, Upto(l.value.1, l.value.0))
  }

  lemma {:induction false} LengthSkipped(value: seq<Byte>)
    ensures SkipLength(ValueLength(|value|) + value) == SkipOk(value)
  {
    var ct := ValueLength(|value|) + value;
    if |value| <= 30 {
      assert ct[1..] == value;
    } else {
      assert ct[0] == 0x1F && ct[1..] == Uintvar(|value|) + value;
      UintvarRoundTrip(|value|, value);
    }
  }

  datatype Measured = Measured(value: seq<Byte>, rest: seq<Byte>) | TooShort

  /** A reader that goes by the value-length (WAP-230-WSP section 8.4.2.2): one octet up to 30, or 31
      and a uintvar, and as many octets as it says. */
  function TakeValue(d: seq<Byte>): Measured {
    if d == [] || d[0] > 31 then TooShort
    else if d[0] <= 30 then Split(d[1..], d[0])
    else
      match ReadUintvar(d[1..], 0)
      case None => TooShort
      case Some((n, after)) => Split(after, n)
  }

  function Split(d: seq<Byte>, n: nat): Measured {
    if n <= |d| then Measured(d[..n], d[n..]) else TooShort
  }

  /** The value-length announces exactly the value, whatever follows. */
  lemma {:induction false} ValueMeasured(value: seq<Byte>, t: seq<Byte>)
    ensures TakeValue(ValueLength(|value|) + value + t) == Measured(value, t)
  {
    assert (value + t)[..|value|] == value && (value + t)[|value|..] == t;
    if |value| <= 30 {
      assert ([|value|] + value + t)[1..] == value + t;
    } else {
      LongLength(Uintvar(|value|), value, t);
      UintvarRoundTrip(|value|, value + t);
    }
  }

  lemma LongLength(u: seq<Byte>, value: seq<Byte>, t: seq<Byte>)
    ensures ([0x1F] + u + value + t)[0] == 0x1F && ([0x1F] + u + value + t)[1..] == u + (value + t)
  {
  }

  /** In every content-type field the value-length counts the media type, its NUL and the parameters,
      and nothing is left over. */
  lemma {:induction false} FieldMeasured(params: seq<Byte>)
    ensures AsciiText("application/vnd.wap.connectivity-wbxml")
    ensures TakeValue(ContentType(params)) == Measured(Ascii("application/vnd.wap.connectivity-wbxml") + [0x00] + params, [])
  {
    MediaPlain();
    var value := MediaBytes() + [0x00] + params;
    assert ContentType(params) == ValueLength(|value|) + value + [];
    ValueMeasured(value, []);
  }

  /** Any media type that begins with the literal text is accepted, and no other. */
  lemma {:induction false} MediaAccepted(tid: Byte, media: string, params: seq<Byte>, wbxml: seq<Byte>)
    requires AsciiText(media) && '\0' !in media
    ensures ReadMedia(tid, Ascii(media) + [0x00] + params, wbxml)
         == if "application/vnd.wap.connectivity-wbxml" <= media then HeadOk(tid, media, params, wbxml) else HeadErr(Malformed)
  {
    var m := Ascii(media);
    var value := m + [0x00] + params;
    TextOfAscii(media);
    assert value[|m|] == 0 && forall i :: 0 <= i < |m| ==> value[i] == m[i];
    assert NulAt(value) == |m|;
    assert value[..|m|] == m && value[|m| + 1..] == params;
  }

  /** The re-parser does not look at what the value-length says: any number is skipped, short or long. */
  lemma {:induction false} AnyLengthAccepted(value: seq<Byte>, n: nat)
    ensures n <= 30 ==> SkipLength([n] + value) == SkipOk(value)
    ensures SkipLength([0x1F] + Uintvar(n) + value) == SkipOk(value)
  {
    if n <= 30 {
      assert ([n] + value)[1..] == value;
    }
    assert ([0x1F] + Uintvar(n) + value)[1..] == Uintvar(n) + value;
    UintvarRoundTrip(n, value);
  }

  lemma {:induction false} MediaRead(tid: Byte, params: seq<Byte>, wbxml: seq<Byte>)
    ensures ReadMedia(tid, MediaBytes() + [0x00] + params, wbxml) == HeadOk(tid, MEDIA, params, wbxml)
  {
    var m := MediaBytes();
    var value := m + [0x00] + params;
    MediaPlain();
    TextOfAscii(MEDIA);
    assert value[|m|] == 0 && forall i :: 0 <= i < |m| ==> value[i] == m[i];
    assert NulAt(value) == |m|;
    assert value[..|m|] == m && value[|m| + 1..] == params;
  }

  /** The reader takes a push apart as it was put together, whatever its parameters. */
  lemma {:induction false} HeadReadsBack(tid: Byte, params: seq<Byte>, wbxml: seq<Byte>)
    ensures ReadHead(PushOf(tid, params, wbxml)) == HeadOk(tid, MEDIA, params, wbxml)
  {
    var ct := ContentType(params);
    LengthSkipped(MediaBytes() + [0x00] + params);
    MediaRead(tid, params, wbxml);
    FieldRead(tid, ct, MediaBytes() + [0x00] + params, wbxml);
  }

  lemma {:induction false} FieldRead(tid: Byte, ct: seq<Byte>, value: seq<Byte>, wbxml: seq<Byte>)
    requires SkipLength(ct) == SkipOk(value)
    ensures ReadHead([tid, 0x06] + Uintvar(|ct|) + ct + wbxml) == ReadMedia(tid, value, wbxml)
  {
    HeaderRead(tid, Uintvar(|ct|), ct + wbxml, [tid, 0x06] + Uintvar(|ct|) + ct + wbxml);
    UintvarRoundTrip(|ct|, ct + wbxml);
    FieldSplit(tid, ct, wbxml);
  }

  lemma HeaderRead(tid: Byte, l: seq<Byte>, rest: seq<Byte>, pdu: seq<Byte>)
    requires pdu == [tid, 0x06] + l + rest
    ensures |pdu| >= 2 && pdu[0] == tid && pdu[1] == 0x06 && pdu[2..] == l + rest
  {
  }

  lemma FieldSplit(tid: Byte, ct: seq<Byte>, wbxml: seq<Byte>)
    requires SkipLength(ct).SkipOk?
    ensures ReadField(tid, ct + wbxml, |ct|) == ReadMedia(tid, SkipLength(ct).rest, wbxml)
  {
    assert (ct + wbxml)[..|ct|] == ct && (ct + wbxml)[|ct|..] == wbxml;
  }

  lemma {:induction false} UintvarSuffix(d: seq<Byte>, n: nat)
    requires ReadUintvar(d, n).Some?
    ensures var rest := ReadUintvar(d, n).value.1; d == d[..|d| - |rest|] + rest
    decreases |d|
  {
    var rest := ReadUintvar(d, n).value.1;
    if d[0] >= 128 {
      UintvarSuffix(d[1..], n * 128 + d[0] % 128);
      var e := d[1..];
      assert d == [d[0]] + (e[..|e| - |rest|] + rest);
      assert [d[0]] + (e[..|e| - |rest|] + rest) == ([d[0]] + e[..|e| - |rest|]) + rest;
      assert d[..|d| - |rest|] == [d[0]] + e[..|e| - |rest|];
    } else {
      assert d == [d[0]] + rest && d[..1] == [d[0]];
    }
  }

  lemma {:induction false} LengthSuffix(ct: seq<Byte>) returns (length: seq<Byte>)
    requires SkipLength(ct).SkipOk?
    ensures ct == length + SkipLength(ct).rest && length != []
    ensures if ct[0] <= 30 then length == [ct[0]] else length[0] == 0x1F
  {
    var rest := SkipLength(ct).rest;
    if ct[0] <= 30 {
      length := [ct[0]];
      assert ct == [ct[0]] + ct[1..];
    } else {
      UintvarSuffix(ct[1..], 0);
      var u := ct[1..][..|ct| - 1 - |rest|];
      length := [0x1F] + u;
      assert ct == [ct[0]] + ct[1..];
      assert [0x1F] + (u + rest) == [0x1F] + u + rest;
    }
  }

  /** Nothing of a push that is accepted is lost or moved: it is the transaction, the type octet 6, the
      length of the headers, the value-length, the media type, which begins with the literal text, a
      NUL, the parameters and the document. */
  lemma {:induction false} HeadParts(pdu: seq<Byte>) returns (headers: seq<Byte>, length: seq<Byte>, media: seq<Byte>)
    requires ReadHead(pdu).HeadOk?
    ensures var h := ReadHead(pdu);
            && pdu == [h.tid, 0x06] + headers + (length + media + [0x00] + h.params) + h.wbxml
            && 0 !in media && IsAscii(media) && FromAscii(media) == h.media && "application/vnd.wap.connectivity-wbxml" <= h.media
            && length != [] && (length[0] <= 30 ==> |length| == 1) && length[0] <= 31
            && ReadUintvar(headers + (length + media + [0x00] + h.params) + h.wbxml, 0).Some?
            && var n := ReadUintvar(headers + (length + media + [0x00] + h.params) + h.wbxml, 0).value.0;
               if h.wbxml == [] then n >= |length + media + [0x00] + h.params| else n == |length + media + [0x00] + h.params|
  {
    var h := ReadHead(pdu);
    var (n, rest) := ReadUintvar(pdu[2..], 0).value;
    var e := Upto(rest, n);
    var ct := rest[..e];
    UintvarSuffix(pdu[2..], 0);
    headers := pdu[2..][..|pdu| - 2 - |rest|];
    length := LengthSuffix(ct);
    media := MediaSplit(h.tid, SkipLength(ct).rest, h.wbxml);
    Assembled(pdu, headers, rest, e, length, media, h.params, h.wbxml);
  }

  lemma {:induction false} MediaSplit(tid: Byte, value: seq<Byte>, wbxml: seq<Byte>) returns (media: seq<Byte>)
    requires ReadMedia(tid, value, wbxml).HeadOk?
    ensures var h := ReadMedia(tid, value, wbxml);
            && h.tid == tid && h.wbxml == wbxml && value == media + [0x00] + h.params && 0 !in media && IsAscii(media)
            && FromAscii(media) == h.media && "application/vnd.wap.connectivity-wbxml" <= h.media
  {
    var nul := NulAt(value);
    media := value[..nul];
    assert value == value[..nul] + [value[nul]] + value[nul + 1..];
  }

  lemma Assembled(pdu: seq<Byte>, headers: seq<Byte>, rest: seq<Byte>, e: nat, length: seq<Byte>, media: seq<Byte>,
                  params: seq<Byte>, wbxml: seq<Byte>)
    requires |pdu| >= 2 && pdu[2..] == headers + rest && e <= |rest| && wbxml == rest[e..]
    requires rest[..e] == length + (media + [0x00] + params)
    ensures var field := length + media + [0x00] + params;
            |field| == e && rest == field + wbxml && pdu[2..] == headers + field + wbxml && pdu == [pdu[0], pdu[1]] + headers + field + wbxml
  {
    var field := length + media + [0x00] + params;
    assert length + (media + [0x00] + params) == field;
    assert rest == rest[..e] + rest[e..];
    assert headers + (field + wbxml) == headers + field + wbxml;
    assert pdu == [pdu[0], pdu[1]] + pdu[2..];
    assert [pdu[0], pdu[1]] + (headers + field + wbxml) == [pdu[0], pdu[1]] + headers + field + wbxml;
  }

  lemma {:induction false} NoLastOctet(d: seq<Byte>, n: nat)
    requires Continued(d)
    ensures ReadUintvar(d, n) == None
    decreases |d|
  {
    if d == [] {
    } else {
      NoLastOctet(d[1..], n * 128 + d[0] % 128);
    }
  }

  /** What is wrong with a push: too short, or a length that does not end, or no content type, is an
      IndexError; another type octet, a value-length above 31 and a media type without NUL or other
      than the literal are malformed; one that is not ASCII a UnicodeDecodeError. */
  lemma {:induction false} HeadErrors(pdu: seq<Byte>, tid: Byte, value: seq<Byte>, wbxml: seq<Byte>)
    ensures |pdu| < 2 ==> ReadHead(pdu) == HeadErr(IndexErr)
    ensures |pdu| >= 2 && pdu[1] != 0x06 ==> ReadHead(pdu) == HeadErr(Malformed)
    ensures |pdu| >= 2 && pdu[1] == 0x06 && Continued(pdu[2..]) ==> ReadHead(pdu) == HeadErr(IndexErr)
    ensures SkipLength([]) == SkipErr(IndexErr)
    ensures value != [] && value[0] >= 32 ==> SkipLength(value) == SkipErr(Malformed)
    ensures value != [] && value[0] == 31 && Continued(value[1..]) ==> SkipLength(value) == SkipErr(IndexErr)
    ensures 0 !in value ==> ReadMedia(tid, value, wbxml) == HeadErr(Malformed)
    ensures 0 !in value && !IsAscii(value) ==> ReadMedia(tid, value + [0x00], wbxml) == HeadErr(UnicodeErr)
  {
    if |pdu| >= 2 && Continued(pdu[2..]) {
      NoLastOctet(pdu[2..], 0);
    }
    if value != [] && Continued(value[1..]) {
      NoLastOctet(value[1..], 0);
    }
    if 0 !in value {
      assert NulAt(value) == |value|;
      assert (value + [0x00])[|value|] == 0 && forall i :: 0 <= i < |value| ==> (value + [0x00])[i] == value[i];
      assert NulAt(value + [0x00]) == |value| && (value + [0x00])[..|value|] == value;
    }
  }

  /** What is wrong with parameters: a security method that is missing is an IndexError, a MAC that is
      not ASCII a UnicodeDecodeError, any other parameter malformed. */
  lemma {:induction false} ParamErrors(b: Byte, text: seq<Byte>)
    requires 0 !in text
    ensures !Unterminated([0x91], 0) && ReadParams([0x91], START) == Failed(IndexErr)
    ensures b != 0x91 && b != 0x92 ==> !Unterminated([b], 0) && ReadParams([b], START) == Failed(Malformed)
    ensures !IsAscii(text) ==>
              !Unterminated([0x92] + text + [0x00], 0) && ReadParams([0x92] + text + [0x00], START) == Failed(UnicodeErr)
  {
    var rest := [0x92] + text + [0x00];
    assert rest[1..] == text + [0x00];
    MacEnds(text);
    assert MacText(rest, 1) == text;
  }

  // ---- when the reader stops ---------------------------------------------------

  /** decode_wsp_push() after `n` turns of its parameter loop. */
  function Decoding(pdu: seq<Byte>, n: nat): Phase {
    match ReadHead(pdu)
    case HeadErr(err) => Failed(err)
    case HeadOk(_, _, params, _) => Turns(params, START, n)
  }

  /** decode_wsp_push() stops exactly on the PDUs it rejects before the parameters and on those
      whose parameters do not lead to a MAC without a NUL. */
  lemma {:induction false} StopsExactly(pdu: seq<Byte>)
    ensures (exists n :: !Decoding(pdu, n).Running?) <==> ReadHead(pdu).HeadErr? || !Unterminated(ReadHead(pdu).params, 0)
  {
    match ReadHead(pdu)
    case HeadErr(_) => assert !Decoding(pdu, 0).Running?;
    case HeadOk(_, _, params, _) =>
      if !Unterminated(params, 0) {
        var n := Ends(params, START);
        assert !Decoding(pdu, n).Running?;
      } else {
        forall n: nat
          ensures Decoding(pdu, n).Running?
        {
          GoesRound(params, START, n);
        }
      }
  }

  /** Without a NUL the text of a MAC is taken to end before the last octet, so it is only the octets
      before that one that decide whether the loop goes round for ever or ends in an error. */
  lemma {:induction false} UnterminatedMac(text: seq<Byte>, last: Byte)
    requires 0 !in text && last != 0
    ensures Unterminated([0x92] + text + [last], 0) <==> IsAscii(text)
  {
    var rest := [0x92] + text + [last];
    assert rest[1..] == text + [last];
    assert NulAt(rest[1..]) == |text| + 1;
    assert MacText(rest, 1) == text;
  }

  /** One octet of parameters is enough to keep it going for ever, whatever the document. */
  lemma {:induction false} NeverStops(tid: Byte, wbxml: seq<Byte>, n: nat)
    ensures Decoding(PushOf(tid, [0x92], wbxml), n).Running?
  {
    HeadReadsBack(tid, [0x92], wbxml);
    assert [0x92][1..] == [];
    GoesRound([0x92], START, n);
  }

  /** Every push that is built, octet by octet. */
  lemma {:induction false} PushLayout(wbxml: seq<Byte>, mac: string)
    requires MacOk(mac)
    ensures AsciiText("application/vnd.wap.connectivity-wbxml")
    ensures PushBytes(wbxml, mac)
         == [0x01, 0x06, 0x55, 0x1F, 0x53] + Ascii("application/vnd.wap.connectivity-wbxml") + [0x00]
            + [0x91, 0x80] + [0x92] + Ascii(mac) + [0x00] + wbxml
  {
    MediaPlain();
    var m, a := MediaBytes(), Ascii(mac);
    MediaLength();
    assert |m + [0x00] + Params(mac)| == 83;
    SmallField(m + [0x00] + Params(mac));
    SmallUintvar(85);
    FlatPush(m, a, wbxml);
  }

  lemma MediaLength()
    ensures |MEDIA| == 38
  {
  }

  lemma SmallField(value: seq<Byte>)
    requires 30 < |value| < 128
    ensures ValueLength(|value|) + value == [0x1F] + [|value|] + value
  {
    SmallUintvar(|value|);
  }

  lemma SmallUintvar(n: Byte)
    requires n < 128
    ensures Uintvar(n) == [n]
  {
    assert High(0) == [];
  }

  lemma FlatPush(m: seq<Byte>, a: seq<Byte>, wbxml: seq<Byte>)
    ensures [0x01, 0x06] + [85] + ([0x1F] + [83] + (m + [0x00] + ([0x91, 0x80] + ([0x92] + a + [0x00])))) + wbxml
         == [0x01, 0x06, 0x55, 0x1F, 0x53] + m + [0x00] + [0x91, 0x80] + [0x92] + a + [0x00] + wbxml
  {
  }

  /** The security methods by their octets. */
  lemma {:induction false} SecRead(v: Byte)
    ensures !Unterminated([0x91, v], 0)
    ensures ReadParams([0x91, v], START)
         == Finished(State(2, Some(match v case 0x80 => Netwpin case 0x81 => Userpin case 0x82 => Usernetwpin case _ => OtherSec(v)), None))
  {
    assert !Unterminated([0x91, v], 2);
  }

  /** The parameters of a built push: the loop stops, with NETWPIN and that MAC, unless the MAC
      holds a NUL, which is malformed. */
  lemma {:induction false} ParamsReadBack(mac: string)
    requires MacOk(mac)
    ensures !Unterminated(Params(mac), 0)
    ensures ReadParams(Params(mac), START)
         == if '\0' in mac then Failed(Malformed) else Finished(State(|Params(mac)|, Some(Netwpin), Some(mac)))
  {
    var rest, a := Params(mac), Ascii(mac);
    TextOfAscii(mac);
    assert rest[0] == 0x91 && rest[1] == 0x80 && rest[2] == 0x92;
    assert rest[3..] == a + [0x00] && |rest| == 44;
    MacEnds(a);
    var e := NulAt(rest[3..]);
    assert MacText(rest, 3) == rest[3..3 + e] == a[..e] && AfterMac(rest, 3) == 4 + e;
    if '\0' !in mac {
      assert a[..40] == a;
    } else {
      assert rest[4 + e] == rest[3..][e + 1] == (a + [0x00])[e + 1];
    }
    var st1 := State(2, Some(Netwpin), None);
    var st2 := State(4 + e, Some(Netwpin), Some(FromAscii(a[..e])));
    assert !Unterminated(rest, 4 + e) && !Unterminated(rest, 2) && !Unterminated(rest, 0);
    assert Turn(rest, START) == Running(st1) && Turn(rest, st1) == Running(st2);
    assert ReadParams(rest, START) == ReadParams(rest, st1) == ReadParams(rest, st2);
  }

  lemma MacEnds(a: seq<Byte>)
    ensures var e := NulAt(a + [0x00]); e <= |a| && (0 in a <==> e < |a|) && (0 !in a ==> e == |a|)
  {
    assert (a + [0x00])[|a|] == 0;
    if 0 in a {
      var i :| 0 <= i < |a| && a[i] == 0;
      assert (a + [0x00])[i] == 0;
    }
    var e := NulAt(a + [0x00]);
    if e < |a| {
      assert a[e] == 0;
    }
  }
}

/**
The builders and the re-parser of the push, as they run.
*/
module WspCodec {
  import opened Basics
  import opened WbxmlSpec
  import opened WspSpec

  function Reverse<T>(s: seq<T>): seq<T> {
    if s == [] then [] else Reverse(s[1..]) + [s[0]]
  }

  lemma {:induction false} ReverseAppend<T>(s: seq<T>, x: T)
    ensures Reverse(s + [x]) == [x] + Reverse(s)
  {
    if s == [] {
      assert [x][1..] == [] && s + [x] == [x];
    } else {
      ReverseAppend(s[1..], x);
      assert (s + [x])[1..] == s[1..] + [x];
    }
  }

  /** uintvar() */
  method EncodeUintvar(n: int) returns (r: Option<seq<Byte>>)
    ensures r == if n < 0 then None else Some(Uintvar(n))
  {
    if n < 0 {
      return None;
    }
    var out: seq<Byte> := [n % 128];
    var m := n / 128;
    assert out[1..] == [];
    while m != 0
      invariant m >= 0 && High(m) + Reverse(out) == Uintvar(n)
      decreases m
    {
      var x: Byte := m % 128 + 128;
      ReverseAppend(out, x);
      assert High(m) == High(m / 128) + [x];
      assert High(m / 128) + ([x] + Reverse(out)) == High(m / 128) + [x] + Reverse(out);
      out := out + [x];
      m := m / 128;
    }
    assert High(0) + Reverse(out) == Reverse(out);
    return Some(Reverse(out));
  }

  /** encode_value_length() */
  method EncodeValueLength(n: nat) returns (r: seq<Byte>)
    ensures r == ValueLength(n)
  {
    if n <= 30 {
      return [n];
    }
    var l := EncodeUintvar(n);
    return [0x1F] + l.value;
  }

  /** `str.upper()`, as far as ASCII text is concerned. */
  ghost predicate UpperCases(upper: string -> string) {
    forall s {:trigger upper(s)} :: AsciiText(s) ==> (upper(s) == s <==> forall i :: 0 <= i < |s| ==> !('a' <= s[i] <= 'z'))
  }

  /** A push, or a ValueError or UnicodeEncodeError. */
  datatype Built = Built(pdu: seq<Byte>) | BadMac | NotAscii

  /** build_wsp_push(), with build_content_type(). */
  method BuildPush(wbxml: seq<Byte>, mac: string, upper: string -> string) returns (r: Built)
    requires UpperCases(upper)
    ensures r.Built? <==> MacOk(mac)
    ensures r.Built? ==> r.pdu == PushBytes(wbxml, mac)
    ensures r.BadMac? <==> |mac| != 40 || upper(mac) != mac
  {
    if |mac| != 40 || mac != upper(mac) {
      return BadMac;
    }
    if !AsciiText(mac) {
      return NotAscii;
    }
    var value := MediaBytes() + [0x00] + Params(mac);
    var length := EncodeValueLength(|value|);
    var ct := length + value;
    var l := EncodeUintvar(|ct|);
    return Built([0x01, 0x06] + l.value + ct + wbxml);
  }

  /** _read_uintvar(): the number and the position after it; nothing at the end (IndexError). */
  method UintvarAt(d: seq<Byte>, start: nat) returns (r: Option<(nat, nat)>)
    requires start <= |d|
    ensures match ReadUintvar(d[start..], 0)
            case None => r == None
            case Some((n, rest)) => r.Some? && r.value.0 == n && start < r.value.1 <= |d| && rest == d[r.value.1..]
  {
    var n, i := 0, start;
    while true
      invariant n >= 0 && start <= i <= |d| && ReadUintvar(d[i..], n) == ReadUintvar(d[start..], 0)
      decreases |d| - i
    {
      if i >= |d| {
        return None;
      }
      assert d[i..][0] == d[i] && d[i..][1..] == d[i + 1..];
      var b: int := d[i];
      i := i + 1;
      n := n * 128 + b % 128;
      if b < 128 {
        return Some((n, i));
      }
    }
  }

  /** The parameter loop of decode_wsp_push(), on parameters on which it stops. */
  method DecodeParams(rest: seq<Byte>) returns (p: Phase)
    requires !Unterminated(rest, 0)
    ensures p == ReadParams(rest, START) && !p.Running?
  {
    var k, sec: Option<Sec>, mac: Option<string> := 0, None, None;
    while k < |rest|
      invariant k <= |rest| && !Unterminated(rest, k) && ReadParams(rest, START) == ReadParams(rest, State(k, sec, mac))
      decreases |rest| - k
    {
      ghost var st := State(k, sec, mac);
      if Turn(rest, st).Running? {
        Forward(rest, st);
      }
      if rest[k] == 0x91 {
        if k + 1 >= |rest| {
          return Failed(IndexErr);
        }
        sec, k := Some(SecOf(rest[k + 1])), k + 2;
      } else if rest[k] == 0x92 {
        var text, next := MacText(rest, k + 1), AfterMac(rest, k + 1);
        if !IsAscii(text) {
          return Failed(UnicodeErr);
        }
        mac, k := Some(FromAscii(text)), next;
      } else {
        return Failed(Malformed);
      }
    }
    return Finished(State(k, sec, mac));
  }

  /** decode_wsp_push() up to its parameter loop. */
  method DecodeHead(pdu: seq<Byte>) returns (h: Head)
    ensures h == ReadHead(pdu)
  {
    if |pdu| < 2 {
      return HeadErr(IndexErr);
    }
    if pdu[1] != 0x06 {
      return HeadErr(Malformed);
    }
    var l := UintvarAt(pdu, 2);
    if l == None {
      return HeadErr(IndexErr);
    }
    var (n, i) := l.value;
    var e := Upto(pdu[i..], n);
    var ct, wbxml := pdu[i..][..e], pdu[i..][e..];
    var v := SkipValueLength(ct);
    if v.SkipErr? {
      return HeadErr(v.err);
    }
    var nul := NulAt(v.rest);
    if nul == |v.rest| {
      return HeadErr(Malformed);
    }
    if !IsAscii(v.rest[..nul]) {
      return HeadErr(UnicodeErr);
    }
    var media := FromAscii(v.rest[..nul]);
    if !(MEDIA <= media) {
      return HeadErr(Malformed);
    }
    return HeadOk(pdu[0], media, v.rest[nul + 1..], wbxml);
  }

  method SkipValueLength(ct: seq<Byte>) returns (r: Skipped)
    ensures r == SkipLength(ct)
  {
    if ct == [] {
      return SkipErr(IndexErr);
    }
    var j := 1;
    if ct[0] == 0x1F {
      var v := UintvarAt(ct, 1);
      if v == None {
        return SkipErr(IndexErr);
      }
      j := v.value.1;
    } else if ct[0] > 30 {
      return SkipErr(Malformed);
    }
    return SkipOk(ct[j..]);
  }

  /** decode_wsp_push() */
  method DecodePush(pdu: seq<Byte>) returns (push: Option<Push>, err: Err)
    requires ReadHead(pdu).HeadOk? ==> !Unterminated(ReadHead(pdu).params, 0)
    ensures match ReadHead(pdu)
            case HeadErr(e) => push == None && err == e
            case HeadOk(tid, media, params, wbxml) =>
              match ReadParams(params, START)
              case Failed(e) => push == None && err == e
              case Finished(st) => push == Some(Push(tid, media, st.sec, st.mac, wbxml))
  {
    err := Malformed;
    var h := DecodeHead(pdu);
    if h.HeadErr? {
      return None, h.err;
    }
    var p := DecodeParams(h.params);
    if p.Failed? {
      return None, p.err;
    }
    push := Some(Push(h.tid, h.media, p.st.sec, p.st.mac, h.wbxml));
  }

  /** Every push that is built is read back with its MAC, NETWPIN and its document, exactly
      when the MAC holds no NUL; reading it always stops. */
  lemma {:induction false} PushReadsBack(wbxml: seq<Byte>, mac: string)
    requires MacOk(mac)
    ensures ReadHead(PushBytes(wbxml, mac)) == HeadOk(1, "application/vnd.wap.connectivity-wbxml", Params(mac), wbxml)
    ensures !Unterminated(Params(mac), 0)
    ensures var p := ReadParams(Params(mac), START);
            (p.Finished? && p.st.sec == Some(Netwpin) && p.st.mac == Some(mac)) <==> '\0' !in mac
  {
    HeadReadsBack(0x01, Params(mac), wbxml);
    ParamsReadBack(mac);
  }
}
