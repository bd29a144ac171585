/**
SMS concatenation: `segment()` of `apn_provisioner/cp_builder.py`, and a receiver that puts
the pieces together by their sequence and total octets (section 9.2.3.24.1 of 3GPP TS 23.040).
*/
module Sms {
  import opened Basics
  import opened WbxmlSpec
  import opened WspSpec
  import opened CpBuilder
  import opened CpRoundTrip

  const MAX_TPDU := 140
  const UDH_LEN := 12
  const SEG_PAYLOAD := 128
  const DEST_PORT := 2948
  const SRC_PORT := 9200

  /** _udh() */
  function Udh(ref: int, total: nat, sequence: nat): (h: seq<Byte>)
    ensures |h| == UDH_LEN
  {
    [0x0B, 0x05, 0x04, 0x0B, 0x84, 0x23, 0xF0, 0x00, 0x03, ref % 256, total % 256, sequence % 256]
  }

  function Count(pdu: seq<Byte>): nat {
    if pdu == [] then 1 else (|pdu| + SEG_PAYLOAD - 1) / SEG_PAYLOAD
  }

  /** The `i`-th stretch of the PDU. */
  function Chunk(pdu: seq<Byte>, i: nat): (c: seq<Byte>)
    requires i < Count(pdu)
    ensures |c| <= SEG_PAYLOAD
  {
    pdu[i * SEG_PAYLOAD..if (i + 1) * SEG_PAYLOAD <= |pdu| then (i + 1) * SEG_PAYLOAD else |pdu|]
  }

  function SegmentAt(pdu: seq<Byte>, ref: int, i: nat): (s: seq<Byte>)
    requires i < Count(pdu)
    ensures UDH_LEN <= |s| <= MAX_TPDU && s[UDH_LEN..] == Chunk(pdu, i)
    ensures s[10] == Count(pdu) % 256 && s[11] == (i + 1) % 256
  {
    Udh(ref, Count(pdu), i + 1) + Chunk(pdu, i)
  }

  /** Every segment but the last has the full 140 octets, the last is not empty, and there are as few
      as 128 octets each allow. */
  lemma {:induction false} SegmentsFull(pdu: seq<Byte>, ref: int)
    requires pdu != []
    ensures 128 * (Count(pdu) - 1) < |pdu| <= 128 * Count(pdu)
    ensures forall i :: 0 <= i < Count(pdu) - 1 ==> |SegmentAt(pdu, ref, i)| == 140
    ensures |SegmentAt(pdu, ref, Count(pdu) - 1)| == 12 + |pdu| - 128 * (Count(pdu) - 1) > 12
  {
  }

  datatype InfoElement = InfoElement(id: Byte, data: seq<Byte>)

  /** The information elements of a header: identifier, length, and that much data. */
  function Elements(h: seq<Byte>): seq<InfoElement> {
    if |h| < 2 then [] else
    var end: int := 2 + h[1] as int;
    if |h| < end then [] else [InfoElement(h[0], h[2..end])] + Elements(h[end..])
  }

  /** Big-endian. */
  function Be16(v: nat): seq<Byte>
    requires v < 0x1_0000
  {
    [v / 256, v % 256]
  }

  /** A reader that goes by the lengths finds in every segment the 16-bit ports (0x05) and the
      8-bit concatenation (0x00), nothing else, and behind them the stretch of the PDU. */
  lemma {:induction false} SegmentReads(pdu: seq<Byte>, ref: int, i: nat)
    requires i < Count(pdu)
    ensures var s := SegmentAt(pdu, ref, i);
            && s[0] == 11 && s[12..] == Chunk(pdu, i)
            && Elements(s[1..12])
            == [InfoElement(0x05, Be16(2948) + Be16(9200)), InfoElement(0x00, [ref % 256, Count(pdu) % 256, (i + 1) % 256])]
  {
    var h, s := Udh(ref, Count(pdu), i + 1), SegmentAt(pdu, ref, i);
    assert s[1..12] == h[1..] && s[12..] == Chunk(pdu, i);
    var ports := InfoElement(0x05, Be16(DEST_PORT) + Be16(SRC_PORT));
    var concat := InfoElement(0x00, [ref % 256, Count(pdu) % 256, (i + 1) % 256]);
    assert h[1..] == [0x05, 4] + ports.data + ([0x00, 3] + concat.data + []);
    ElementFirst(concat, []);
    ElementFirst(ports, [0x00, 3] + concat.data + []);
    assert [concat] + [] == [concat];
  }

  lemma ElementFirst(e: InfoElement, rest: seq<Byte>)
    requires |e.data| < 256
    ensures Elements([e.id, |e.data|] + e.data + rest) == [e] + Elements(rest)
  {
    var h: seq<Byte> := [e.id, |e.data|] + e.data + rest;
    var end := 2 + |e.data|;
    assert h[2..end] == e.data && h[end..] == rest;
  }

  /** The pieces of segment(); an empty PDU has one, empty. */
  method Chunks(pdu: seq<Byte>) returns (chunks: seq<seq<Byte>>)
    ensures |chunks| == Count(pdu)
    ensures forall k :: 0 <= k < |chunks| ==> chunks[k] == Chunk(pdu, k)
  {
    chunks := [];
    var i := 0;
    while i < |pdu|
      invariant i == |chunks| * SEG_PAYLOAD && |chunks| <= Count(pdu)
      invariant pdu != [] && i >= |pdu| ==> |chunks| == Count(pdu)
      invariant forall k :: 0 <= k < |chunks| ==> chunks[k] == Chunk(pdu, k)
      decreases |pdu| - i
    {
      chunks := chunks + [pdu[i..if i + SEG_PAYLOAD <= |pdu| then i + SEG_PAYLOAD else |pdu|]];
      i := i + SEG_PAYLOAD;
    }
    if chunks == [] {
      chunks := [[]];
      assert pdu == [];
    }
  }

  /** segment() */
  method Segment(pdu: seq<Byte>, ref: int) returns (segments: seq<seq<Byte>>)
    ensures |segments| == Count(pdu)
    ensures forall i :: 0 <= i < |segments| ==> segments[i] == SegmentAt(pdu, ref, i)
  {
    var chunks := Chunks(pdu);
    var total := |chunks|;
    segments := [];
    for n := 0 to |chunks|
      invariant |segments| == n && forall k :: 0 <= k < n ==> segments[k] == SegmentAt(pdu, ref, k)
    {
      segments := segments + [Udh(ref, total, n + 1) + chunks[n]];
    }
  }

  // ---- the receiver ----------------------------------------------------------

  datatype Found = Missing | Payload(bytes: seq<Byte>)

  /** The payload of the first piece received with this sequence octet. */
  function Find(received: seq<seq<Byte>>, n: nat): Found {
    if received == [] then Missing
    else if |received[0]| >= UDH_LEN && received[0][11] == n then Payload(received[0][UDH_LEN..])
    else Find(received[1..], n)
  }

  /** Pieces `n` to `total`, one after the other. */
  function Collect(received: seq<seq<Byte>>, n: nat, total: nat): Found
    decreases total + 1 - n
  {
    if n > total then Payload([])
    else
      var a, b := Find(received, n), Collect(received, n + 1, total);
      if a == Missing || b == Missing then Missing else Payload(a.bytes + b.bytes)
  }

  /** The message, once all the pieces the total octet announces are there. */
  function Reassemble(received: seq<seq<Byte>>): Found {
    if received == [] || |received[0]| < UDH_LEN || received[0][10] == 0 then Missing
    else Collect(received, 1, received[0][10])
  }

  /** The segments of `pdu` arrived, in some order and perhaps more than once. */
  ghost predicate Arrived(pdu: seq<Byte>, ref: int, received: seq<seq<Byte>>) {
    && (forall r :: r in received ==> IsSegment(pdu, ref, r))
    && (forall i :: 0 <= i < Count(pdu) ==> SegmentAt(pdu, ref, i) in received)
  }

  ghost predicate IsSegment(pdu: seq<Byte>, ref: int, r: seq<Byte>) {
    exists i :: 0 <= i < Count(pdu) && r == SegmentAt(pdu, ref, i)
  }

  ghost predicate Numbered(r: seq<Byte>, n: nat) {
    |r| >= UDH_LEN && r[11] == n
  }

  /** What is found under `n` is the payload of some piece with that octet. */
  lemma {:induction false} FindSome(received: seq<seq<Byte>>, n: nat) returns (r: seq<Byte>)
    ensures Find(received, n) == Missing ==> forall q :: q in received ==> !Numbered(q, n)
    ensures Find(received, n).Payload? ==> r in received && Numbered(r, n) && Find(received, n) == Payload(r[UDH_LEN..])
  {
    if received == [] {
      r := [];
    } else if Numbered(received[0], n) {
      r := received[0];
    } else {
      r := FindSome(received[1..], n);
      assert received == [received[0]] + received[1..];
    }
  }

  lemma {:induction false} FindChunk(pdu: seq<Byte>, ref: int, received: seq<seq<Byte>>, n: nat)
    requires Arrived(pdu, ref, received) && Count(pdu) <= 255 && 1 <= n <= Count(pdu)
    ensures Find(received, n) == Payload(Chunk(pdu, n - 1))
  {
    var r := FindSome(received, n);
    HasNumbered(pdu, ref, received, n);
    assert IsSegment(pdu, ref, r);
    SegmentNumbered(pdu, ref, r, n);
  }

  lemma HasNumbered(pdu: seq<Byte>, ref: int, received: seq<seq<Byte>>, n: nat)
    requires Arrived(pdu, ref, received) && Count(pdu) <= 255 && 1 <= n <= Count(pdu)
    ensures exists q :: q in received && Numbered(q, n)
  {
    assert n % 256 == n;
    assert Numbered(SegmentAt(pdu, ref, n - 1), n);
  }

  lemma {:induction false} SegmentNumbered(pdu: seq<Byte>, ref: int, r: seq<Byte>, n: nat)
    requires IsSegment(pdu, ref, r) && Numbered(r, n) && Count(pdu) <= 255 && 1 <= n <= Count(pdu)
    ensures r == SegmentAt(pdu, ref, n - 1)
  {
    var i :| 0 <= i < Count(pdu) && r == SegmentAt(pdu, ref, i);
    assert i + 1 == n;
  }

  ghost predicate FoundAt(pdu: seq<Byte>, received: seq<seq<Byte>>, n: nat) {
    1 <= n <= Count(pdu) ==> Find(received, n) == Payload(Chunk(pdu, n - 1))
  }

  /** What is left of the PDU from piece `n` on. */
  function From(pdu: seq<Byte>, n: nat): seq<Byte>
    requires 1 <= n <= Count(pdu) + 1
  {
    if n == Count(pdu) + 1 then [] else pdu[(n - 1) * SEG_PAYLOAD..]
  }

  lemma FromStep(pdu: seq<Byte>, n: nat)
    requires 1 <= n <= Count(pdu)
    ensures Chunk(pdu, n - 1) + From(pdu, n + 1) == From(pdu, n)
  {
  }

  ghost predicate AllFound(pdu: seq<Byte>, received: seq<seq<Byte>>) {
    forall k: nat {:trigger FoundAt(pdu, received, k)} :: FoundAt(pdu, received, k)
  }

  lemma {:induction false} CollectRest(pdu: seq<Byte>, received: seq<seq<Byte>>, n: nat)
    requires AllFound(pdu, received) && 1 <= n <= Count(pdu) + 1
    ensures Collect(received, n, Count(pdu)) == Payload(From(pdu, n))
    decreases Count(pdu) + 1 - n
  {
    if n <= Count(pdu) {
      CollectRest(pdu, received, n + 1);
      assert FoundAt(pdu, received, n);
      Piece(pdu, received, n, Chunk(pdu, n - 1), From(pdu, n + 1));
    }
  }

  lemma Piece(pdu: seq<Byte>, received: seq<seq<Byte>>, n: nat, a: seq<Byte>, b: seq<Byte>)
    requires 1 <= n <= Count(pdu) && a == Chunk(pdu, n - 1) && b == From(pdu, n + 1)
    requires Find(received, n) == Payload(a) && Collect(received, n + 1, Count(pdu)) == Payload(b)
    ensures Collect(received, n, Count(pdu)) == Payload(From(pdu, n))
  {
    FromStep(pdu, n);
    CollectStep(received, n, Count(pdu));
  }

  lemma CollectStep(received: seq<seq<Byte>>, n: nat, total: nat)
    requires n <= total && Find(received, n).Payload? && Collect(received, n + 1, total).Payload?
    ensures Collect(received, n, total) == Payload(Find(received, n).bytes + Collect(received, n + 1, total).bytes)
  {
  }

  /** A message put together is no longer than its pieces allow. */
  lemma {:induction false} CollectShort(received: seq<seq<Byte>>, n: nat, total: nat)
    requires (forall r :: r in received ==> |r| <= MAX_TPDU) && n <= total + 1
    ensures match Collect(received, n, total) case Missing => true case Payload(p) => |p| <= (total + 1 - n) * SEG_PAYLOAD
    decreases total + 1 - n
  {
    if n <= total {
      CollectShort(received, n + 1, total);
      var r := FindSome(received, n);
    }
  }

  lemma CountFits(pdu: seq<Byte>)
    ensures 1 <= Count(pdu) && (Count(pdu) <= 255 <==> |pdu| <= 255 * SEG_PAYLOAD)
  {
  }

  lemma {:induction false} TotalOctet(pdu: seq<Byte>, ref: int, received: seq<seq<Byte>>)
    requires Arrived(pdu, ref, received)
    ensures received != [] && |received[0]| >= UDH_LEN && received[0][10] == Count(pdu) % 256
    ensures forall r :: r in received ==> |r| <= MAX_TPDU
  {
    CountFits(pdu);
    assert SegmentAt(pdu, ref, 0) in received;
    assert received[0] in received && IsSegment(pdu, ref, received[0]);
    forall r | r in received
      ensures |r| <= MAX_TPDU
    {
      assert IsSegment(pdu, ref, r);
    }
  }

  lemma {:induction false} Rebuilt(pdu: seq<Byte>, ref: int, received: seq<seq<Byte>>)
    requires Arrived(pdu, ref, received) && Count(pdu) <= 255
    ensures Collect(received, 1, Count(pdu)) == Payload(pdu)
  {
    forall n: nat
      ensures FoundAt(pdu, received, n)
    {
      if 1 <= n <= Count(pdu) {
        FindChunk(pdu, ref, received, n);
      }
    }
    CountFits(pdu);
    CollectRest(pdu, received, 1);
    assert pdu[0..] == pdu;
  }

  /** A receiver rebuilds exactly the PDU from its segments, in whatever order they come,
      exactly when the PDU has at most 255 * 128 octets. */
  lemma {:induction false} RebuiltExactly(pdu: seq<Byte>, ref: int, received: seq<seq<Byte>>)
    requires Arrived(pdu, ref, received)
    ensures Reassemble(received) == Payload(pdu) <==> |pdu| <= 255 * SEG_PAYLOAD
  {
    var t := Count(pdu) % 256;
    CountFits(pdu);
    TotalOctet(pdu, ref, received);
    assert t == 0 || Reassemble(received) == Collect(received, 1, t);
    if Count(pdu) <= 255 {
      Rebuilt(pdu, ref, received);
    } else {
      CollectShort(received, 1, t);
    }
  }

  // ---- the whole message -----------------------------------------------------

  /** The document the service builds for an APN. */
  function Wbxml(apn: string): seq<Byte> {
    WBXML_HEADER + Print(Document(HIWEB, apn))
  }

  predicate IsHex(mac: string) {
    |mac| == 40 && forall i :: 0 <= i < |mac| ==> '0' <= mac[i] <= '9' || 'A' <= mac[i] <= 'F'
  }

  /** From APN and MAC to SMS segments and back: a receiver that has the segments in any order,
      strips the push and reads the document gets the profile with that APN. */
  lemma {:induction false} MessageArrives(apn: string, mac: string, ref: int, received: seq<seq<Byte>>)
    requires apn != "" && '\0' !in apn && IsHex(mac)
    requires Arrived(PushBytes(Wbxml(apn), mac), ref, received) && |PushBytes(Wbxml(apn), mac)| <= 255 * SEG_PAYLOAD
    ensures Reassemble(received) == Payload(PushBytes(Wbxml(apn), mac))
    ensures var h := ReadHead(Reassemble(received).bytes);
            && h.HeadOk? && !Unterminated(h.params, 0)
            && ReadParams(h.params, START) == Finished(State(|h.params|, Some(Netwpin), Some(mac)))
            && ReadDocument(h.wbxml) == ReadOk(Profile(HIWEB, apn), 1, [])
  {
    RebuiltExactly(PushBytes(Wbxml(apn), mac), ref, received);
    HeadReadsBack(0x01, Params(mac), Wbxml(apn));
    ParamsReadBack(mac);
    HiwebReadsBack(apn);
  }
}
