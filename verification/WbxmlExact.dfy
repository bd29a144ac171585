/**
What the re-parser of `apn_provisioner/validator.py` accepts is exactly what the printer prints, and
what each of its tokens stands for.
*/
module WbxmlExact {
  import opened Basics
  import opened Utf8
  import opened WbxmlSpec
  import opened WbxmlRoundTrip

  // ---- the tokens --------------------------------------------------------------

  /** The attribute tokens by code page and octet (section 7 of the OMA provisioning content). */
  const ATTRIBUTES: map<(Byte, Byte), (string, string)> := map[
    (0, 0x46) := ("version", ""), (0, 0x07) := ("name", "NAME"), (0, 0x08) := ("name", "NAP-ADDRESS"),
    (0, 0x09) := ("name", "NAP-ADDRTYPE"), (0, 0x10) := ("name", "BEARER"), (0, 0x11) := ("name", "NAPID"),
    (0, 0x14) := ("name", "INTERNET"), (0, 0x55) := ("type", "NAPDEF"), (0, 0x56) := ("type", "BOOTSTRAP"),
    (1, 0x55) := ("type", "APPLICATION"), (1, 0x36) := ("name", "APPID"), (1, 0x22) := ("name", "TO-NAPID")]

  const VALUES: map<Byte, string> := map[0x89 := "APN", 0xAB := "GSM-GPRS", 0x85 := "IPV4"]

  const TAGS: map<Byte, string> := map[0x05 := "wap-provisioningdoc", 0x06 := "characteristic", 0x07 := "parm"]

  lemma {:induction false} EndAlone(p: Partial)
    ensures ReadAttrs([0x01], p) == AttrsOk(Flushed(p), p.page, [])
  {
    assert [0x01][1..] == [];
  }

  lemma {:induction false} OneThenEnd(b: Byte, p: Partial)
    requires b !in {0x00, 0x01, 0x03}
    ensures ReadAttrs([b, 0x01], p)
         == if TakeToken(b, p) == None then AttrsErr(Malformed)
            else AttrsOk(Flushed(TakeToken(b, p).value), TakeToken(b, p).value.page, [])
  {
    assert [b, 0x01][1..] == [0x01];
    if TakeToken(b, p).Some? {
      EndAlone(TakeToken(b, p).value);
    }
  }

  /** An attribute token alone gives its attribute, one that takes a value the empty one; a token that
      is not in the table is malformed. */
  lemma {:induction false} AttributeRead(page: Byte, b: Byte)
    requires b < 0x80 && b !in {0x00, 0x01, 0x03, 0x06}
    ensures ReadAttrs([b, 0x01], Partial(page, None, map[]))
         == if (page, b) in ATTRIBUTES then AttrsOk(map[ATTRIBUTES[(page, b)].0 := ATTRIBUTES[(page, b)].1], page, [])
            else AttrsErr(Malformed)
  {
    OneThenEnd(b, Partial(page, None, map[]));
  }

  /** The value marker on any page, and a value token behind it. */
  lemma {:induction false} ValueRead(page: Byte, b: Byte)
    requires b >= 0x80
    ensures ReadAttrs([0x06, 0x01], Partial(page, None, map[])) == AttrsOk(map["value" := ""], page, [])
    ensures ReadAttrs([0x06, b, 0x01], Partial(page, None, map[]))
         == if b in VALUES then AttrsOk(map["value" := VALUES[b]], page, []) else AttrsErr(Malformed)
    ensures ReadAttrs([b, 0x01], Partial(page, None, map[])) == AttrsErr(Malformed)
  {
    var p := Partial(page, None, map[]);
    OneThenEnd(0x06, p);
    OneThenEnd(b, p);
    assert [0x06, b, 0x01][1..] == [b, 0x01];
    OneThenEnd(b, Partial(page, Some("value"), map[]));
  }

  /** A tag alone, without attributes or content. */
  lemma {:induction false} TagRead(page: Byte, b: Byte)
    requires b < 0x40
    ensures ReadElement([b], page) == if b in TAGS then ReadOk(Element(TAGS[b], map[], []), page, []) else ReadErr(Malformed)
  {
    assert [b][1..] == [];
  }

  // ---- what is accepted is what is printed ---------------------------------------

  ghost predicate ItemsOk(is_: seq<Item>) {
    forall i :: 0 <= i < |is_| ==> ItemOk(is_[i])
  }

  /** `is_` is what the accepted attribute list at the front of `d` was printed from. */
  ghost predicate Lists(is_: seq<Item>, d: seq<Byte>, p: Partial, r: AttrList)
    requires r.AttrsOk?
  {
    && ItemsOk(is_) && d == PrintItems(is_) + [0x01] + r.rest
    && ApplyAll(is_, p).Some? && Flushed(ApplyAll(is_, p).value) == r.attrs && ApplyAll(is_, p).value.page == r.page
  }

  lemma {:induction false} ListsCons(i: Item, p: Partial, d: seq<Byte>, more: seq<Byte>, is_: seq<Item>, r: AttrList)
    requires ItemOk(i) && Apply(i, p).Some? && d == PrintItem(i) + more && r.AttrsOk? && Lists(is_, more, Apply(i, p).value, r)
    ensures Lists([i] + is_, d, p, r)
  {
    assert ([i] + is_)[1..] == is_;
    FlatList(PrintItem(i), PrintItems(is_), r.rest);
    assert forall k :: 0 <= k < |[i] + is_| ==> ([i] + is_)[k] == if k == 0 then i else is_[k - 1];
  }

  lemma FlatList(a: seq<Byte>, b: seq<Byte>, t: seq<Byte>)
    ensures a + (b + [0x01] + t) == a + b + [0x01] + t
  {
  }

  lemma {:induction false} AttrsPrinted(d: seq<Byte>, p: Partial) returns (is_: seq<Item>)
    requires ReadAttrs(d, p).AttrsOk?
    ensures Lists(is_, d, p, ReadAttrs(d, p))
    decreases |d|
  {
    var b, r := d[0], ReadAttrs(d, p);
    if b == 0x01 {
      is_ := [];
      assert d == [] + [0x01] + d[1..];
    } else if b == 0x03 {
      is_ := InlinePrinted(d, p);
    } else if b == 0x00 {
      var more := AttrsPrinted(d[2..], p.(page := d[1]));
      assert d == [0x00, d[1]] + d[2..];
      ListsCons(Switch(d[1]), p, d, d[2..], more, r);
      is_ := [Switch(d[1])] + more;
    } else {
      var i := if b >= 0x80 then Token(b) else if b == 0x06 then Mark else Start(b);
      var more := AttrsPrinted(d[1..], TakeToken(b, p).value);
      assert d == [b] + d[1..];
      ListsCons(i, p, d, d[1..], more, r);
      is_ := [i] + more;
    }
  }

  lemma {:induction false} InlinePrinted(d: seq<Byte>, p: Partial) returns (is_: seq<Item>)
    requires d != [] && d[0] == 0x03 && ReadAttrs(d, p).AttrsOk?
    ensures Lists(is_, d, p, ReadAttrs(d, p))
    decreases |d|, 0
  {
    var t := ReadText(d[1..]);
    TextPrinted(d[1..]);
    var more := AttrsPrinted(t.rest, Assigned(p, t.text));
    InlineBytes(d, t.text, t.rest);
    ListsCons(Inline(t.text), p, d, t.rest, more, ReadAttrs(d, p));
    is_ := [Inline(t.text)] + more;
  }

  lemma InlineBytes(d: seq<Byte>, text: string, rest: seq<Byte>)
    requires d != [] && d[0] == 0x03 && d[1..] == Encode(text) + [0x00] + rest
    ensures d == IStr(text) + rest
  {
    assert d == [0x03] + d[1..];
    assert [0x03] + (Encode(text) + [0x00] + rest) == [0x03] + Encode(text) + [0x00] + rest;
  }

  lemma {:induction false} TextPrinted(d: seq<Byte>)
    requires ReadText(d).TextOk?
    ensures var t := ReadText(d); d == Encode(t.text) + [0x00] + t.rest && '\0' !in t.text
  {
    var n := NulAt(d);
    Strict(d[..n]);
    EncodeNul(ReadText(d).text);
    assert d == d[..n] + [d[n]] + d[n + 1..];
  }

  lemma TagSplit(tag: Byte)
    ensures tag == tag % 0x40 + (if HasAttrs(tag) then 0x80 else 0) + (if HasContent(tag) then 0x40 else 0)
  {
  }

  /** The attribute list of a node as it is printed. */
  function PrintOwn(n: Node): seq<Byte> {
    if n.items.Some? then PrintItems(n.items.value) + [0x01] else []
  }

  /** `n` has the tag and the attributes of the element at the front of `d`. */
  ghost predicate OwnStands(n: Node, d: seq<Byte>, page: Byte) {
    && d != [] && n.base == d[0] % 0x40 && n.items.Some? == HasAttrs(d[0]) && (n.items.Some? ==> ItemsOk(n.items.value))
    && var a := ReadOwnAttrs(d, page);
       && a.AttrsOk? && d == [d[0]] + PrintOwn(n) + a.rest
       && MeaningOwn(n, page).Some? && Flushed(MeaningOwn(n, page).value) == a.attrs && MeaningOwn(n, page).value.page == a.page
  }

  lemma {:induction false} OwnPrinted(d: seq<Byte>, page: Byte, content: Option<Parts>) returns (n: Node)
    requires d != [] && ReadOwnAttrs(d, page).AttrsOk?
    ensures n.content == content && OwnStands(n, d, page)
  {
    var a := ReadOwnAttrs(d, page);
    if HasAttrs(d[0]) {
      var is_ := AttrsPrinted(d[1..], Partial(page, None, map[]));
      n := Node(d[0] % 0x40, Some(is_), content);
      OwnBytes(d, PrintItems(is_) + [0x01], a.rest);
    } else {
      n := Node(d[0] % 0x40, None, content);
      assert a.rest == [] + a.rest;
      OwnBytes(d, [], a.rest);
    }
  }

  lemma OwnBytes(d: seq<Byte>, own: seq<Byte>, rest: seq<Byte>)
    requires d != [] && d[1..] == own + rest
    ensures d == [d[0]] + own + rest
  {
    assert d == [d[0]] + d[1..];
  }

  /** `n` is what the accepted element at the front of `d` was printed from. */
  ghost predicate Stands(n: Node, d: seq<Byte>, page: Byte, r: Read)
    requires r.ReadOk?
  {
    NodeOk(n) && d == Print(n) + r.rest && Meaning(n, page) == Some((r.el, r.page))
  }

  ghost predicate StandAll(ps: Parts, d: seq<Byte>, page: Byte, r: ReadAll)
    requires r.AllOk?
  {
    PartsOk(ps) && d == PrintParts(ps) + [0x01] + r.rest && MeaningAll(ps, page) == Some((r.els, r.page))
  }

  /** Every element the re-parser accepts is one that could have been printed, with that meaning, and
      nothing of it is left unread. */
  lemma {:induction false} ElementPrinted(d: seq<Byte>, page: Byte) returns (n: Node)
    requires ReadElement(d, page).ReadOk?
    ensures Stands(n, d, page, ReadElement(d, page))
    decreases |d|, 0
  {
    var a := ReadOwnAttrs(d, page);
    if HasContent(d[0]) {
      var ps := ContentPrinted(a.rest, a.page);
      n := OwnPrinted(d, page, Some(ps));
      WithContent(d, page, n, a, ReadContent(a.rest, a.page));
    } else {
      n := OwnPrinted(d, page, None);
      WithoutContent(d, page, n, a);
    }
  }

  lemma {:induction false} TagKept(n: Node, tag: Byte)
    requires TagName(tag % 0x40).Some? && n.base == tag % 0x40
    requires n.items.Some? == HasAttrs(tag) && n.content.Some? == HasContent(tag)
    ensures TagByte(n) == tag && Print(n) == [tag] + PrintOwn(n) + PrintBody(n)
  {
    TagSplit(tag);
  }

  lemma {:induction false} WithoutContent(d: seq<Byte>, page: Byte, n: Node, a: AttrList)
    requires ReadElement(d, page).ReadOk? && OwnStands(n, d, page) && !HasContent(d[0]) && n.content == None
    requires a == ReadOwnAttrs(d, page)
    ensures Stands(n, d, page, ReadElement(d, page))
  {
    TagKept(n, d[0]);
    assert [d[0]] + PrintOwn(n) + [] + a.rest == [d[0]] + PrintOwn(n) + a.rest;
  }

  lemma {:induction false} WithContent(d: seq<Byte>, page: Byte, n: Node, a: AttrList, c: ReadAll)
    requires ReadElement(d, page).ReadOk? && OwnStands(n, d, page) && HasContent(d[0]) && n.content.Some?
    requires a == ReadOwnAttrs(d, page) && c == ReadContent(a.rest, a.page) && c.AllOk? && StandAll(n.content.value, a.rest, a.page, c)
    ensures Stands(n, d, page, ReadElement(d, page))
  {
    TagKept(n, d[0]);
    ContentBytes([d[0]] + PrintOwn(n), PrintBody(n), c.rest, a.rest, d);
  }

  lemma ContentBytes(front: seq<Byte>, body: seq<Byte>, t: seq<Byte>, rest: seq<Byte>, d: seq<Byte>)
    requires rest == body + t && d == front + rest
    ensures d == front + body + t
  {
  }

  lemma Flat(a: seq<Byte>, b: seq<Byte>, c: seq<Byte>, t: seq<Byte>)
    ensures a + (b + (c + t)) == a + b + c + t
  {
  }

  lemma {:induction false} ContentPrinted(d: seq<Byte>, page: Byte) returns (ps: Parts)
    requires ReadContent(d, page).AllOk?
    ensures StandAll(ps, d, page, ReadContent(d, page))
    decreases |d|, 1
  {
    var r := ReadContent(d, page);
    if d[0] == 0x01 {
      ps := End;
      assert d == [] + [0x01] + d[1..];
    } else if d[0] == 0x00 {
      var more := ContentPrinted(d[2..], page);
      ps := TagPage(d[1], more);
      assert d == [0x00, d[1]] + d[2..];
      Flat([0x00, d[1]], PrintParts(more), [0x01], r.rest);
    } else {
      ContentStep(d, page);
      var e := ReadElement(d, page);
      var n := ElementPrinted(d, page);
      var more := ContentPrinted(e.rest, e.page);
      ps := Kid(n, more);
      KidStands(d, page, e, n, more, ReadContent(e.rest, e.page), r);
    }
  }

  lemma {:induction false} KidStands(d: seq<Byte>, page: Byte, e: Read, n: Node, more: Parts, c: ReadAll, r: ReadAll)
    requires e.ReadOk? && Stands(n, d, page, e) && c.AllOk? && StandAll(more, e.rest, e.page, c)
    requires r == AllOk([e.el] + c.els, c.page, c.rest)
    ensures StandAll(Kid(n, more), d, page, r)
  {
    Flat(Print(n), PrintParts(more), [0x01], r.rest);
  }

  /** decode_wbxml() accepts a byte string exactly when it is version 1.3, with any public id and
      charset and no string table, an element that could have been printed, and anything. */
  lemma {:induction false} AcceptedExactly(d: seq<Byte>)
    ensures ReadDocument(d).ReadOk? <==>
            exists n: Node, id: Byte, charset: Byte, rest: seq<Byte> {:trigger Whole(n, id, charset, rest)} ::
              NodeOk(n) && Meaning(n, 0).Some? && d == Whole(n, id, charset, rest)
  {
    if ReadDocument(d).ReadOk? {
      var n := ElementPrinted(d[4..], 0);
      var r := ReadElement(d[4..], 0);
      assert d == [0x03, d[1], d[2], 0x00] + d[4..];
      assert d == Whole(n, d[1], d[2], r.rest);
    }
    if n: Node, id: Byte, charset: Byte, rest: seq<Byte> {:trigger Whole(n, id, charset, rest)} :|
      NodeOk(n) && Meaning(n, 0).Some? && d == Whole(n, id, charset, rest) {
      NodeRead(n, 0, rest);
      assert d[4..] == Print(n) + rest;
    }
  }

  function Whole(n: Node, id: Byte, charset: Byte, rest: seq<Byte>): seq<Byte> {
    [0x03, id, charset, 0x00] + (Print(n) + rest)
  }

  /** More octets behind an accepted element change nothing but what is left. */
  lemma {:induction false} Local(d: seq<Byte>, page: Byte, t: seq<Byte>)
    requires ReadElement(d, page).ReadOk?
    ensures var r := ReadElement(d, page); ReadElement(d + t, page) == ReadOk(r.el, r.page, r.rest + t)
  {
    var r := ReadElement(d, page);
    var n := ElementPrinted(d, page);
    Behind(Print(n), r.rest, t);
    NodeRead(n, page, r.rest + t);
  }

  lemma Behind(p: seq<Byte>, r: seq<Byte>, t: seq<Byte>)
    ensures (p + r) + t == p + (r + t)
  {
  }

  /** Cut short anywhere, a complete element is refused. */
  lemma {:induction false} NoPrefix(d: seq<Byte>, page: Byte, k: nat)
    requires ReadElement(d, page).ReadOk? && ReadElement(d, page).rest == [] && k < |d|
    ensures ReadElement(d[..k], page).ReadErr?
  {
    assert d[..k] + d[k..] == d;
    if ReadElement(d[..k], page).ReadOk? {
      Local(d[..k], page, d[k..]);
    }
  }

  /** What is wrong with bytes that end too soon or are no text: an element, an attribute list or a page
      that is missing and a text without NUL are malformed, content that is missing is an IndexError,
      and a text that is not UTF-8 a UnicodeDecodeError. */
  lemma {:induction false} CutErrors(page: Byte, p: Partial, d: seq<Byte>)
    ensures ReadElement([], page) == ReadErr(Malformed) && ReadAttrs([], p) == AttrsErr(Malformed)
    ensures ReadAttrs([0x00], p) == AttrsErr(Malformed) && ReadContent([0x00], page) == AllErr(Malformed)
    ensures ReadContent([], page) == AllErr(IndexErr) && ReadElement([0x47], page) == ReadErr(IndexErr)
    ensures 0 !in d ==> ReadText(d) == TextErr(Malformed)
    ensures 0 !in d && Decode(d) == None ==> ReadText(d + [0x00]) == TextErr(UnicodeErr)
    ensures ReadText(d) == TextErr(UnicodeErr) ==> 0 in d
  {
    assert [0x47][1..] == [];
    if 0 !in d {
      assert NulAt(d) == |d|;
      assert (d + [0x00])[|d|] == 0 && forall i :: 0 <= i < |d| ==> (d + [0x00])[i] == d[i];
      assert NulAt(d + [0x00]) == |d| && (d + [0x00])[..|d|] == d;
    }
  }
}
