/**
Reading back what was printed, for every document: item by item, element by element, with
the current code page handed from each to the next.
*/
module WbxmlRoundTrip {
  import opened Basics
  import opened Utf8
  import opened WbxmlSpec

  lemma {:induction false} TextRoundTrip(s: string, t: seq<Byte>)
    requires '\0' !in s
    ensures ReadText(Encode(s) + [0x00] + t) == TextOk(s, t)
  {
    var bs := Encode(s);
    var d := bs + [0x00] + t;
    EncodeNul(s);
    RoundTrip(s);
    assert d[|bs|] == 0 && forall i :: 0 <= i < |bs| ==> d[i] == bs[i];
    assert NulAt(d) == |bs|;
    assert d[..|bs|] == bs && d[|bs| + 1..] == t;
  }

  /** One printed item is read as that item. */
  lemma {:induction false} ItemRead(i: Item, p: Partial, t: seq<Byte>)
    requires ItemOk(i)
    ensures Apply(i, p) == None ==> ReadAttrs(PrintItem(i) + t, p) == AttrsErr(Malformed)
    ensures Apply(i, p).Some? ==> ReadAttrs(PrintItem(i) + t, p) == ReadAttrs(t, Apply(i, p).value)
  {
    var d := PrintItem(i) + t;
    match i
    case Switch(page) => assert d[2..] == t;
    case Start(b) => assert d[1..] == t;
    case Mark => assert d[1..] == t;
    case Token(b) => assert d[1..] == t;
    case Inline(s) => InlineRead(s, p, t);
  }

  lemma {:induction false} InlineRead(s: string, p: Partial, t: seq<Byte>)
    requires ItemOk(Inline(s))
    ensures Apply(Inline(s), p) == None ==> ReadAttrs(PrintItem(Inline(s)) + t, p) == AttrsErr(Malformed)
    ensures Apply(Inline(s), p).Some? ==> ReadAttrs(PrintItem(Inline(s)) + t, p) == ReadAttrs(t, Apply(Inline(s), p).value)
  {
    assert (PrintItem(Inline(s)) + t)[1..] == Encode(s) + [0x00] + t;
    TextRoundTrip(s, t);
  }

  /** What an attribute list is read as, given what its items come to. */
  function ListOf(p: Option<Partial>, t: seq<Byte>): AttrList {
    if p == None then AttrsErr(Malformed) else AttrsOk(Flushed(p.value), p.value.page, t)
  }

  lemma {:induction false} ItemsRead(is_: seq<Item>, p: Partial, t: seq<Byte>)
    requires forall i :: 0 <= i < |is_| ==> ItemOk(is_[i])
    ensures ReadAttrs(PrintItems(is_) + [0x01] + t, p) == ListOf(ApplyAll(is_, p), t)
    decreases |is_|
  {
    if is_ == [] {
      assert ([0x01] + t)[1..] == t;
      assert PrintItems(is_) + [0x01] + t == [0x01] + t;
    } else {
      var rest := PrintItems(is_[1..]) + [0x01] + t;
      assert PrintItems(is_) + [0x01] + t == PrintItem(is_[0]) + rest;
      ItemRead(is_[0], p, rest);
      if Apply(is_[0], p).Some? {
        ItemsRead(is_[1..], Apply(is_[0], p).value, t);
      }
    }
  }

  function ReadOf(m: Option<(Element, Byte)>, t: seq<Byte>): Read {
    if m == None then ReadErr(Malformed) else ReadOk(m.value.0, m.value.1, t)
  }

  function AllOf(m: Option<(seq<Element>, Byte)>, t: seq<Byte>): ReadAll {
    if m == None then AllErr(Malformed) else AllOk(m.value.0, m.value.1, t)
  }

  lemma TagBack(n: Node)
    requires TagName(n.base).Some?
    ensures TagByte(n) % 0x40 == n.base && TagByte(n) !in {0x00, 0x01}
    ensures HasAttrs(TagByte(n)) == n.items.Some? && HasContent(TagByte(n)) == n.content.Some?
  {
  }

  function PrintBody(n: Node): seq<Byte> {
    if n.content.Some? then PrintParts(n.content.value) + [0x01] else []
  }

  lemma Cut1(x: Byte, a: seq<Byte>, b: seq<Byte>, t: seq<Byte>)
    ensures [x] + a + b + t != [] && ([x] + a + b + t)[0] == x && ([x] + a + b + t)[1..] == a + (b + t)
  {
  }

  lemma Cut2(x: Byte, y: Byte, a: seq<Byte>, b: seq<Byte>, t: seq<Byte>)
    ensures var d := [x, y] + a + b + t; |d| >= 2 && d[0] == x && d[1] == y && d[2..] == a + b + t
  {
  }

  lemma Regroup(a: seq<Byte>, b: seq<Byte>, c: seq<Byte>, t: seq<Byte>)
    ensures a + b + c + t == a + (b + c + t)
  {
  }

  lemma {:induction false} OwnRead(n: Node, page: Byte, t: seq<Byte>)
    requires NodeOk(n)
    ensures Print(n) + t != [] && (Print(n) + t)[0] == TagByte(n)
    ensures ReadOwnAttrs(Print(n) + t, page) == ListOf(MeaningOwn(n, page), PrintBody(n) + t)
  {
    TagBack(n);
    if n.items.Some? {
      var is_ := PrintItems(n.items.value);
      Cut1(TagByte(n), is_ + [0x01], PrintBody(n), t);
      ItemsRead(n.items.value, Partial(page, None, map[]), PrintBody(n) + t);
    } else {
      Cut1(TagByte(n), [], PrintBody(n), t);
      assert [] + (PrintBody(n) + t) == PrintBody(n) + t;
    }
  }

  /** Every printed element is read as what it means, and read to its end. */
  lemma {:induction false} NodeRead(n: Node, page: Byte, t: seq<Byte>)
    requires NodeOk(n)
    ensures ReadElement(Print(n) + t, page) == ReadOf(Meaning(n, page), t)
    decreases n, 1
  {
    TagBack(n);
    OwnRead(n, page, t);
    var a := MeaningOwn(n, page);
    if a.Some? && n.content.Some? {
      PartsRead(n.content.value, a.value.page, t);
    } else if a.Some? {
      assert PrintBody(n) + t == t;
    }
  }

  lemma {:induction false} PartsRead(ps: Parts, page: Byte, t: seq<Byte>)
    requires PartsOk(ps)
    ensures ReadContent(PrintParts(ps) + [0x01] + t, page) == AllOf(MeaningAll(ps, page), t)
    decreases ps, 1
  {
    match ps
    case End => assert [] + [0x01] + t == [0x01] + t && ([0x01] + t)[1..] == t;
    case TagPage(q, more) =>
      Cut2(0x00, q, PrintParts(more), [0x01], t);
      PartsRead(more, page, t);
    case Kid(n, more) => KidRead(n, more, page, t);
  }

  lemma {:induction false} KidRead(n: Node, more: Parts, page: Byte, t: seq<Byte>)
    requires NodeOk(n) && PartsOk(more)
    ensures ReadContent(PrintParts(Kid(n, more)) + [0x01] + t, page) == AllOf(MeaningAll(Kid(n, more), page), t)
    decreases Kid(n, more), 0
  {
    var rest := PrintParts(more) + [0x01] + t;
    Regroup(Print(n), PrintParts(more), [0x01], t);
    TagBack(n);
    OwnRead(n, page, rest);
    NodeRead(n, page, rest);
    if Meaning(n, page).Some? {
      PartsRead(more, Meaning(n, page).value.1, t);
    }
    KidJoined(n, more, page, Print(n) + rest, rest, t);
  }

  lemma {:induction false} KidJoined(n: Node, more: Parts, page: Byte, d: seq<Byte>, rest: seq<Byte>, t: seq<Byte>)
    requires NodeOk(n) && PartsOk(more) && d != [] && d[0] !in {0x00, 0x01}
    requires ReadElement(d, page) == ReadOf(Meaning(n, page), rest)
    requires Meaning(n, page).Some? ==>
               ReadContent(rest, Meaning(n, page).value.1) == AllOf(MeaningAll(more, Meaning(n, page).value.1), t)
    ensures ReadContent(d, page) == AllOf(MeaningAll(Kid(n, more), page), t)
  {
    ContentStep(d, page);
  }

  function Then(r: Read): ReadAll {
    match r
    case ReadErr(e) => AllErr(e)
    case ReadOk(el, page, rest) =>
      match ReadContent(rest, page)
      case AllErr(e) => AllErr(e)
      case AllOk(els, page, rest) => AllOk([el] + els, page, rest)
  }

  lemma {:induction false} ContentStep(d: seq<Byte>, page: Byte)
    requires d != [] && d[0] !in {0x00, 0x01}
    ensures ReadContent(d, page) == Then(ReadElement(d, page))
  {
  }

  // ---- no NUL comes out ------------------------------------------------------

  ghost predicate PlainAttrs(attrs: map<string, string>) {
    forall k :: k in attrs ==> '\0' !in attrs[k]
  }

  ghost predicate Plain(e: Element) {
    PlainAttrs(e.attrs) && forall i :: 0 <= i < |e.children| ==> Plain(e.children[i])
  }

  lemma PlainSteps(p: Partial, v: string, a: AttrStart)
    requires PlainAttrs(p.attrs) && '\0' !in v && (a.Fixed? ==> '\0' !in a.val)
    ensures PlainAttrs(Flushed(p))
    ensures p.pending.Some? ==> PlainAttrs(Assigned(p, v).attrs)
    ensures a != Unknown ==> PlainAttrs(Started(p, a).attrs)
  {
  }

  lemma Page0Plain(b: Byte)
    ensures Page0(b).Fixed? ==> '\0' !in Page0(b).val
  {
  }

  lemma TokensPlain(page: Byte, b: Byte)
    ensures AttrToken(page, b).Fixed? ==> '\0' !in AttrToken(page, b).val
    ensures ValueToken(b).Some? ==> '\0' !in ValueToken(b).value
  {
    Page0Plain(b);
  }

  lemma {:induction false} AttrsPlain(d: seq<Byte>, p: Partial)
    requires PlainAttrs(p.attrs) && ReadAttrs(d, p).AttrsOk?
    ensures PlainAttrs(ReadAttrs(d, p).attrs)
    decreases |d|
  {
    var b := d[0];
    TokensPlain(p.page, b);
    PlainSteps(p, "", AttrToken(p.page, b));
    if b == 0x01 {
    } else if b == 0x00 {
      AttrsPlain(d[2..], p.(page := d[1]));
    } else if b == 0x03 {
      var t := ReadText(d[1..]);
      DecodeNul(d[1..][..NulAt(d[1..])]);
      PlainSteps(p, t.text, Unknown);
      AttrsPlain(t.rest, Assigned(p, t.text));
    } else {
      if b >= 0x80 {
        PlainSteps(p, ValueToken(b).value, Unknown);
      }
      AttrsPlain(d[1..], TakeToken(b, p).value);
    }
  }

  /** No attribute of an element that was read holds a NUL. */
  lemma {:induction false} ElementPlain(d: seq<Byte>, page: Byte)
    requires ReadElement(d, page).ReadOk?
    ensures Plain(ReadElement(d, page).el)
    decreases |d|, 0
  {
    var a := ReadOwnAttrs(d, page);
    if HasAttrs(d[0]) {
      AttrsPlain(d[1..], Partial(page, None, map[]));
    }
    if HasContent(d[0]) {
      ContentPlain(a.rest, a.page);
    }
  }

  lemma {:induction false} ContentPlain(d: seq<Byte>, page: Byte)
    requires ReadContent(d, page).AllOk?
    ensures forall i :: 0 <= i < |ReadContent(d, page).els| ==> Plain(ReadContent(d, page).els[i])
    decreases |d|, 1
  {
    if d[0] == 0x00 {
      ContentPlain(d[2..], page);
    } else if d[0] != 0x01 {
      var e := ReadElement(d, page);
      ElementPlain(d, page);
      ContentPlain(e.rest, e.page);
    }
  }
}
