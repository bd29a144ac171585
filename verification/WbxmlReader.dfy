/**
The re-parser as it runs: a position that moves through the bytes, and the current attribute
code page.
*/
module WbxmlReader {
  import opened Basics
  import opened Utf8
  import opened WbxmlSpec

  /** What ReadAttrs comes to at position `i` of the bytes. */
  lemma {:induction false} AttrsAt(d: seq<Byte>, i: nat, p: Partial)
    requires i <= |d|
    ensures ReadAttrs(d[i..], p)
         == if i == |d| then AttrsErr(Malformed)
            else if d[i] == 0x01 then AttrsOk(Flushed(p), p.page, d[i + 1..])
            else if d[i] == 0x00 then
              if i + 1 == |d| then AttrsErr(Malformed) else ReadAttrs(d[i + 2..], p.(page := d[i + 1]))
            else if d[i] == 0x03 then
              if p.pending == None then AttrsErr(Malformed)
              else if ReadText(d[i + 1..]).TextErr? then AttrsErr(ReadText(d[i + 1..]).err)
              else ReadAttrs(ReadText(d[i + 1..]).rest, Assigned(p, ReadText(d[i + 1..]).text))
            else if TakeToken(d[i], p) == None then AttrsErr(Malformed)
            else ReadAttrs(d[i + 1..], TakeToken(d[i], p).value)
  {
    if i < |d| {
      assert d[i..][0] == d[i] && d[i..][1..] == d[i + 1..];
      if i + 1 < |d| {
        assert d[i..][1] == d[i + 1] && d[i..][2..] == d[i + 2..];
      }
    }
  }

  lemma {:induction false} ContentAt(d: seq<Byte>, i: nat, page: Byte)
    requires i <= |d|
    ensures i == |d| ==> ReadContent(d[i..], page) == AllErr(IndexErr)
    ensures i < |d| && d[i] == 0x01 ==> ReadContent(d[i..], page) == AllOk([], page, d[i + 1..])
    ensures i + 1 == |d| && d[i] == 0x00 ==> ReadContent(d[i..], page) == AllErr(Malformed)
    ensures i + 1 < |d| && d[i] == 0x00 ==> ReadContent(d[i..], page) == ReadContent(d[i + 2..], page)
    ensures i < |d| && d[i] !in {0x00, 0x01} ==>
              ReadContent(d[i..], page) == match ReadElement(d[i..], page)
                                           case ReadErr(e) => AllErr(e)
                                           case ReadOk(el, p, rest) => After([el], ReadContent(rest, p))
  {
    if i < |d| {
      assert d[i..][0] == d[i] && d[i..][1..] == d[i + 1..];
      if i + 1 < |d| {
        assert d[i..][2..] == d[i + 2..];
      }
    }
  }

  datatype Outcome<T> = Value(value: T) | Raise(err: Err)

  class Reader {
    const d: seq<Byte>
    var i: nat
    /** the shared cell `page[0]` */
    var page: Byte

    ghost predicate Valid()
      reads this`i
    {
      i <= |d|
    }

    constructor (data: seq<Byte>)
      ensures Valid() && d == data && i == 0 && page == 0
    {
      d, i, page := data, 0, 0;
    }

    method U8() returns (b: Outcome<Byte>)
      requires Valid()
      modifies this`i
      ensures Valid() && old(i) <= i
      ensures if old(i) < |d| then b == Value(d[old(i)]) && i == old(i) + 1 else b == Raise(Malformed)
    {
      if i >= |d| {
        return Raise(Malformed);
      }
      b := Value(d[i]);
      i := i + 1;
    }

    method CStr() returns (s: Outcome<string>)
      requires Valid()
      modifies this`i
      ensures Valid()
      ensures match ReadText(d[old(i)..])
              case TextOk(t, rest) => s == Value(t) && d[i..] == rest && i > old(i)
              case TextErr(e) => s == Raise(e)
    {
      var end := i;
      while end < |d| && d[end] != 0
        invariant i == old(i) <= end <= |d| && forall k :: i <= k < end ==> d[k] != 0
      {
        end := end + 1;
      }
      assert d[i..][..end - i] == d[i..end];
      assert NulAt(d[i..]) == end - i by {
        assert end < |d| ==> d[i..][end - i] == 0;
        assert forall k :: 0 <= k < end - i ==> d[i..][k] == d[i + k];
      }
      if end == |d| {
        return Raise(Malformed);
      }
      var t := Decode(d[i..end]);
      if t == None {
        return Raise(UnicodeErr);
      }
      assert d[i..][end - i + 1..] == d[end + 1..];
      i := end + 1;
      return Value(t.value);
    }

    /** _read_attrs() */
    method Attrs() returns (r: Outcome<map<string, string>>)
      requires Valid()
      modifies this`i, this`page
      ensures Valid()
      ensures match ReadAttrs(d[old(i)..], Partial(old(page), None, map[]))
              case AttrsOk(attrs, p, rest) => r == Value(attrs) && page == p && d[i..] == rest && i > old(i)
              case AttrsErr(e) => r == Raise(e)
    {
      var p, done := Partial(page, None, map[]), false;
      ghost var goal := ReadAttrs(d[i..], p);
      while !done
        invariant Valid() && p.page == page && old(i) <= i && (done ==> i > old(i))
        invariant goal == if done then AttrsOk(p.attrs, page, d[i..]) else ReadAttrs(d[i..], p)
        decreases |d| - i, !done
      {
        var s;
        s, done := AttrStep(p);
        if s.Raise? {
          return Raise(s.err);
        }
        p := s.value;
      }
      return Value(p.attrs);
    }

    /** One turn of its loop: `done` at the END of the list. */
    method AttrStep(p: Partial) returns (r: Outcome<Partial>, done: bool)
      requires Valid() && p.page == page
      modifies this`i, this`page
      ensures Valid() && (r.Value? ==> i > old(i) && r.value.page == page)
      ensures ReadAttrs(d[old(i)..], p)
           == if r.Raise? then AttrsErr(r.err)
              else if done then AttrsOk(r.value.attrs, page, d[i..]) else ReadAttrs(d[i..], r.value)
    {
      AttrsAt(d, i, p);
      done := false;
      var b := U8();
      if b.Raise? {
        return Raise(b.err), false;
      }
      if b.value == 0x01 {
        if p.pending.Some? {
          return Value(Partial(page, None, p.attrs[p.pending.value := ""])), true;
        }
        return Value(p), true;
      }
      if b.value == 0x00 {
        var q := U8();
        if q.Raise? {
          return Raise(q.err), false;
        }
        page := q.value;
        return Value(p.(page := q.value)), false;
      }
      if b.value == 0x03 {
        if p.pending == None {
          return Raise(Malformed), false;
        }
        var s := CStr();
        if s.Raise? {
          return Raise(s.err), false;
        }
        return Value(Partial(page, None, p.attrs[p.pending.value := s.value])), false;
      }
      var q := Token(b.value, p);
      if q == None {
        return Raise(Malformed), false;
      }
      return Value(q.value), false;
    }

    /** The part of its loop for bytes that are tokens. */
    method Token(b: Byte, p: Partial) returns (r: Option<Partial>)
      ensures r == TakeToken(b, p) && (r.Some? ==> r.value.page == p.page)
    {
      var pending, attrs := p.pending, p.attrs;
      if b >= 0x80 {
        if pending == None || ValueToken(b) == None {
          return None;
        }
        return Some(Partial(p.page, None, attrs[pending.value := ValueToken(b).value]));
      }
      if b == 0x06 {
        if pending.Some? {
          attrs := attrs[pending.value := ""];
        }
        return Some(Partial(p.page, Some("value"), attrs));
      }
      var a := AttrToken(p.page, b);
      if a == Unknown {
        return None;
      }
      if pending.Some? {
        attrs, pending := attrs[pending.value := ""], None;
      }
      match a
      case Generic(name) => return Some(Partial(p.page, Some(name), attrs));
      case Fixed(name, val) => return Some(Partial(p.page, pending, attrs[name := val]));
    }

    /** _read_element() */
    method Element() returns (r: Outcome<Element>)
      requires Valid()
      modifies this`i, this`page
      ensures Valid()
      ensures match ReadElement(d[old(i)..], old(page))
              case ReadOk(e, p, rest) => r == Value(e) && page == p && d[i..] == rest && i > old(i)
              case ReadErr(e) => r == Raise(e)
      decreases |d| - i, 0
    {
      var tag := U8();
      if tag.Raise? {
        return Raise(tag.err);
      }
      assert d[old(i)..][0] == tag.value && d[old(i)..][1..] == d[i..];
      var name := TagName(tag.value % 0x40);
      if name == None {
        return Raise(Malformed);
      }
      var attrs: map<string, string> := map[];
      if HasAttrs(tag.value) {
        var a := Attrs();
        if a.Raise? {
          return Raise(a.err);
        }
        attrs := a.value;
      }
      var els: seq<WbxmlSpec.Element> := [];
      if HasContent(tag.value) {
        var c := Content();
        if c.Raise? {
          return Raise(c.err);
        }
        els := c.value;
      }
      return Value(WbxmlSpec.Element(name.value, attrs, els));
    }

    /** Its content loop. */
    method Content() returns (r: Outcome<seq<Element>>)
      requires Valid()
      modifies this`i, this`page
      ensures Valid()
      ensures match ReadContent(d[old(i)..], old(page))
              case AllOk(els, p, rest) => r == Value(els) && page == p && d[i..] == rest && i > old(i)
              case AllErr(e) => r == Raise(e)
      decreases |d| - i, 2
    {
      var els: seq<WbxmlSpec.Element>, done := [], false;
      ghost var goal := ReadContent(d[i..], page);
      while !done
        invariant Valid() && old(i) <= i && (done ==> i > old(i))
        invariant goal == if done then AllOk(els, page, d[i..]) else After(els, ReadContent(d[i..], page))
        decreases |d| - i, !done
      {
        var kid;
        kid, done := ContentStep();
        if kid.Raise? {
          return Raise(kid.err);
        }
        AfterSome(els, kid.value, ReadContent(d[i..], page));
        if kid.value.Some? {
          els := els + [kid.value.value];
        }
      }
      return Value(els);
    }

    /** One turn of that loop: an element, a tag-page switch, or `done` at the END. */
    method ContentStep() returns (r: Outcome<Option<Element>>, done: bool)
      requires Valid()
      modifies this`i, this`page
      ensures Valid() && (r.Value? ==> i > old(i))
      ensures ReadContent(d[old(i)..], old(page))
           == if r.Raise? then AllErr(r.err)
              else if done then AllOk([], page, d[i..]) else After(Listed(r.value), ReadContent(d[i..], page))
      ensures done && r.Value? ==> r.value == None
      decreases |d| - i, 1
    {
      ContentAt(d, i, page);
      done := false;
      if i >= |d| {
        return Raise(IndexErr), false;
      }
      if d[i] == 0x01 {
        i := i + 1;
        return Value(None), true;
      }
      if d[i] == 0x00 {
        i := i + 1;
        var p := U8();
        if p.Raise? {
          return Raise(p.err), false;
        }
        AfterNone(ReadContent(d[i..], page));
        return Value(None), false;
      }
      var e := Element();
      if e.Raise? {
        return Raise(e.err), false;
      }
      return Value(Some(e.value)), false;
    }
  }

  ghost function Listed(e: Option<Element>): seq<Element> {
    if e == None then [] else [e.value]
  }

  lemma AfterNone(r: ReadAll)
    ensures After([], r) == r
  {
    if r.AllOk? {
      assert [] + r.els == r.els;
    }
  }

  /** The elements read so far, before those still to come. */
  ghost function After(els: seq<Element>, r: ReadAll): ReadAll {
    match r
    case AllErr(e) => r
    case AllOk(more, page, rest) => AllOk(els + more, page, rest)
  }

  lemma AfterSome(els: seq<Element>, e: Option<Element>, r: ReadAll)
    ensures After(els, After(Listed(e), r)) == After(els + Listed(e), r)
    ensures els + Listed(None) == els && els + [] == els
  {
    if r.AllOk? {
      assert els + Listed(e) + r.els == els + (Listed(e) + r.els);
    }
  }

  /** decode_wbxml() */
  method DecodeWbxml(wbxml: seq<Byte>) returns (r: Outcome<Element>)
    ensures match ReadDocument(wbxml)
            case ReadOk(e, _, _) => r == Value(e)
            case ReadErr(e) => r == Raise(e)
  {
    if wbxml == [] || wbxml[0] != 0x03 {
      return Raise(Malformed);
    }
    var reader := new Reader(wbxml);
    var version := reader.U8();
    var publicId := reader.U8();
    if publicId.Raise? {
      return Raise(publicId.err);
    }
    var charset := reader.U8();
    if charset.Raise? {
      return Raise(charset.err);
    }
    var strtbl := reader.U8();
    if strtbl.Raise? {
      return Raise(strtbl.err);
    }
    if strtbl.value != 0 {
      return Raise(Malformed);
    }
    r := reader.Element();
  }
}
