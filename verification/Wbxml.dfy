/**
The WBXML re-parser of `apn_provisioner/validator.py` on the bytes it has left, and a printer
for every document it understands (WAP-192, section 5.8).
*/
module WbxmlSpec {
  import opened Basics
  import opened Utf8

  /** MalformedError, IndexError and UnicodeDecodeError */
  datatype Err = Malformed | IndexErr | UnicodeErr

  datatype Element = Element(tag: string, attrs: map<string, string>, children: seq<Element>)

  // ---- token tables ----------------------------------------------------------

  /** What an attribute-start token stands for: a name whose value follows, or name and value. */
  datatype AttrStart = Generic(name: string) | Fixed(name: string, val: string) | Unknown

  function AttrToken(page: Byte, b: Byte): AttrStart {
    if page == 0 then Page0(b) else if page == 1 then Page1(b) else Unknown
  }

  function Page0(b: Byte): AttrStart {
    if b == 0x46 then Generic("version")
    else if b == 0x06 then Generic("value")
    else if b == 0x07 then Fixed("name", "NAME")
    else if b == 0x08 then Fixed("name", "NAP-ADDRESS")
    else if b == 0x09 then Fixed("name", "NAP-ADDRTYPE")
    else if b == 0x10 then Fixed("name", "BEARER")
    else if b == 0x11 then Fixed("name", "NAPID")
    else if b == 0x14 then Fixed("name", "INTERNET")
    else if b == 0x55 then Fixed("type", "NAPDEF")
    else if b == 0x56 then Fixed("type", "BOOTSTRAP")
    else Unknown
  }

  function Page1(b: Byte): AttrStart {
    if b == 0x55 then Fixed("type", "APPLICATION")
    else if b == 0x36 then Fixed("name", "APPID")
    else if b == 0x22 then Fixed("name", "TO-NAPID")
    else Unknown
  }

  function ValueToken(b: Byte): Option<string> {
    if b == 0x89 then Some("APN") else if b == 0xAB then Some("GSM-GPRS") else if b == 0x85 then Some("IPV4") else None
  }

  function TagName(base: Byte): Option<string> {
    if base == 0x05 then Some("wap-provisioningdoc") else if base == 0x06 then Some("characteristic")
    else if base == 0x07 then Some("parm") else None
  }

  // ---- reading ---------------------------------------------------------------

  /** Where the first NUL is; past the end if there is none. */
  function NulAt(d: seq<Byte>): (n: nat)
    ensures n <= |d| && (n < |d| ==> d[n] == 0) && forall i :: 0 <= i < n ==> d[i] != 0
  {
    if d == [] || d[0] == 0 then 0 else 1 + NulAt(d[1..])
  }

  datatype Text = TextOk(text: string, rest: seq<Byte>) | TextErr(err: Err)

  /** An inline string, up to its NUL. */
  function ReadText(d: seq<Byte>): (r: Text)
    ensures r.TextOk? ==> |r.rest| < |d|
  {
    var n := NulAt(d);
    if n == |d| then TextErr(Malformed)
    else
      var t := Decode(d[..n]);
      if t == None then TextErr(UnicodeErr) else TextOk(t.value, d[n + 1..])
  }

  /** The attribute list so far: the code page, the attribute that awaits its value, and the
      attributes that have theirs. */
  datatype Partial = Partial(page: Byte, pending: Option<string>, attrs: map<string, string>)

  /** An attribute left without a value is a flag. */
  function Flushed(p: Partial): map<string, string> {
    if p.pending == None then p.attrs else p.attrs[p.pending.value := ""]
  }

  /** The value `v` for the attribute that awaits one. */
  function Assigned(p: Partial, v: string): Partial
    requires p.pending.Some?
  {
    p.(pending := None, attrs := p.attrs[p.pending.value := v])
  }

  function Started(p: Partial, a: AttrStart): Partial
    requires a != Unknown
  {
    match a
    case Generic(name) => Partial(p.page, Some(name), Flushed(p))
    case Fixed(name, val) => Partial(p.page, None, Flushed(p)[name := val])
  }

  /** A value token, the value marker or an attribute start. */
  function TakeToken(b: Byte, p: Partial): Option<Partial> {
    if b >= 0x80 then
      if p.pending == None || ValueToken(b) == None then None else Some(Assigned(p, ValueToken(b).value))
    else if b == 0x06 then Some(Partial(p.page, Some("value"), Flushed(p)))
    else if AttrToken(p.page, b) == Unknown then None
    else Some(Started(p, AttrToken(p.page, b)))
  }

  datatype AttrList = AttrsOk(attrs: map<string, string>, page: Byte, rest: seq<Byte>) | AttrsErr(err: Err)

  /** _read_attrs() */
  function ReadAttrs(d: seq<Byte>, p: Partial): (r: AttrList)
    ensures r.AttrsOk? ==> |r.rest| < |d|
    decreases |d|
  {
    if d == [] then AttrsErr(Malformed) else
    var b := d[0];
    if b == 0x01 then AttrsOk(Flushed(p), p.page, d[1..])
    else if b == 0x00 then
      if |d| < 2 then AttrsErr(Malformed) else ReadAttrs(d[2..], p.(page := d[1]))
    else if b == 0x03 then
      if p.pending == None then AttrsErr(Malformed) else
      match ReadText(d[1..])
      case TextErr(e) => AttrsErr(e)
      case TextOk(t, rest) => ReadAttrs(rest, Assigned(p, t))
    else if TakeToken(b, p) == None then AttrsErr(Malformed)
    else ReadAttrs(d[1..], TakeToken(b, p).value)
  }

  datatype Read = ReadOk(el: Element, page: Byte, rest: seq<Byte>) | ReadErr(err: Err)

  datatype ReadAll = AllOk(els: seq<Element>, page: Byte, rest: seq<Byte>) | AllErr(err: Err)

  predicate HasAttrs(tag: Byte) {
    tag >= 0x80
  }

  predicate HasContent(tag: Byte) {
    tag / 0x40 % 2 == 1
  }

  /** The attributes of the element that starts `d`. */
  function ReadOwnAttrs(d: seq<Byte>, page: Byte): (r: AttrList)
    requires d != []
    ensures r.AttrsOk? ==> |r.rest| < |d|
  {
    if HasAttrs(d[0]) then ReadAttrs(d[1..], Partial(page, None, map[])) else AttrsOk(map[], page, d[1..])
  }

  /** _read_element().  It advances on every byte string it accepts. */
  function ReadElement(d: seq<Byte>, page: Byte): (r: Read)
    ensures r.ReadOk? ==> |r.rest| < |d|
    decreases |d|, 0
  {
    if d == [] || TagName(d[0] % 0x40) == None then ReadErr(Malformed) else
    match ReadOwnAttrs(d, page)
    case AttrsErr(e) => ReadErr(e)
    case AttrsOk(attrs, page, rest) => ReadBody(d[0], attrs, page, rest)
  }

  /** The rest of the element with tag byte `tag`. */
  function ReadBody(tag: Byte, attrs: map<string, string>, page: Byte, d: seq<Byte>): (r: Read)
    requires TagName(tag % 0x40).Some?
    ensures r.ReadOk? ==> |r.rest| <= |d|
    decreases |d|, 2
  {
    if !HasContent(tag) then ReadOk(Element(TagName(tag % 0x40).value, attrs, []), page, d) else
    match ReadContent(d, page)
    case AllErr(e) => ReadErr(e)
    case AllOk(els, page, rest) => ReadOk(Element(TagName(tag % 0x40).value, attrs, els), page, rest)
  }

  /** The content loop of _read_element(), up to its END. */
  function ReadContent(d: seq<Byte>, page: Byte): (r: ReadAll)
    ensures r.AllOk? ==> |r.rest| < |d|
    decreases |d|, 1
  {
    if d == [] then AllErr(IndexErr)
    else if d[0] == 0x01 then AllOk([], page, d[1..])
    else if d[0] == 0x00 then
      if |d| < 2 then AllErr(Malformed) else ReadContent(d[2..], page)
    else
      match ReadElement(d, page)
      case ReadErr(e) => AllErr(e)
      case ReadOk(el, page, rest) =>
        match ReadContent(rest, page)
        case AllErr(e) => AllErr(e)
        case AllOk(els, page, rest) => AllOk([el] + els, page, rest)
  }

  /** decode_wbxml(), with the bytes it leaves unread. */
  function ReadDocument(d: seq<Byte>): Read {
    if |d| < 4 || d[0] != 0x03 || d[3] != 0 then ReadErr(Malformed) else ReadElement(d[4..], 0)
  }

  // ---- printing --------------------------------------------------------------

  /** What an attribute list is made of: a page switch, an attribute start, the value marker,
      an inline string or a value token. */
  datatype Item = Switch(page: Byte) | Start(token: Byte) | Mark | Inline(text: string) | Token(token: Byte)

  datatype Node = Node(base: Byte, items: Option<seq<Item>>, content: Option<Parts>)

  /** Content: elements and tag-page switches. */
  datatype Parts = End | Kid(node: Node, more: Parts) | TagPage(page: Byte, more: Parts)

  predicate ItemOk(i: Item) {
    match i
    case Inline(s) => '\0' !in s
    case Token(b) => b >= 0x80
    case Start(b) => b < 0x80 && b !in {0x00, 0x01, 0x03, 0x06}
    case _ => true
  }

  predicate NodeOk(n: Node) {
    && TagName(n.base).Some?
    && (n.items.Some? ==> forall i :: 0 <= i < |n.items.value| ==> ItemOk(n.items.value[i]))
    && (n.content.Some? ==> PartsOk(n.content.value))
  }

  predicate PartsOk(ps: Parts) {
    match ps
    case End => true
    case Kid(n, more) => NodeOk(n) && PartsOk(more)
    case TagPage(_, more) => PartsOk(more)
  }

  /** _istr() */
  function IStr(s: string): seq<Byte> {
    [0x03] + Encode(s) + [0x00]
  }

  function PrintItem(i: Item): seq<Byte> {
    match i
    case Switch(page) => [0x00, page]
    case Start(b) => [b]
    case Mark => [0x06]
    case Inline(s) => IStr(s)
    case Token(b) => [b]
  }

  function PrintItems(is_: seq<Item>): seq<Byte> {
    if is_ == [] then [] else PrintItem(is_[0]) + PrintItems(is_[1..])
  }

  function TagByte(n: Node): Byte {
    n.base % 0x40 + (if n.items.Some? then 0x80 else 0) + if n.content.Some? then 0x40 else 0
  }

  function Print(n: Node): seq<Byte> {
    [TagByte(n)]
    + (if n.items.Some? then PrintItems(n.items.value) + [0x01] else [])
    + (if n.content.Some? then PrintParts(n.content.value) + [0x01] else [])
  }

  function PrintParts(ps: Parts): seq<Byte> {
    match ps
    case End => []
    case Kid(n, more) => Print(n) + PrintParts(more)
    case TagPage(page, more) => [0x00, page] + PrintParts(more)
  }

  // ---- what printed documents mean --------------------------------------------

  /** One item taken into an attribute list; nothing if it has no place there. */
  function Apply(i: Item, p: Partial): Option<Partial> {
    match i
    case Switch(page) => Some(p.(page := page))
    case Start(b) => if AttrToken(p.page, b) == Unknown then None else Some(Started(p, AttrToken(p.page, b)))
    case Mark => Some(Partial(p.page, Some("value"), Flushed(p)))
    case Inline(s) => if p.pending == None then None else Some(Assigned(p, s))
    case Token(b) => if p.pending == None || ValueToken(b) == None then None else Some(Assigned(p, ValueToken(b).value))
  }

  function ApplyAll(is_: seq<Item>, p: Partial): Option<Partial> {
    if is_ == [] then Some(p)
    else if Apply(is_[0], p) == None then None
    else ApplyAll(is_[1..], Apply(is_[0], p).value)
  }

  /** The element a node stands for on a code page, and the page after it. */
  function Meaning(n: Node, page: Byte): Option<(Element, Byte)>
    requires NodeOk(n)
  {
    var a := MeaningOwn(n, page);
    if a == None then None
    else if n.content == None then Some((Element(TagName(n.base).value, Flushed(a.value), []), a.value.page))
    else
      var c := MeaningAll(n.content.value, a.value.page);
      if c == None then None else Some((Element(TagName(n.base).value, Flushed(a.value), c.value.0), c.value.1))
  }

  function MeaningOwn(n: Node, page: Byte): Option<Partial> {
    if n.items.Some? then ApplyAll(n.items.value, Partial(page, None, map[])) else Some(Partial(page, None, map[]))
  }

  function MeaningAll(ps: Parts, page: Byte): Option<(seq<Element>, Byte)>
    requires PartsOk(ps)
  {
    match ps
    case End => Some(([], page))
    case TagPage(_, more) => MeaningAll(more, page)
    case Kid(n, more) =>
      var e := Meaning(n, page);
      if e == None then None else
      var es := MeaningAll(more, e.value.1);
      if es == None then None else Some(([e.value.0] + es.value.0, es.value.1))
  }
}
