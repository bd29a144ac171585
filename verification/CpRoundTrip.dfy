/**
What the built provisioning document means, and that the validator reads exactly that.
*/
module CpRoundTrip {
  import opened Basics
  import opened WbxmlSpec
  import opened WbxmlRoundTrip
  import opened CpBuilder
  import opened WspSpec

  function ParmElement(name: string, value: string): Element {
    Element("parm", map["name" := name, "value" := value], [])
  }

  /** The element tree a handset is meant to get. */
  function Profile(c: Names, apn: string): Element {
    Element("wap-provisioningdoc", map["version" := c.version],
      [BootstrapElement(c), NapdefElement(c, apn), ApplicationElement(c)])
  }

  predicate NulFree(c: Names) {
    '\0' !in c.napid && '\0' !in c.bootstrap && '\0' !in c.napName && '\0' !in c.appid && '\0' !in c.version
  }

  /** Items one by one. */
  lemma ApplyCons(i: Item, is_: seq<Item>, p: Partial)
    ensures ApplyAll([i] + is_, p) == if Apply(i, p) == None then None else ApplyAll(is_, Apply(i, p).value)
  {
    assert ([i] + is_)[1..] == is_;
  }

  predicate Gives(v: Item, value: string) {
    (v.Inline? && v.text == value && '\0' !in value) || (v.Token? && v.token >= 0x80 && ValueToken(v.token) == Some(value))
  }

  /** <name> value: read on the page it is met on. */
  lemma {:induction false} NamedValue(token: Byte, v: Item, page: Byte, name: string, value: string)
    requires AttrToken(page, token) == Fixed("name", name) && Gives(v, value)
    ensures ApplyAll([Start(token), Mark, v], Partial(page, None, map[]))
         == Some(Partial(page, None, map["name" := name, "value" := value]))
  {
    var p0 := Partial(page, None, map[]);
    var p1 := Partial(page, None, map["name" := name]);
    assert [Start(token), Mark, v] == [Start(token)] + ([Mark] + ([v] + []));
    ApplyCons(Start(token), [Mark] + ([v] + []), p0);
    assert Apply(Start(token), p0) == Some(p1);
    ApplyCons(Mark, [v] + [], p1);
    var p2 := Partial(page, Some("value"), map["name" := name]);
    assert Apply(Mark, p1) == Some(p2);
    ApplyCons(v, [], p2);
    assert Apply(v, p2) == Some(Partial(page, None, map["name" := name, "value" := value]));
  }

  lemma {:induction false} ParmMeaning(token: Byte, v: Item, page: Byte, name: string, value: string)
    requires AttrToken(page, token) == Fixed("name", name) && Gives(v, value) && ItemOk(Start(token))
    ensures var n := Parm([Start(token), Mark, v]);
            NodeOk(n) && Meaning(n, page) == Some((ParmElement(name, value), page))
  {
    NamedValue(token, v, page, name, value);
  }

  lemma {:induction false} SwitchedParmMeaning(to: Byte, token: Byte, v: Item, page: Byte, name: string, value: string)
    requires AttrToken(to, token) == Fixed("name", name) && Gives(v, value) && ItemOk(Start(token))
    ensures var n := Parm([Switch(to), Start(token), Mark, v]);
            NodeOk(n) && Meaning(n, page) == Some((ParmElement(name, value), to))
  {
    assert [Switch(to), Start(token), Mark, v] == [Switch(to)] + [Start(token), Mark, v];
    ApplyCons(Switch(to), [Start(token), Mark, v], Partial(page, None, map[]));
    NamedValue(token, v, to, name, value);
  }

  lemma {:induction false} OneStart(token: Byte, page: Byte)
    requires AttrToken(page, token).Fixed?
    ensures var a := AttrToken(page, token);
            ApplyAll([Start(token)], Partial(page, None, map[])) == Some(Partial(page, None, map[a.name := a.val]))
  {
    assert [Start(token)] == [Start(token)] + [];
    ApplyCons(Start(token), [], Partial(page, None, map[]));
  }

  lemma {:induction false} FlagMeaning(page: Byte)
    requires page == 0
    ensures var n := Parm([Start(0x14)]);
            NodeOk(n) && Meaning(n, page) == Some((Element("parm", map["name" := "INTERNET"], []), page))
  {
    OneStart(0x14, page);
  }

  lemma {:induction false} KidMeaning(n: Node, more: Parts, page: Byte, e: Element, page1: Byte, es: seq<Element>, page2: Byte)
    requires NodeOk(n) && Meaning(n, page) == Some((e, page1))
    requires PartsOk(more) && MeaningAll(more, page1) == Some((es, page2))
    ensures PartsOk(Kid(n, more)) && MeaningAll(Kid(n, more), page) == Some(([e] + es, page2))
  {
  }

  lemma {:induction false} CharacteristicMeaning(items: seq<Item>, content: Parts, page: Byte, p: Partial, es: seq<Element>, page2: Byte)
    requires (forall i :: 0 <= i < |items| ==> ItemOk(items[i])) && PartsOk(content)
    requires ApplyAll(items, Partial(page, None, map[])) == Some(p) && p.pending == None
    requires MeaningAll(content, p.page) == Some((es, page2))
    ensures var n := Characteristic(items, content);
            NodeOk(n) && Meaning(n, page) == Some((Element("characteristic", p.attrs, es), page2))
  {
  }

  function BootstrapElement(c: Names): Element {
    Element("characteristic", map["type" := "BOOTSTRAP"], [ParmElement("NAME", c.bootstrap)])
  }

  lemma {:induction false} BootstrapMeaning(c: Names)
    requires NulFree(c)
    ensures NodeOk(Bootstrap(c)) && Meaning(Bootstrap(c), 0) == Some((BootstrapElement(c), 0))
  {
    var n, e := Parm([Start(0x07), Mark, Inline(c.bootstrap)]), ParmElement("NAME", c.bootstrap);
    ParmMeaning(0x07, Inline(c.bootstrap), 0, "NAME", c.bootstrap);
    KidMeaning(n, End, 0, e, 0, [], 0);
    assert [e] + [] == [e];
    OneStart(0x56, 0);
    CharacteristicMeaning([Start(0x56)], Kid(n, End), 0, Partial(0, None, map["type" := "BOOTSTRAP"]), [e], 0);
  }

  /** The names and values of the NAPDEF parms. */
  function NapValues(c: Names, apn: string): seq<(string, string)> {
    [("NAPID", c.napid), ("BEARER", "GSM-GPRS"), ("NAME", c.napName), ("NAP-ADDRESS", apn), ("NAP-ADDRTYPE", "APN")]
  }

  /** The elements of NAPDEF from the `k`-th parm on. */
  function NapElements(vs: seq<(string, string)>, k: nat): seq<Element>
    requires k <= |vs|
    decreases |vs| - k
  {
    if k == |vs| then [Element("parm", map["name" := "INTERNET"], [])]
    else [ParmElement(vs[k].0, vs[k].1)] + NapElements(vs, k + 1)
  }

  lemma {:induction false} NapMeaning(ps: seq<(Byte, Item)>, vs: seq<(string, string)>, k: nat)
    requires k <= |ps| == |vs|
    requires forall i :: 0 <= i < |ps| ==>
               AttrToken(0, ps[i].0) == Fixed("name", vs[i].0) && Gives(ps[i].1, vs[i].1) && ItemOk(Start(ps[i].0))
    ensures PartsOk(NapContent(ps, k)) && MeaningAll(NapContent(ps, k), 0) == Some((NapElements(vs, k), 0))
    decreases |ps| - k
  {
    if k == |ps| {
      FlagMeaning(0);
      var e := Element("parm", map["name" := "INTERNET"], []);
      KidMeaning(Parm([Start(0x14)]), End, 0, e, 0, [], 0);
      assert [e] + [] == [e];
    } else {
      NapMeaning(ps, vs, k + 1);
      ParmMeaning(ps[k].0, ps[k].1, 0, vs[k].0, vs[k].1);
      KidMeaning(Parm([Start(ps[k].0), Mark, ps[k].1]), NapContent(ps, k + 1), 0,
                 ParmElement(vs[k].0, vs[k].1), 0, NapElements(vs, k + 1), 0);
    }
  }

  function NapdefElement(c: Names, apn: string): Element {
    Element("characteristic", map["type" := "NAPDEF"], [
      ParmElement("NAPID", c.napid),
      ParmElement("BEARER", "GSM-GPRS"),
      ParmElement("NAME", c.napName),
      ParmElement("NAP-ADDRESS", apn),
      ParmElement("NAP-ADDRTYPE", "APN"),
      Element("parm", map["name" := "INTERNET"], [])])
  }

  lemma {:induction false} NapdefMeaning(c: Names, apn: string)
    requires NulFree(c) && '\0' !in apn
    ensures NodeOk(Napdef(c, apn)) && Meaning(Napdef(c, apn), 0) == Some((NapdefElement(c, apn), 0))
  {
    var ps, vs := NapParms(c, apn), NapValues(c, apn);
    NapMeaning(ps, vs, 0);
    OneStart(0x55, 0);
    CharacteristicMeaning([Start(0x55)], NapContent(ps, 0), 0, Partial(0, None, map["type" := "NAPDEF"]), NapElements(vs, 0), 0);
    NapListed(vs);
  }

  lemma NapListed(vs: seq<(string, string)>)
    requires |vs| == 5
    ensures NapElements(vs, 0)
         == [ParmElement(vs[0].0, vs[0].1), ParmElement(vs[1].0, vs[1].1), ParmElement(vs[2].0, vs[2].1),
             ParmElement(vs[3].0, vs[3].1), ParmElement(vs[4].0, vs[4].1), Element("parm", map["name" := "INTERNET"], [])]
  {
    var e := Element("parm", map["name" := "INTERNET"], []);
    var ps := [ParmElement(vs[0].0, vs[0].1), ParmElement(vs[1].0, vs[1].1), ParmElement(vs[2].0, vs[2].1),
               ParmElement(vs[3].0, vs[3].1), ParmElement(vs[4].0, vs[4].1)];
    assert NapElements(vs, 5) == [e];
    assert NapElements(vs, 4) == [ps[4]] + [e] == ps[4..] + [e];
    assert NapElements(vs, 3) == [ps[3]] + (ps[4..] + [e]) == ps[3..] + [e];
    assert NapElements(vs, 2) == [ps[2]] + (ps[3..] + [e]) == ps[2..] + [e];
    assert NapElements(vs, 1) == [ps[1]] + (ps[2..] + [e]) == ps[1..] + [e];
    assert NapElements(vs, 0) == [ps[0]] + (ps[1..] + [e]) == ps + [e];
  }

  function ApplicationElement(c: Names): Element {
    Element("characteristic", map["type" := "APPLICATION"],
      [ParmElement("APPID", c.appid), ParmElement("NAME", c.napName), ParmElement("TO-NAPID", c.napid)])
  }

  lemma {:induction false} ApplicationMeaning(c: Names)
    requires NulFree(c)
    ensures NodeOk(Application(c)) && Meaning(Application(c), 0) == Some((ApplicationElement(c), 1))
  {
    var p, e := Parm([Start(0x36), Mark, Inline(c.appid)]), ParmElement("APPID", c.appid);
    var q, f := Parm([Switch(0), Start(0x07), Mark, Inline(c.napName)]), ParmElement("NAME", c.napName);
    var r, g := Parm([Switch(1), Start(0x22), Mark, Inline(c.napid)]), ParmElement("TO-NAPID", c.napid);
    ParmMeaning(0x36, Inline(c.appid), 1, "APPID", c.appid);
    SwitchedParmMeaning(0, 0x07, Inline(c.napName), 1, "NAME", c.napName);
    SwitchedParmMeaning(1, 0x22, Inline(c.napid), 0, "TO-NAPID", c.napid);
    KidMeaning(r, End, 0, g, 1, [], 1);
    KidMeaning(q, Kid(r, End), 1, f, 0, [g] + [], 1);
    KidMeaning(p, Kid(q, Kid(r, End)), 1, e, 1, [f] + ([g] + []), 1);
    assert [e] + ([f] + ([g] + [])) == [e, f, g];
    ApplicationStart();
    CharacteristicMeaning([Switch(1), Start(0x55)], Kid(p, Kid(q, Kid(r, End))), 0,
                          Partial(1, None, map["type" := "APPLICATION"]), [e, f, g], 1);
  }

  lemma ApplicationStart()
    ensures ApplyAll([Switch(1), Start(0x55)], Partial(0, None, map[])) == Some(Partial(1, None, map["type" := "APPLICATION"]))
  {
    assert [Switch(1), Start(0x55)] == [Switch(1)] + [Start(0x55)];
    ApplyCons(Switch(1), [Start(0x55)], Partial(0, None, map[]));
    OneStart(0x55, 1);
  }

  lemma VersionStart(version: string)
    ensures ApplyAll([Start(0x46), Inline(version)], Partial(0, None, map[])) == Some(Partial(0, None, map["version" := version]))
  {
    assert [Start(0x46), Inline(version)] == [Start(0x46)] + ([Inline(version)] + []);
    ApplyCons(Start(0x46), [Inline(version)] + [], Partial(0, None, map[]));
    ApplyCons(Inline(version), [], Partial(0, Some("version"), map[]));
  }

  /** The built document means the intended profile. */
  lemma {:induction false} DocumentMeaning(c: Names, apn: string)
    requires NulFree(c) && '\0' !in apn
    ensures NodeOk(Document(c, apn)) && Meaning(Document(c, apn), 0) == Some((Profile(c, apn), 1))
  {
    var a, b, d := BootstrapElement(c), NapdefElement(c, apn), ApplicationElement(c);
    BootstrapMeaning(c);
    NapdefMeaning(c, apn);
    ApplicationMeaning(c);
    KidMeaning(Application(c), TagPage(0, End), 0, d, 1, [], 1);
    KidMeaning(Napdef(c, apn), Kid(Application(c), TagPage(0, End)), 0, b, 0, [d] + [], 1);
    KidMeaning(Bootstrap(c), Kid(Napdef(c, apn), Kid(Application(c), TagPage(0, End))), 0, a, 0, [b] + ([d] + []), 1);
    assert [a] + ([b] + ([d] + [])) == [a, b, d];
    VersionStart(c.version);
  }

  /** decode_wbxml() of what build_wbxml() builds reads all of it, and reads the profile with
      that APN, exactly when the APN holds no NUL. */
  lemma {:induction false} BuiltReadsBack(c: Names, apn: string)
    requires NulFree(c)
    ensures ReadDocument(WBXML_HEADER + Print(Document(c, apn))) == ReadOk(Profile(c, apn), 1, []) <==> '\0' !in apn
    ensures var r := ReadDocument(WBXML_HEADER + Print(Document(c, apn))); r.ReadOk? && r.el == Profile(c, apn) ==> '\0' !in apn
  {
    var d := WBXML_HEADER + Print(Document(c, apn));
    assert d[0] == 0x03 && d[3] == 0 && d[4..] == Print(Document(c, apn)) + [];
    if '\0' !in apn {
      DocumentMeaning(c, apn);
      NodeRead(Document(c, apn), 0, []);
    } else if ReadDocument(d).ReadOk? {
      ElementPlain(d[4..], 0);
      ProfileNul(c, apn);
    }
  }

  lemma ProfileNul(c: Names, apn: string)
    requires '\0' in apn
    ensures !Plain(Profile(c, apn))
  {
    var e := Profile(c, apn);
    var n := e.children[1];
    assert n.children[3].attrs["value"] == apn;
    assert !Plain(n.children[3]);
    assert !Plain(n);
  }

  // ---- the header and the shipped texts -------------------------------------------

  /** The WBXML header (WAP-192 section 5.4): version, public identifier, charset and string table,
      the last three multi-byte integers. */
  datatype Header = Header(version: Byte, publicId: nat, charset: nat, table: nat, body: seq<Byte>) | NoHeader

  function ReadHeader(d: seq<Byte>): Header {
    if d == [] then NoHeader else
    match ReadUintvar(d[1..], 0)
    case None => NoHeader
    case Some((id, d1)) =>
      match ReadUintvar(d1, 0)
      case None => NoHeader
      case Some((charset, d2)) =>
        match ReadUintvar(d2, 0)
        case None => NoHeader
        case Some((table, body)) => Header(d[0], id, charset, table, body)
  }

  /** Every built document is WBXML 1.3, public identifier 11 (PROV 1.0), charset 106 (UTF-8), without
      a string table. */
  lemma {:induction false} HeaderRead(c: Names, apn: string)
    ensures ReadHeader(WBXML_HEADER + Print(Document(c, apn))) == Header(3, 11, 106, 0, Print(Document(c, apn)))
  {
    var body := Print(Document(c, apn));
    var d := WBXML_HEADER + body;
    assert d[1..] == [11] + ([106] + ([0] + body));
    ReadLow(0, 11, [106] + ([0] + body));
    ReadLow(0, 106, [0] + body);
    ReadLow(0, 0, body);
  }

  lemma HiwebPlain()
    ensures NulFree(HIWEB)
  {
  }

  /** The service's own check of a built document, with the texts it ships: for every APN
      build_wbxml() accepts. */
  lemma {:induction false} HiwebReadsBack(apn: string)
    requires apn != ""
    ensures var profile := Profile(Names("HIWEBGPRS", "HiWEB", "HiWEB Internet", "w2", "1.0"), apn);
            ReadDocument(WBXML_HEADER + Print(Document(HIWEB, apn))) == ReadOk(profile, 1, []) <==> '\0' !in apn
  {
    HiwebPlain();
    BuiltReadsBack(HIWEB, apn);
  }
}
