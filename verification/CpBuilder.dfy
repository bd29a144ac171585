/**
The provisioning document of `apn_provisioner/cp_builder.py`: its bytes as the builder
appends them, and the document they stand for.
*/
module CpBuilder {
  import opened Basics
  import opened WbxmlSpec

  /** The texts every document carries besides the APN. */
  datatype Names = Names(napid: string, bootstrap: string, napName: string, appid: string, version: string)

  /** NAPID, BOOTSTRAP_NAME, NAP_NAME, APPID and the document version */
  const HIWEB := Names("HIWEBGPRS", "HiWEB", "HiWEB Internet", "w2", "1.0")

  const WBXML_HEADER: seq<Byte> := [0x03, 0x0B, 0x6A, 0x00]

  // ---- the document ----------------------------------------------------------

  /** <parm> with a name token and a value; a flag when there is no value. */
  function Parm(items: seq<Item>): Node {
    Node(0x07, Some(items), None)
  }

  function Characteristic(items: seq<Item>, content: Parts): Node {
    Node(0x06, Some(items), Some(content))
  }

  /** The parms of NAPDEF that have values, by token and value. */
  function NapParms(c: Names, apn: string): seq<(Byte, Item)> {
    [(0x11, Inline(c.napid)), (0x10, Token(0xAB)), (0x07, Inline(c.napName)), (0x08, Inline(apn)), (0x09, Token(0x89))]
  }

  /** The content of NAPDEF from the `k`-th parm on. */
  function NapContent(ps: seq<(Byte, Item)>, k: nat): Parts
    requires k <= |ps|
    decreases |ps| - k
  {
    if k == |ps| then Kid(Parm([Start(0x14)]), End)
    else Kid(Parm([Start(ps[k].0), Mark, ps[k].1]), NapContent(ps, k + 1))
  }

  function Bootstrap(c: Names): Node {
    Characteristic([Start(0x56)], Kid(Parm([Start(0x07), Mark, Inline(c.bootstrap)]), End))
  }

  function Napdef(c: Names, apn: string): Node {
    Characteristic([Start(0x55)], NapContent(NapParms(c, apn), 0))
  }

  function Application(c: Names): Node {
    Characteristic([Switch(1), Start(0x55)],
      Kid(Parm([Start(0x36), Mark, Inline(c.appid)]),
      Kid(Parm([Switch(0), Start(0x07), Mark, Inline(c.napName)]),
      Kid(Parm([Switch(1), Start(0x22), Mark, Inline(c.napid)]), End))))
  }

  function Document(c: Names, apn: string): Node {
    Node(0x05, Some([Start(0x46), Inline(c.version)]),
         Some(Kid(Bootstrap(c), Kid(Napdef(c, apn), Kid(Application(c), TagPage(0, End))))))
  }

  // ---- its bytes -------------------------------------------------------------

  datatype Built = Built(bytes: seq<Byte>) | ValueError

  lemma OneItem(i: Item)
    ensures PrintItems([i]) == PrintItem(i)
  {
    assert [i][1..] == [];
  }

  lemma TwoItems(i: Item, j: Item)
    ensures PrintItems([i, j]) == PrintItem(i) + PrintItem(j)
  {
    assert [i, j][1..] == [j];
    OneItem(j);
  }

  lemma ThreeItems(i: Item, j: Item, k: Item)
    ensures PrintItems([i, j, k]) == PrintItem(i) + (PrintItem(j) + PrintItem(k))
  {
    assert [i, j, k][1..] == [j, k];
    TwoItems(j, k);
  }

  lemma ParmPrint(items: seq<Item>)
    ensures Print(Parm(items)) == [0x87] + PrintItems(items) + [0x01]
  {
  }

  lemma ParmBytes(token: Byte, v: Item)
    ensures Print(Parm([Start(token), Mark, v])) == [0x87] + [token] + [0x06] + PrintItem(v) + [0x01]
  {
    ParmPrint([Start(token), Mark, v]);
    ThreeItems(Start(token), Mark, v);
    Flat3([token], [0x06], PrintItem(v));
  }

  lemma SwitchedParmBytes(page: Byte, token: Byte, v: Item)
    ensures Print(Parm([Switch(page), Start(token), Mark, v]))
         == [0x87] + [0x00, page] + [token] + [0x06] + PrintItem(v) + [0x01]
  {
    ParmPrint([Switch(page), Start(token), Mark, v]);
    assert [Switch(page), Start(token), Mark, v][1..] == [Start(token), Mark, v];
    ThreeItems(Start(token), Mark, v);
    Flat4([0x00, page], [token], [0x06], PrintItem(v));
  }

  lemma Flat3(a: seq<Byte>, b: seq<Byte>, c: seq<Byte>)
    ensures [0x87] + (a + (b + c)) + [0x01] == [0x87] + a + b + c + [0x01]
  {
  }

  lemma Flat4(a: seq<Byte>, b: seq<Byte>, c: seq<Byte>, d: seq<Byte>)
    ensures [0x87] + (a + (b + (c + d))) + [0x01] == [0x87] + a + b + c + d + [0x01]
  {
  }

  /** The bytes of a characteristic: its tag and attributes, END, content, END. */
  lemma CharacteristicBytes(items: seq<Item>, content: Parts)
    ensures Print(Characteristic(items, content)) == [0xC6] + PrintItems(items) + [0x01] + PrintParts(content) + [0x01]
  {
  }

  lemma BootstrapBytes(c: Names)
    ensures Print(Bootstrap(c))
         == [0xC6] + [0x56] + [0x01] + ([0x87] + [0x07] + [0x06] + IStr(c.bootstrap) + [0x01]) + [0x01]
  {
    OneItem(Start(0x56));
    ParmBytes(0x07, Inline(c.bootstrap));
    var p := Parm([Start(0x07), Mark, Inline(c.bootstrap)]);
    CharacteristicBytes([Start(0x56)], Kid(p, End));
    assert PrintParts(Kid(p, End)) == Print(p) + [] == Print(p);
  }

  lemma NapStep(ps: seq<(Byte, Item)>, k: nat)
    requires k < |ps|
    ensures PrintParts(NapContent(ps, k))
         == [0x87] + [ps[k].0] + [0x06] + PrintItem(ps[k].1) + [0x01] + PrintParts(NapContent(ps, k + 1))
  {
    ParmBytes(ps[k].0, ps[k].1);
  }

  lemma NapEnd(ps: seq<(Byte, Item)>)
    ensures PrintParts(NapContent(ps, |ps|)) == [0x87, 0x14, 0x01]
  {
    OneItem(Start(0x14));
    assert Print(Parm([Start(0x14)])) == [0x87] + ([0x14] + [0x01]) + [];
  }

  lemma ApplicationBytes(c: Names)
    ensures Print(Application(c))
         == [0xC6] + [0x00, 0x01] + [0x55] + [0x01]
            + ([0x87] + [0x36] + [0x06] + IStr(c.appid) + [0x01])
            + ([0x87] + [0x00, 0x00] + [0x07] + [0x06] + IStr(c.napName) + [0x01])
            + ([0x87] + [0x00, 0x01] + [0x22] + [0x06] + IStr(c.napid) + [0x01])
            + [0x01]
  {
    TwoItems(Switch(1), Start(0x55));
    ParmBytes(0x36, Inline(c.appid));
    SwitchedParmBytes(0, 0x07, Inline(c.napName));
    SwitchedParmBytes(1, 0x22, Inline(c.napid));
    var p := Parm([Start(0x36), Mark, Inline(c.appid)]);
    var q := Parm([Switch(0), Start(0x07), Mark, Inline(c.napName)]);
    var r := Parm([Switch(1), Start(0x22), Mark, Inline(c.napid)]);
    ThreeKids(p, q, r);
    CharacteristicBytes([Switch(1), Start(0x55)], Kid(p, Kid(q, Kid(r, End))));
    Join(Print(p), Print(q), Print(r));
  }

  lemma ThreeKids(p: Node, q: Node, r: Node)
    ensures PrintParts(Kid(p, Kid(q, Kid(r, End)))) == Print(p) + Print(q) + Print(r)
  {
    assert PrintParts(Kid(r, End)) == Print(r);
  }

  lemma Join(p: seq<Byte>, q: seq<Byte>, r: seq<Byte>)
    ensures [0xC6] + ([0x00, 0x01] + [0x55]) + [0x01] + (p + q + r) + [0x01]
         == [0xC6] + [0x00, 0x01] + [0x55] + [0x01] + p + q + r + [0x01]
  {
  }

  /** The bytes of a document with three characteristics and a closing tag-page switch. */
  lemma DocumentBytes(version: string, a: Node, b: Node, c: Node)
    ensures Print(Node(0x05, Some([Start(0x46), Inline(version)]), Some(Kid(a, Kid(b, Kid(c, TagPage(0, End)))))))
         == [0xC5] + [0x46] + IStr(version) + [0x01] + Print(a) + Print(b) + Print(c) + [0x00, 0x00] + [0x01]
  {
    TwoItems(Start(0x46), Inline(version));
    var ps2 := Kid(c, TagPage(0, End));
    assert PrintParts(TagPage(0, End)) == [0x00, 0x00] && PrintParts(ps2) == Print(c) + [0x00, 0x00];
    assert PrintParts(Kid(b, ps2)) == Print(b) + PrintParts(ps2);
    Join5([0x46], IStr(version), Print(a), Print(b), Print(c));
  }

  lemma Join5(v: seq<Byte>, s: seq<Byte>, a: seq<Byte>, b: seq<Byte>, c: seq<Byte>)
    ensures [0xC5] + (v + s + [0x01]) + (a + (b + (c + [0x00, 0x00])) + [0x01])
         == [0xC5] + v + s + [0x01] + a + b + c + [0x00, 0x00] + [0x01]
  {
  }

  lemma Sandwich(start: seq<Byte>, h: seq<Byte>, body: seq<Byte>, e: seq<Byte>)
    ensures start + h + body + e == start + (h + body + e)
  {
  }

  lemma Under(h: seq<Byte>, top: seq<Byte>, a: seq<Byte>, b: seq<Byte>, c: seq<Byte>, z: seq<Byte>, e: seq<Byte>)
    ensures h + top + a + b + c + z + e == h + (top + a + b + c + z + e)
  {
  }

  /** build_wbxml() */
  method BuildWbxml(c: Names, apn: string) returns (r: Built)
    ensures r == if apn == "" then ValueError else Built(WBXML_HEADER + Print(Document(c, apn)))
  {
    if apn == "" {
      return ValueError;
    }
    var b: seq<Byte> := WBXML_HEADER;
    b := b + ([0xC5] + [0x46] + IStr(c.version) + [0x01]);
    b := AppendBootstrap(b, c);
    b := AppendNapdef(b, c, apn);
    b := AppendApplication(b, c);
    b := b + [0x00, 0x00];
    b := b + [0x01];
    DocumentBytes(c.version, Bootstrap(c), Napdef(c, apn), Application(c));
    Under(WBXML_HEADER, [0xC5] + [0x46] + IStr(c.version) + [0x01],
          Print(Bootstrap(c)), Print(Napdef(c, apn)), Print(Application(c)), [0x00, 0x00], [0x01]);
    r := Built(b);
  }

  method AppendBootstrap(start: seq<Byte>, c: Names) returns (b: seq<Byte>)
    ensures b == start + Print(Bootstrap(c))
  {
    BootstrapBytes(c);
    b := start + ([0xC6] + [0x56] + [0x01]);
    b := b + ([0x87] + [0x07] + [0x06] + IStr(c.bootstrap) + [0x01]);
    b := b + [0x01];
    Sandwich(start, [0xC6] + [0x56] + [0x01], [0x87] + [0x07] + [0x06] + IStr(c.bootstrap) + [0x01], [0x01]);
  }

  method AppendApplication(start: seq<Byte>, c: Names) returns (b: seq<Byte>)
    ensures b == start + Print(Application(c))
  {
    ApplicationBytes(c);
    var h: seq<Byte> := [0xC6] + [0x00, 0x01] + [0x55] + [0x01];
    var p: seq<Byte> := [0x87] + [0x36] + [0x06] + IStr(c.appid) + [0x01];
    var q: seq<Byte> := [0x87] + [0x00, 0x00] + [0x07] + [0x06] + IStr(c.napName) + [0x01];
    var r: seq<Byte> := [0x87] + [0x00, 0x01] + [0x22] + [0x06] + IStr(c.napid) + [0x01];
    b := start + h;
    b := b + p;
    b := b + q;
    b := b + r;
    b := b + [0x01];
    Under(start, h, p, q, r, [], [0x01]);
    assert start + h + p + q + r + [] == start + h + p + q + r && h + p + q + r + [] == h + p + q + r;
  }

  method AppendNapdef(start: seq<Byte>, c: Names, apn: string) returns (b: seq<Byte>)
    ensures b == start + Print(Napdef(c, apn))
  {
    OneItem(Start(0x55));
    CharacteristicBytes([Start(0x55)], NapContent(NapParms(c, apn), 0));
    b := start + ([0xC6] + [0x55] + [0x01]);
    b := AppendParms(b, c, apn);
    b := b + [0x01];
    Sandwich(start, [0xC6] + [0x55] + [0x01], PrintParts(NapContent(NapParms(c, apn), 0)), [0x01]);
  }

  /** The parms of NAPDEF: the loop over those with values, and the flag. */
  method AppendParms(start: seq<Byte>, c: Names, apn: string) returns (b: seq<Byte>)
    ensures b == start + PrintParts(NapContent(NapParms(c, apn), 0))
  {
    ghost var ps := NapParms(c, apn);
    var parms: seq<(Byte, seq<Byte>)> :=
      [(0x11, IStr(c.napid)), (0x10, [0xAB]), (0x07, IStr(c.napName)), (0x08, IStr(apn)), (0x09, [0x89])];
    b := start;
    for k := 0 to |parms|
      invariant b + PrintParts(NapContent(ps, k)) == start + PrintParts(NapContent(ps, 0))
    {
      NapStep(ps, k);
      assert parms[k].0 == ps[k].0 && parms[k].1 == PrintItem(ps[k].1);
      Regroup2(b, [0x87] + [parms[k].0] + [0x06] + parms[k].1 + [0x01], PrintParts(NapContent(ps, k + 1)));
      b := b + ([0x87] + [parms[k].0] + [0x06] + parms[k].1 + [0x01]);
    }
    NapEnd(ps);
    b := b + [0x87, 0x14, 0x01];
  }

  lemma Regroup2(a: seq<Byte>, b: seq<Byte>, c: seq<Byte>)
    ensures a + (b + c) == a + b + c
  {
  }
}
