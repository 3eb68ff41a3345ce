/**
 Loading the configuration: a file of JSON documents, one after the other, the first of them
 the publisher's (`ih-pid` 0) and each of the others a subscriber's, which joins the
 publisher's ring at the end.
 */
module Config {
  import opened Base
  import opened Values
  import opened Parser
  import opened Grammar
  import opened Language
  import opened Rings

  // ---------- one document ----------

  const IH_NAME: bytes := [105, 104, 45, 110, 97, 109, 101]
  const IH_PID: bytes := [105, 104, 45, 112, 105, 100]
  const IH_CPU_BIND: bytes := [105, 104, 45, 99, 112, 117, 95, 98, 105, 110, 100]

  function Lower(b: byte): byte { if 65 <= b <= 90 then b + 32 else b }

  predicate SameFolded(a: bytes, b: bytes) {
    |a| == |b| && forall i :: 0 <= i < |a| ==> Lower(a[i]) == Lower(b[i])
  }

  /** `cJSON_GetObjectItem`: the first member whose name is the same but for case; unnamed ones are passed over. */
  function Find(xs: Items, name: bytes): Items {
    if xs.Nil? || (xs.name.Some? && SameFolded(name, xs.name.value)) then xs else Find(xs.next, name)
  }

  /** The member that is used: the one found, if its name is exactly the key. */
  function Setting(v: Value, key: bytes): Option<Value> {
    var found := Find(Kids(v), key);
    if found.Cons? && found.name == Some(key) then Some(found.value) else None
  }

  /** `valueint` of a node. */
  function IntField(v: Value): int {
    match v
    case Number(d) => ValueInt(d)
    case True => 1
    case _ => 0
  }

  function IntSetting(v: Value, key: bytes): int {
    var w := Setting(v, key);
    if w.Some? then IntField(w.value) else 0
  }

  function NameSetting(v: Value): bytes {
    var w := Setting(v, IH_NAME);
    if w.Some? && w.value.String? then w.value.text else []
  }

  // ---------- what a document says, by the places of its members ----------

  function Size(xs: Items): nat { if xs.Nil? then 0 else 1 + Size(xs.next) }

  /** The member at place `i`. */
  function Member(xs: Items, i: nat): (m: Items)
    requires i < Size(xs)
    ensures m.Cons?
  {
    if i == 0 then xs else Member(xs.next, i - 1)
  }

  /** Equal bytes, or the same letter in two cases. */
  predicate SameLetter(a: byte, b: byte) {
    a == b || (65 <= a <= 90 && b == a + 32) || (65 <= b <= 90 && a == b + 32)
  }

  predicate SameName(a: bytes, b: bytes) { |a| == |b| && forall i :: 0 <= i < |a| ==> SameLetter(a[i], b[i]) }

  /** The member at place `i` bears the name, in whatever case. */
  predicate Bears(xs: Items, i: nat, name: bytes) {
    i < Size(xs) && Member(xs, i).name.Some? && SameName(name, Member(xs, i).name.value)
  }

  /** The first member that bears the name is at place `i`. */
  ghost predicate FirstBearer(xs: Items, i: nat, name: bytes) {
    Bears(xs, i, name) && forall j: nat :: j < i ==> !Bears(xs, j, name)
  }

  /** What the document has under the key: the first bearer's value, if it is spelled exactly so. */
  ghost predicate Has(v: Value, key: bytes, w: Value) {
    exists i: nat :: FirstBearer(Kids(v), i, key) && Member(Kids(v), i).name == Some(key) && Member(Kids(v), i).value == w
  }

  ghost predicate Lacks(v: Value, key: bytes) { forall w :: !Has(v, key, w) }

  lemma LowerIsSameLetter(a: byte, b: byte)
    ensures Lower(a) == Lower(b) <==> SameLetter(a, b)
  {
  }

  lemma FoldedIsSameName(a: bytes, b: bytes)
    ensures SameFolded(a, b) <==> SameName(a, b)
  {
    forall i | 0 <= i < |a| && i < |b| ensures Lower(a[i]) == Lower(b[i]) <==> SameLetter(a[i], b[i]) {
      LowerIsSameLetter(a[i], b[i]);
    }
  }

  lemma {:induction false} FindIsFirst(xs: Items, name: bytes) returns (i: nat)
    ensures i <= Size(xs) && forall j: nat :: j < i ==> !Bears(xs, j, name)
    ensures i < Size(xs) ==> FirstBearer(xs, i, name) && Find(xs, name) == Member(xs, i)
    ensures i == Size(xs) ==> Find(xs, name).Nil?
  {
    i := 0;
    if xs.Cons? {
      if xs.name.Some? {
        FoldedIsSameName(name, xs.name.value);
      }
      if !Bears(xs, 0, name) {
        var k := FindIsFirst(xs.next, name);
        i := k + 1;
        forall j: nat | j < i ensures !Bears(xs, j, name) {
          assert j > 0 ==> (Bears(xs, j, name) <==> Bears(xs.next, j - 1, name));
        }
        assert k < Size(xs.next) ==> Bears(xs, i, name);
      }
    }
  }

  /** A setting is what the document has under its key. */
  lemma SettingIsHad(v: Value, key: bytes)
    ensures forall w :: Has(v, key, w) <==> Setting(v, key) == Some(w)
  {
    var xs := Kids(v);
    var i := FindIsFirst(xs, key);
    forall k: nat | FirstBearer(xs, k, key) ensures k == i {
    }
  }

  /** The node's fields, as its document gives them: integers as they are, `true` as 1, anything else as 0 or the empty name. */
  ghost predicate SaysInt(v: Value, key: bytes, n: int) {
    || (Lacks(v, key) && n == 0)
    || (exists d: real :: Has(v, key, Number(d)) && n == ValueInt(d))
    || (Has(v, key, True) && n == 1)
    || ((exists w :: Has(v, key, w) && !w.Number? && w != True) && n == 0)
  }

  ghost predicate SaysName(v: Value, key: bytes, name: bytes) {
    || Has(v, key, String(name))
    || ((forall t :: !Has(v, key, String(t))) && name == [])
  }

  lemma IntSettingIsSaid(v: Value, key: bytes, n: int)
    ensures SaysInt(v, key, n) <==> n == IntSetting(v, key)
  {
    hide Setting, Has;
    SettingIsHad(v, key);
    if Setting(v, key).Some? {
      assert Has(v, key, Setting(v, key).value);
      if Setting(v, key).value.Number? {
        assert Has(v, key, Number(Setting(v, key).value.num));
      }
    }
  }

  lemma NameSettingIsSaid(v: Value, name: bytes)
    ensures SaysName(v, [105, 104, 45, 110, 97, 109, 101], name) <==> name == NameSetting(v)
  {
    hide Setting, Has;
    SettingIsHad(v, IH_NAME);
    if Setting(v, IH_NAME).Some? && Setting(v, IH_NAME).value.String? {
      assert Has(v, IH_NAME, String(Setting(v, IH_NAME).value.text));
    }
  }

  /** `ih-name`, `ih-pid` and `ih-cpu_bind`. */
  ghost predicate Says(v: Value, name: bytes, id: int, cpu: int) {
    && SaysName(v, [105, 104, 45, 110, 97, 109, 101], name)
    && SaysInt(v, [105, 104, 45, 112, 105, 100], id)
    && SaysInt(v, [105, 104, 45, 99, 112, 117, 95, 98, 105, 110, 100], cpu)
  }

  /** The document's id is 0. */
  ghost predicate Publishes(v: Value) { SaysInt(v, [105, 104, 45, 112, 105, 100], 0) }

  /** In particular: 32-bit numbers and strings are taken as they stand, and what the document lacks is 0 or empty. */
  lemma SaysWhatItHas(v: Value, name: bytes, id: int, cpu: int)
    requires Says(v, name, id, cpu)
    ensures forall d :: IsInt32(d) && Has(v, [105, 104, 45, 112, 105, 100], Number(d)) ==> id as real == d
    ensures forall d :: IsInt32(d) && Has(v, [105, 104, 45, 99, 112, 117, 95, 98, 105, 110, 100], Number(d)) ==> cpu as real == d
    ensures forall t :: Has(v, [105, 104, 45, 110, 97, 109, 101], String(t)) ==> name == t
    ensures Lacks(v, [105, 104, 45, 112, 105, 100]) ==> id == 0
    ensures Lacks(v, [105, 104, 45, 99, 112, 117, 95, 98, 105, 110, 100]) ==> cpu == 0
    ensures Lacks(v, [105, 104, 45, 110, 97, 109, 101]) ==> name == []
    ensures Publishes(v) <==> id == 0
  {
    hide Has, Setting;
    IntSettingIsSaid(v, IH_PID, id);
    IntSettingIsSaid(v, IH_PID, 0);
    IntSettingIsSaid(v, IH_CPU_BIND, cpu);
    NameSettingIsSaid(v, name);
    SettingIsHad(v, IH_PID);
    SettingIsHad(v, IH_CPU_BIND);
    SettingIsHad(v, IH_NAME);
  }

  class PubSubNode {
    const name: bytes
    const id: int
    const cpu: int
    const link: ListHead
    var linksNum: int

    /** `get_icehydra_json_node`, without the shared memory. */
    constructor (json: Value)
      ensures Describes(json) && fresh(link) && linksNum == 0
    {
      name := NameSetting(json);
      id := IntSetting(json, IH_PID);
      cpu := IntSetting(json, IH_CPU_BIND);
      linksNum := 0;
      link := new ListHead();
      new;
      NameSettingIsSaid(json, name);
      IntSettingIsSaid(json, IH_PID, id);
      IntSettingIsSaid(json, IH_CPU_BIND, cpu);
    }

    /** The node carries what its document says. */
    ghost predicate Describes(json: Value) { Says(json, name, id, cpu) }
  }

  // ---------- the documents of a file ----------

  lemma DocumentAdvances(c: bytes)
    requires Terminated(c)
    ensures ParseDocument(c, false).Ok? ==> |ParseDocument(c, false).rest| < |c|
  {
  }

  /** The values that repeated parsing finds, up to the first place where it fails. */
  function Documents(c: bytes): seq<Value>
    requires Terminated(c)
    decreases |c|
  {
    DocumentAdvances(c);
    match ParseDocument(c, false)
    case Ok(v, rest) => [v] + Documents(rest)
    case Fail(_) => []
  }

  /** What the parser sees of a file: everything before its first NUL, as `strlen` measures it. */
  function Content(file: bytes): (c: bytes)
    ensures Terminated(c) && NUL !in c[..|c| - 1]
  {
    CString(file) + [NUL]
  }

  datatype Document = Document(lead: bytes, tree: Tree)

  predicate IsObjectDocument(d: Document) {
    Blanks(d.lead) && d.tree.Group? && d.tree.named && WellFormed(d.tree) && Depth(d.tree) <= NESTING_LIMIT
  }

  predicate AllObjects(ds: seq<Document>) { forall i :: 0 <= i < |ds| ==> IsObjectDocument(ds[i]) }

  /** Object texts with blanks before each of them, and blanks behind the last. */
  function FileText(ds: seq<Document>, trail: bytes): bytes
    requires AllObjects(ds)
  {
    if ds == [] then trail else ds[0].lead + (Flatten(ds[0].tree) + FileText(ds[1..], trail))
  }

  function MeaningsOf(ds: seq<Document>): (vs: seq<Value>)
    requires AllObjects(ds)
    ensures |vs| == |ds|
  {
    if ds == [] then [] else [Meaning(ds[0].tree)] + MeaningsOf(ds[1..])
  }

  lemma FirstDocument(d: Document, rest: bytes)
    requires IsObjectDocument(d) && Terminated(rest)
    ensures var c := d.lead + (Flatten(d.tree) + rest);
      Terminated(c) && ParseDocument(c, false) == Ok(Meaning(d.tree), rest)
  {
    var s := Flatten(d.tree) + rest;
    var c := d.lead + s;
    FlattenStarts(d.tree, rest);
    assert c[0] == if d.lead == [] then LBRACE else d.lead[0];
    NoMark(c);
    SkipBlanks(d.lead, s);
    Complete(d.tree, rest, 0);
  }

  lemma NoMark(c: bytes)
    requires c != [] && c[0] != BOM[0]
    ensures SkipBom(c) == c
  {
    assert |c| > 4 ==> c[..3][0] == c[0];
  }

  lemma NoDocument(tail: bytes)
    requires Blanks(tail) && Terminated(tail)
    ensures Documents(tail) == []
  {
    NoMark(tail);
    EndOfDocument(tail);
    NotAWord([NUL]);
  }

  /** The documents of a text are the values of its objects, in order. */
  lemma {:induction false} TextDocuments(ds: seq<Document>, trail: bytes)
    requires AllObjects(ds) && Blanks(trail)
    ensures Terminated(FileText(ds, trail) + [NUL]) && Documents(FileText(ds, trail) + [NUL]) == MeaningsOf(ds)
  {
    if ds == [] {
      NoDocument(trail + [NUL]);
    } else {
      var rest := FileText(ds[1..], trail);
      TextDocuments(ds[1..], trail);
      FirstDocument(ds[0], rest + [NUL]);
      Assoc(Flatten(ds[0].tree), rest, [NUL]);
      Assoc(ds[0].lead, Flatten(ds[0].tree) + rest, [NUL]);
    }
  }

  /**
   A file that starts with the text of some objects, and ends there or goes on with a NUL: its
   documents are those objects, whatever stands behind the NUL.
   */
  lemma FileDocuments(file: bytes, ds: seq<Document>, trail: bytes)
    requires AllObjects(ds) && Blanks(trail) && StartsAsText(file, FileText(ds, trail))
    ensures Documents(Content(file)) == MeaningsOf(ds)
  {
    TextDocuments(ds, trail);
    TextIsCString(file, FileText(ds, trail));
  }

  /** `text` is what C string functions see of the file. */
  predicate StartsAsText(file: bytes, text: bytes) {
    NUL !in text && text <= file && (|text| < |file| ==> file[|text|] == NUL)
  }

  lemma TextIsCString(file: bytes, text: bytes)
    requires StartsAsText(file, text)
    ensures CString(file) == text
  {
    if |text| == |file| {
      CStringOfClean(text);
    } else {
      CStringTerminated(text, file[|text| + 1..]);
      assert file == text + [NUL] + file[|text| + 1..];
    }
  }

  // ---------- loading ----------

  function Links(ns: seq<PubSubNode>): (ls: seq<ListHead>)
    ensures |ls| == |ns| && forall i :: 0 <= i < |ns| ==> ls[i] == ns[i].link
  {
    seq(|ns|, i requires 0 <= i < |ns| => ns[i].link)
  }

  datatype Outcome = Loaded | FirstIdNotZero | NoDocumentAtAll

  /** `ns` are the nodes of `docs`, in order. */
  ghost predicate NodesOf(ns: seq<PubSubNode>, docs: seq<Value>) {
    |ns| == |docs| && forall i :: 0 <= i < |ns| ==> ns[i].Describes(docs[i])
  }

  /**
   `get_node_start`. The ring holds the subscribers behind the last document with id 0, in
   file order; the link count is the number of documents less one.
   */
  method GetNodeStart(file: bytes) returns (outcome: Outcome, head: PubSubNode?, ghost ring: seq<PubSubNode>, ghost z: nat)
    ensures outcome == NoDocumentAtAll <==> Documents(Content(file)) == []
    ensures outcome == FirstIdNotZero <==> Documents(Content(file)) != [] && !Publishes(Documents(Content(file))[0])
    ensures outcome == Loaded ==> head != null && z < |Documents(Content(file))| && head.Describes(Documents(Content(file))[z]) && head.id == 0
    ensures outcome == Loaded ==> NodesOf(ring, Documents(Content(file))[z + 1..]) && forall i :: 0 <= i < |ring| ==> ring[i].id != 0
    ensures outcome == Loaded ==> Ring(head.link, Links(ring)) && head.linksNum == |Documents(Content(file))| - 1
  {
    hide Documents, Publishes, Loading;
    var ok, count;
    ok, count, head, ring, z := LoadDocuments(Content(file));
    if !ok {
      return FirstIdNotZero, null, [], 0;
    }
    if head == null {
      return NoDocumentAtAll, null, [], 0;
    }
    LoadingFacts(head, ring, Documents(Content(file)), z);
    head.linksNum := count - 1;
    outcome := Loaded;
  }

  /** The loop over the documents. It ends: each one takes at least a byte. */
  method LoadDocuments(content: bytes) returns (ok: bool, count: nat, head: PubSubNode?, ghost ring: seq<PubSubNode>, ghost z: nat)
    requires Terminated(content)
    ensures ok <==> (Documents(content) != [] ==> Publishes(Documents(content)[0]))
    ensures ok ==> count == |Documents(content)| && (head == null <==> count == 0)
    ensures ok && head != null ==> fresh(head) && Loading(head, ring, Documents(content), z)
  {
    hide ParseDocument, Documents, Publishes, Loading;
    ghost var all := Documents(content);
    ok, count, head, ring, z := true, 0, null, [], 0;
    ghost var seen := [];
    var json := ParseDocument(content, false);
    DocumentsNext(content);
    while json.Ok?
      invariant ok && count == |seen| && (json.Ok? ==> Terminated(json.rest))
      invariant all == seen + if json.Ok? then [json.value] + Documents(json.rest) else []
      invariant count > 0 <==> head != null
      invariant count > 0 ==> Publishes(all[0]) && Loading(head, ring, seen, z)
      invariant head != null ==> fresh(head) && fresh(head.link) && forall i :: 0 <= i < |ring| ==> fresh(ring[i].link)
      decreases json.Ok?, |json.rest|
    {
      ok, head, ring, z := TakeDocument(head, count, json.value, ring, seen, z);
      if !ok {
        return;
      }
      seen := seen + [json.value];
      DocumentsNext(json.rest);
      json := ParseDocument(json.rest, false);
      count := count + 1;
    }
    assert seen + [] == seen;
  }

  /**
   A file of objects, the first with id 0 and the others with ids that are not 0: the ring
   behind the first node holds the nodes of all the others in file order, and its link count
   is their number. Nothing behind a NUL is read.
   */
  method LoadFile(file: bytes, ghost ds: seq<Document>, ghost trail: bytes) returns (head: PubSubNode, ghost ring: seq<PubSubNode>)
    requires AllObjects(ds) && Blanks(trail) && StartsAsText(file, FileText(ds, trail))
    requires ds != [] && forall i :: 0 <= i < |ds| ==> (Publishes(MeaningsOf(ds)[i]) <==> i == 0)
    ensures head.Describes(Meaning(ds[0].tree)) && NodesOf(ring, MeaningsOf(ds)[1..])
    ensures Ring(head.link, Links(ring)) && |ring| == |ds| - 1 && head.linksNum == |ds| - 1
  {
    hide Publishes, Documents, FileText;
    FileDocuments(file, ds, trail);
    var outcome, h; ghost var z;
    outcome, h, ring, z := GetNodeStart(file);
    ghost var docs := MeaningsOf(ds);
    assert docs[0] == Meaning(ds[0].tree);
    SaysWhatItHas(docs[z], h.name, h.id, h.cpu);
    assert Publishes(docs[z]);
    head := h;
  }

  /** One turn: the document's node starts a new ring or joins the present one. */
  method TakeDocument(head: PubSubNode?, count: nat, json: Value, ghost ring: seq<PubSubNode>, ghost seen: seq<Value>, ghost z: nat)
    returns (ok: bool, head': PubSubNode?, ghost ring': seq<PubSubNode>, ghost z': nat)
    requires count == |seen| && (count > 0 <==> head != null) && (head != null ==> Loading(head, ring, seen, z))
    modifies if head != null then {head.link} else {}, if head != null then Links(ring) else []
    ensures ok <==> count > 0 || Publishes(json)
    ensures ok ==> head' != null && Loading(head', ring', seen + [json], z')
    ensures ok ==> (head' == head && head != null) || fresh(head')
    ensures ok ==> (head != null && head'.link == head.link) || fresh(head'.link)
    ensures ok ==> forall i :: 0 <= i < |ring'| ==> fresh(ring'[i].link) || (head' == head && ring'[i] in ring)
  {
    ok, head', ring', z' := true, head, ring, z;
    var node := new PubSubNode(json);
    if count == 0 && node.id != 0 {
      ok := false;
    } else if node.id == 0 {
      InitListHead(node.link);
      head', ring', z' := node, [], count;
      NewRing(node, seen, json);
    } else {
      AddSubscriber(head, node, ring);
      ring' := ring + [node];
      LongerRing(head, node, ring, seen, z, json);
    }
  }

  lemma NewRing(node: PubSubNode, seen: seq<Value>, json: Value)
    requires Ring(node.link, []) && node.Describes(json) && node.id == 0
    ensures Loading(node, [], seen + [json], |seen|)
  {
    assert Links([]) == [];
  }

  lemma LongerRing(head: PubSubNode, node: PubSubNode, ring: seq<PubSubNode>, seen: seq<Value>, z: nat, json: Value)
    requires z < |seen| && head.Describes(seen[z]) && head.id == 0 && NodesOf(ring, seen[z + 1..])
    requires forall i :: 0 <= i < |ring| ==> ring[i].id != 0
    requires node.Describes(json) && node.id != 0 && Ring(head.link, Links(ring + [node]))
    ensures Loading(head, ring + [node], seen + [json], z)
  {
    assert (seen + [json])[z + 1..] == seen[z + 1..] + [json];
  }

  lemma LoadingFacts(head: PubSubNode, ring: seq<PubSubNode>, seen: seq<Value>, z: nat)
    requires Loading(head, ring, seen, z)
    ensures z < |seen| && head.Describes(seen[z]) && head.id == 0 && NodesOf(ring, seen[z + 1..])
    ensures (forall i :: 0 <= i < |ring| ==> ring[i].id != 0) && Ring(head.link, Links(ring))
  {
  }

  lemma DocumentsNext(c: bytes)
    requires Terminated(c)
    ensures var r := ParseDocument(c, false);
      && (r.Ok? ==> Terminated(r.rest) && |r.rest| < |c| && Documents(c) == [r.value] + Documents(r.rest))
      && (r.Fail? ==> Documents(c) == [])
  {
    DocumentAdvances(c);
  }

  /** The ring after some documents. */
  ghost predicate Loading(head: PubSubNode?, ring: seq<PubSubNode>, seen: seq<Value>, z: nat)
    reads if head != null then {head.link} else {}, Links(ring)
  {
    && head != null && z < |seen| && head.Describes(seen[z]) && head.id == 0
    && NodesOf(ring, seen[z + 1..]) && (forall i :: 0 <= i < |ring| ==> ring[i].id != 0)
    && Ring(head.link, Links(ring))
  }

  method AddSubscriber(head: PubSubNode, node: PubSubNode, ghost ring: seq<PubSubNode>)
    requires Ring(head.link, Links(ring)) && node.link != head.link && node.link !in Links(ring)
    modifies node.link, head.link, Links(ring)
    ensures Ring(head.link, Links(ring + [node]))
  {
    ListAddTail(node.link, head.link, Links(ring));
    assert Links(ring + [node]) == Links(ring) + [node.link];
  }
}
