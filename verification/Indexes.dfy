/** src/btree/index.rs: index entries of documents, and the uniqueness checks over them. */
module Indexes {
  import opened Bytes
  import opened Disk
  import opened Nodes
  import opened Values
  import opened KeyOrder
  import Layout

  /** The fields of an index: one, or several for a compound index. */
  const EMPTY: Text := []

  type Name = n: seq<Text> | |n| > 0 witness [EMPTY]

  type Docs = imap<DocId, Option<Document>>

  datatype Slot = Slot(key: Bytes, doc: DocId)

  /** The key of a document in an index; None if it lacks one of the fields. */
  function KeyFor(name: Name, d: Document): Option<Bytes> {
    if |name| == 1 then if name[0] in d then SerializeKey(d[name[0]]) else None
    else CompoundKey(name, d)
  }

  /** Arrays, documents and NaN in an indexed field have no key. */
  predicate Keyable(name: Name, d: Document) {
    forall f :: f in name && f in d ==> Indexable(d[f])
  }

  // an index as its slots in leaf order

  predicate Before(a: Slot, b: Slot) { SlotLt(a.key, a.doc, b.key, b.doc) }

  ghost predicate Ordered(slots: seq<Slot>) {
    forall i, j :: 0 <= i < j < |slots| ==> Before(slots[i], slots[j])
  }

  lemma BeforeTrans(a: Slot, b: Slot, c: Slot)
    requires Before(a, b) && Before(b, c)
    ensures Before(a, c)
  {
    Layout.SlotLtTrans(a.key, a.doc, b.key, b.doc, c.key, c.doc);
  }

  lemma BeforeTotal(a: Slot, b: Slot)
    ensures Before(a, b) || Before(b, a) || a == b
    ensures !(Before(a, b) && Before(b, a)) && !Before(a, a)
  {
    Layout.SlotLtTotal(a.key, a.doc, b.key, b.doc);
  }

  function Place(slots: seq<Slot>, s: Slot): seq<Slot> {
    if |slots| == 0 then [s]
    else if Before(slots[0], s) then [slots[0]] + Place(slots[1..], s)
    else [s] + slots
  }

  function Drop(slots: seq<Slot>, s: Slot): seq<Slot> {
    if |slots| == 0 then []
    else if slots[0] == s then slots[1..]
    else [slots[0]] + Drop(slots[1..], s)
  }

  function Find(slots: seq<Slot>, key: Bytes): (r: Option<DocId>)
    ensures r.Some? ==> Slot(key, r.value) in slots
    ensures r.None? ==> forall s :: s in slots ==> s.key != key
  {
    if |slots| == 0 then None
    else if slots[0].key == key then Some(slots[0].doc)
    else Find(slots[1..], key)
  }

  /** The slots with a key in the range, in order. */
  function Hits(slots: seq<Slot>, low: Bytes, high: Bytes): seq<Slot> {
    if |slots| == 0 then []
    else (if Le(low, slots[0].key) && Le(slots[0].key, high) then [slots[0]] else []) + Hits(slots[1..], low, high)
  }

  function Range(slots: seq<Slot>, low: Bytes, high: Bytes): seq<DocId> {
    var hits := Hits(slots, low, high);
    seq(|hits|, i requires 0 <= i < |hits| => hits[i].doc)
  }

  lemma OrderedCons(x: Slot, slots: seq<Slot>)
    requires Ordered(slots) && forall s :: s in slots ==> Before(x, s)
    ensures Ordered([x] + slots)
  {
    hide Before;
    var all := [x] + slots;
    forall i, j | 0 <= i < j < |all|
      ensures Before(all[i], all[j])
    {
      assert all[j] == slots[j - 1] && slots[j - 1] in slots;
    }
  }

  lemma OrderedHead(slots: seq<Slot>)
    requires Ordered(slots) && |slots| > 0
    ensures Ordered(slots[1..]) && forall s :: s in slots[1..] ==> Before(slots[0], s)
  {
    hide Before;
  }

  lemma {:induction false} PlaceOrdered(slots: seq<Slot>, s: Slot)
    requires Ordered(slots) && s !in slots
    ensures Ordered(Place(slots, s)) && forall x :: x in Place(slots, s) <==> x in slots || x == s
  {
    hide Before, Ordered;
    if |slots| == 0 {
      OrderedOne(s);
    } else {
      OrderedHead(slots);
      assert slots == [slots[0]] + slots[1..];
      BeforeTotal(slots[0], s);
      if Before(slots[0], s) {
        PlaceOrdered(slots[1..], s);
        OrderedCons(slots[0], Place(slots[1..], s));
      } else {
        forall x | x in slots
          ensures Before(s, x)
        {
          if x != slots[0] {
            BeforeTrans(s, slots[0], x);
          }
        }
        OrderedCons(s, slots);
      }
    }
  }

  lemma OrderedOne(s: Slot)
    ensures Ordered([s]) && Ordered([])
  {
  }

  lemma {:induction false} DropOrdered(slots: seq<Slot>, s: Slot)
    requires Ordered(slots)
    ensures Ordered(Drop(slots, s)) && forall x :: x in Drop(slots, s) <==> x in slots && x != s
  {
    hide Before, Ordered;
    if |slots| > 0 {
      OrderedHead(slots);
      assert slots == [slots[0]] + slots[1..];
      BeforeTotal(slots[0], slots[0]);
      if slots[0] != s {
        DropOrdered(slots[1..], s);
        OrderedCons(slots[0], Drop(slots[1..], s));
      }
    } else {
      OrderedOne(s);
    }
  }

  // documents and their entries

  ghost predicate Live(docs: Docs, id: DocId) { id in docs && docs[id].Some? }

  ghost predicate HasKey(docs: Docs, name: Name, s: Slot) {
    Live(docs, s.doc) && KeyFor(name, docs[s.doc].value) == Some(s.key)
  }

  /** The index holds exactly the keys of the live documents that have its fields. */
  ghost predicate InStep(docs: Docs, name: Name, slots: seq<Slot>) {
    Ordered(slots) && forall s :: s in slots <==> HasKey(docs, name, s)
  }

  function WithDoc(name: Name, slots: seq<Slot>, d: Document, id: DocId): seq<Slot> {
    var k := KeyFor(name, d);
    if k.None? then slots else Place(slots, Slot(k.value, id))
  }

  function WithoutDoc(name: Name, slots: seq<Slot>, d: Document, id: DocId): seq<Slot> {
    var k := KeyFor(name, d);
    if k.None? then slots else Drop(slots, Slot(k.value, id))
  }

  lemma InStepInsert(docs: Docs, name: Name, slots: seq<Slot>, d: Document, id: DocId)
    requires InStep(docs, name, slots) && id !in docs
    ensures InStep(docs[id := Some(d)], name, WithDoc(name, slots, d, id))
  {
    hide KeyFor, Ordered, Before;
    var k := KeyFor(name, d);
    if k.Some? {
      assert !HasKey(docs, name, Slot(k.value, id));
      PlaceOrdered(slots, Slot(k.value, id));
    }
    forall s
      ensures s in WithDoc(name, slots, d, id) <==> HasKey(docs[id := Some(d)], name, s)
    {
      assert s.doc != id ==> HasKey(docs[id := Some(d)], name, s) == HasKey(docs, name, s);
      assert s in slots <==> HasKey(docs, name, s);
    }
  }

  lemma InStepDelete(docs: Docs, name: Name, slots: seq<Slot>, d: Document, id: DocId)
    requires InStep(docs, name, slots) && id in docs && docs[id] == Some(d)
    ensures InStep(docs[id := None], name, WithoutDoc(name, slots, d, id))
  {
    hide KeyFor, Ordered, Before;
    var k := KeyFor(name, d);
    if k.Some? {
      DropOrdered(slots, Slot(k.value, id));
    }
    forall s
      ensures s in WithoutDoc(name, slots, d, id) <==> HasKey(docs[id := None], name, s)
    {
      assert s.doc != id ==> HasKey(docs[id := None], name, s) == HasKey(docs, name, s);
      assert s in slots <==> HasKey(docs, name, s);
    }
  }

  // uniqueness

  /** Another live document than `except` has the key d would have. */
  ghost predicate Clash(docs: Docs, name: Name, d: Document, except: Option<DocId>) {
    KeyFor(name, d).Some? && exists id :: ClashesWith(docs, name, d, except, id)
  }

  ghost predicate ClashesWith(docs: Docs, name: Name, d: Document, except: Option<DocId>, id: DocId) {
    Live(docs, id) && Some(id) != except && KeyFor(name, docs[id].value) == KeyFor(name, d)
  }

  /** No two live documents share a key. */
  ghost predicate Unique(docs: Docs, name: Name) {
    forall id :: Live(docs, id) ==> !Clash(docs, name, docs[id].value, Some(id))
  }

  /** Looking the key up once decides the clash, because at most one document has it. */
  lemma FindDecides(docs: Docs, name: Name, slots: seq<Slot>, d: Document, except: Option<DocId>)
    requires InStep(docs, name, slots) && Unique(docs, name) && KeyFor(name, d).Some?
    ensures var f := Find(slots, KeyFor(name, d).value);
      (f.Some? && f != except) <==> Clash(docs, name, d, except)
  {
    hide KeyFor, Ordered;
    var k := KeyFor(name, d).value;
    var f := Find(slots, k);
    if f.Some? {
      assert HasKey(docs, name, Slot(k, f.value));
      if f != except {
        assert ClashesWith(docs, name, d, except, f.value);
      } else {
        var e := docs[f.value].value;
        assert !Clash(docs, name, e, Some(f.value));
        assert forall id :: ClashesWith(docs, name, d, except, id) ==> ClashesWith(docs, name, e, Some(f.value), id);
      }
    }
    if Clash(docs, name, d, except) {
      var id :| ClashesWith(docs, name, d, except, id);
      assert HasKey(docs, name, Slot(k, id));
    }
  }

  lemma UniqueInsert(docs: Docs, name: Name, d: Document, id: DocId)
    requires Unique(docs, name) && !Clash(docs, name, d, None) && id !in docs
    ensures Unique(docs[id := Some(d)], name)
  {
    hide KeyFor;
    var docs' := docs[id := Some(d)];
    forall x | Live(docs', x)
      ensures !Clash(docs', name, docs'[x].value, Some(x))
    {
      assert x != id ==> !Clash(docs, name, docs[x].value, Some(x));
      assert x != id && KeyFor(name, d).Some? ==> !ClashesWith(docs, name, d, None, x);
      assert forall y :: ClashesWith(docs', name, docs'[x].value, Some(x), y) && x != id && y != id ==>
        ClashesWith(docs, name, docs[x].value, Some(x), y);
      assert forall y :: ClashesWith(docs', name, docs'[x].value, Some(x), y) && x == id ==> ClashesWith(docs, name, d, None, y);
    }
  }

  lemma UniqueDelete(docs: Docs, name: Name, id: DocId)
    requires Unique(docs, name)
    ensures Unique(docs[id := None], name)
  {
    hide KeyFor;
    var docs' := docs[id := None];
    forall x | Live(docs', x)
      ensures !Clash(docs', name, docs'[x].value, Some(x))
    {
      assert !Clash(docs, name, docs[x].value, Some(x));
      assert forall y :: ClashesWith(docs', name, docs'[x].value, Some(x), y) ==> ClashesWith(docs, name, docs[x].value, Some(x), y);
    }
  }

  /** Storing one document creates a clash for another exactly if the two have the same key. */
  lemma ClashInsert(docs: Docs, name: Name, d: Document, id: DocId, e: Document)
    requires id !in docs && !Clash(docs, name, e, None) && !(KeyFor(name, d).Some? && KeyFor(name, d) == KeyFor(name, e))
    ensures !Clash(docs[id := Some(d)], name, e, None)
  {
    hide KeyFor;
    var docs' := docs[id := Some(d)];
    assert forall y :: ClashesWith(docs', name, e, None, y) && y != id ==> ClashesWith(docs, name, e, None, y);
  }

  /** Removing the row that was exempt leaves no clash at all. */
  lemma ClashAfterDelete(docs: Docs, name: Name, e: Document, id: DocId)
    requires !Clash(docs, name, e, Some(id))
    ensures !Clash(docs[id := None], name, e, None)
  {
    hide KeyFor;
    var docs' := docs[id := None];
    assert forall y :: ClashesWith(docs', name, e, None, y) ==> ClashesWith(docs, name, e, Some(id), y);
  }

  // uniqueness on values

  /** Both documents have all the fields, with equal values that have a key. */
  ghost predicate Twins(name: Name, d: Document, e: Document) {
    forall f :: f in name ==> f in d && f in e && Plain(d[f]) && d[f] == e[f]
  }

  /** A document has a key in an index iff it has all of its fields, with values that have a key. */
  lemma KeyHas(name: Name, d: Document)
    ensures KeyFor(name, d).Some? <==> forall f :: f in name ==> f in d && Plain(d[f])
  {
    hide CompoundKey, SerializeKey, Plain;
    CompoundHas(name, d);
    if |name| == 1 {
      assert forall f :: f in name <==> f == name[0];
      if name[0] in d {
        PlainIsIndexable(d[name[0]]);
      }
    }
  }

  /** Two documents have the same key iff their values in the fields of the index are equal. */
  lemma KeyMeans(name: Name, d: Document, e: Document)
    requires PartsFit(name, d) && PartsFit(name, e)
    ensures KeyFor(name, d).Some? && KeyFor(name, d) == KeyFor(name, e) <==> Twins(name, d, e)
  {
    hide CompoundKey, SerializeKey, Plain;
    KeyHas(name, d);
    KeyHas(name, e);
    if KeyFor(name, d).Some? && KeyFor(name, e).Some? {
      if |name| == 1 {
        assert forall f :: f in name <==> f == name[0];
        KeyOrder.KeyOrder(d[name[0]], e[name[0]]);
      } else {
        CompoundUnique(name, d, e);
      }
    }
  }

  /** A live document other than the exempt one has the values of d. */
  ghost predicate HasTwin(docs: Docs, name: Name, d: Document, except: Option<DocId>) {
    exists id :: IsTwin(docs, name, d, except, id)
  }

  ghost predicate IsTwin(docs: Docs, name: Name, d: Document, except: Option<DocId>, id: DocId) {
    Live(docs, id) && Some(id) != except && Twins(name, d, docs[id].value)
  }

  ghost predicate NoTwins(docs: Docs, name: Name) {
    forall id, other :: Live(docs, id) && Live(docs, other) && id != other ==> !Twins(name, docs[id].value, docs[other].value)
  }

  ghost predicate AllPartsFit(docs: Docs, name: Name) {
    forall id :: Live(docs, id) ==> PartsFit(name, docs[id].value)
  }

  lemma ClashIsTwin(docs: Docs, name: Name, d: Document, except: Option<DocId>)
    requires AllPartsFit(docs, name) && PartsFit(name, d)
    ensures Clash(docs, name, d, except) <==> HasTwin(docs, name, d, except)
  {
    hide KeyFor, Twins, PartsFit;
    forall id | Live(docs, id)
      ensures KeyFor(name, d).Some? && ClashesWith(docs, name, d, except, id) <==> IsTwin(docs, name, d, except, id)
    {
      KeyMeans(name, d, docs[id].value);
    }
  }

  lemma UniqueIsNoTwins(docs: Docs, name: Name)
    requires AllPartsFit(docs, name)
    ensures Unique(docs, name) <==> NoTwins(docs, name)
  {
    hide KeyFor, Twins, PartsFit, Clash;
    forall id | Live(docs, id)
      ensures Clash(docs, name, docs[id].value, Some(id)) <==> HasTwin(docs, name, docs[id].value, Some(id))
    {
      ClashIsTwin(docs, name, docs[id].value, Some(id));
    }
    if !NoTwins(docs, name) {
      var id, other :| Live(docs, id) && Live(docs, other) && id != other && Twins(name, docs[id].value, docs[other].value);
      assert IsTwin(docs, name, docs[id].value, Some(id), other);
    }
  }
}
