/**
 * Values on their way through a `jsonb` column: `JSON.stringify` asks `toJSON` first, drops fields that
 * come to undefined and writes null for what else JSON cannot say; the column forgets the order of keys.
 */
module JsonStore {
  import opened JsText
  import opened Json
  import opened Sequences
  import opened Sorting
  import JsonReader

  /** Does `JSON.stringify` of the value come to undefined? */
  predicate Gone(v: Js) {
    v == Undefined || v == Code || (v.Custom? && (v.json == Undefined || v.json == Code))
  }

  /** The value `JSON.parse(JSON.stringify(v))`, fields still in their original order. */
  function Stored(v: Js): Js
    decreases v, 1
  {
    match v
    case Num(NegativeZero) => Num(Finite(ZERO_TEXT))
    case Num(NonFinite) => Null
    case Arr(elems) => Arr(StoredElems(elems))
    case Obj(fields) => Obj(StoredFields(fields))
    case Custom(_, json) => Stored(json)
    case _ => v
  }

  function StoredElems(elems: seq<Js>): seq<Js>
    decreases elems, 0
  {
    if elems == [] then []
    else [if Gone(elems[0]) then Null else Stored(elems[0])] + StoredElems(elems[1..])
  }

  function StoredFields(fields: seq<Field>): seq<Field>
    decreases fields, 0
  {
    if fields == [] then []
    else
      var rest := StoredFields(fields[1..]);
      if Gone(fields[0].val) then rest else [Field(fields[0].key, Stored(fields[0].val))] + rest
  }

  /** Neither undefined nor a function stands in an array, nor a function in a field, at any depth. */
  predicate HoleFree(v: Js) {
    match v
    case Arr(elems) => forall i :: 0 <= i < |elems| ==> elems[i] != Undefined && elems[i] != Code && HoleFree(elems[i])
    case Obj(fields) => forall i :: 0 <= i < |fields| ==> fields[i].val != Code && HoleFree(fields[i].val)
    case _ => true
  }

  /**
   * Object keys are unique at every depth, as `Object.entries` guarantees, and what `toJSON` returns is
   * taken as it is: it is not asked for its own `toJSON`.
   */
  predicate WellKeyed(v: Js) {
    match v
    case Arr(elems) => forall i :: 0 <= i < |elems| ==> WellKeyed(elems[i])
    case Obj(fields) => UniqueKeys(fields, FieldKey) && forall i :: 0 <= i < |fields| ==> WellKeyed(fields[i].val)
    case Custom(own, json) =>
      && UniqueKeys(own, FieldKey) && (forall i :: 0 <= i < |own| ==> WellKeyed(own[i].val))
      && !json.Custom? && WellKeyed(json)
    case _ => true
  }

  /** A JSON document: a value that can come out of `JSON.parse`. */
  predicate IsDocument(v: Js) {
    v != Undefined && v != Code && Normal(v) && HoleFree(v) && WellKeyed(v)
  }

  function Keys(fields: seq<Field>): set<Text> {
    set f | f in fields :: f.key
  }

  /** Equal up to the order of object keys: all that a `jsonb` column promises to keep. */
  ghost predicate SameDocument(a: Js, b: Js)
    decreases a
  {
    match (a, b)
    case (Arr(ea), Arr(eb)) =>
      |ea| == |eb| && forall i :: 0 <= i < |ea| ==> SameDocument(ea[i], eb[i])
    case (Obj(fa), Obj(fb)) =>
      && Keys(fa) == Keys(fb)
      && forall i, j :: 0 <= i < |fa| && 0 <= j < |fb| && fa[i].key == fb[j].key ==>
                          SameDocument(fa[i].val, fb[j].val)
    case _ => a == b
  }

  // ---------------------------------------------------------------------------
  // Storing yields a document, and its text reads back to it
  // ---------------------------------------------------------------------------

  lemma {:induction false} StoredFieldsFrom(fields: seq<Field>, k: int)
    requires 0 <= k < |StoredFields(fields)|
    ensures exists i :: 0 <= i < |fields| && !Gone(fields[i].val) &&
                        StoredFields(fields)[k] == Field(fields[i].key, Stored(fields[i].val))
  {
    var rest := StoredFields(fields[1..]);
    if !Gone(fields[0].val) && k == 0 {
    } else {
      var k' := if Gone(fields[0].val) then k else k - 1;
      StoredFieldsFrom(fields[1..], k');
      var i :| 0 <= i < |fields[1..]| && !Gone(fields[1..][i].val) &&
               rest[k'] == Field(fields[1..][i].key, Stored(fields[1..][i].val));
      assert fields[i + 1] == fields[1..][i];
    }
  }

  lemma {:induction false} StoredUnique(fields: seq<Field>)
    requires UniqueKeys(fields, FieldKey)
    ensures UniqueKeys(StoredFields(fields), FieldKey)
  {
    if fields == [] {
    } else {
      StoredUnique(fields[1..]);
      var rest := StoredFields(fields[1..]);
      forall j | 0 <= j < |rest| ensures rest[j].key != fields[0].key {
        StoredFieldsFrom(fields[1..], j);
      }
    }
  }

  lemma {:induction false} StoredElemsAt(elems: seq<Js>)
    ensures |StoredElems(elems)| == |elems|
    ensures forall i :: 0 <= i < |elems| ==>
              StoredElems(elems)[i] == if Gone(elems[i]) then Null else Stored(elems[i])
  {
    if elems == [] {
    } else {
      StoredElemsAt(elems[1..]);
    }
  }

  lemma {:induction false} StoredIsDocument(v: Js)
    requires !Gone(v) && WellKeyed(v)
    ensures IsDocument(Stored(v))
    decreases v
  {
    match v
    case Arr(elems) =>
      StoredElemsAt(elems);
      forall i | 0 <= i < |elems| && !Gone(elems[i]) ensures IsDocument(Stored(elems[i])) {
        StoredIsDocument(elems[i]);
      }
      var es := StoredElems(elems);
      assert forall i :: 0 <= i < |es| ==> IsDocument(es[i]);
      assert es != [Undefined] by { assert |es| == 1 ==> es[0] != Undefined; }
    case Obj(fields) =>
      StoredUnique(fields);
      forall i | 0 <= i < |fields| && !Gone(fields[i].val) ensures IsDocument(Stored(fields[i].val)) {
        StoredIsDocument(fields[i].val);
      }
      var fs := StoredFields(fields);
      forall k | 0 <= k < |fs| ensures IsDocument(fs[k].val) {
        StoredFieldsFrom(fields, k);
      }
    case Custom(_, json) => StoredIsDocument(json);
    case _ =>
  }

  /** The column text `JSON.stringify` writes parses to the stored document. */
  lemma ColumnRoundTrip(v: Js)
    requires !Gone(v) && WellKeyed(v)
    ensures JsonReader.ReadValue(Print(Stored(v))) == Some((Stored(v), []))
  {
    StoredIsDocument(v);
    JsonReader.ReadPrinted(Stored(v), []);
    assert Print(Stored(v)) + [] == Print(Stored(v));
  }

  // ---------------------------------------------------------------------------
  // Canonical text is exactly the document
  // ---------------------------------------------------------------------------

  lemma {:induction false} NormFieldsMember(fields: seq<Field>, q: Field)
    requires forall i :: 0 <= i < |fields| ==> fields[i].val != Undefined
    ensures q in NormFields(fields) <==>
            exists i :: 0 <= i < |fields| && q == Field(fields[i].key, Norm(fields[i].val))
  {
    if fields == [] {
    } else {
      NormFieldsMember(fields[1..], q);
      assert NormFields(fields) == [Field(fields[0].key, Norm(fields[0].val))] + NormFields(fields[1..]);
      if i :| 0 <= i < |fields[1..]| && q == Field(fields[1..][i].key, Norm(fields[1..][i].val)) {
        assert fields[i + 1] == fields[1..][i];
      }
      if i :| 0 <= i < |fields| && q == Field(fields[i].key, Norm(fields[i].val)) {
        assert i > 0 ==> fields[1..][i - 1] == fields[i];
      }
    }
  }

  lemma {:induction false} NormUnique(fields: seq<Field>)
    requires UniqueKeys(fields, FieldKey)
    requires forall i :: 0 <= i < |fields| ==> fields[i].val != Undefined
    ensures |NormFields(fields)| == |fields|
    ensures forall i :: 0 <= i < |fields| ==> NormFields(fields)[i].key == fields[i].key
    ensures UniqueKeys(NormFields(fields), FieldKey)
  {
    if fields == [] {
    } else {
      NormUnique(fields[1..]);
    }
  }

  lemma {:induction false} NormElemsAt(elems: seq<Js>)
    ensures |NormElems(elems)| == |elems|
    ensures forall i :: 0 <= i < |elems| && elems[i] != Code ==> NormElems(elems)[i] == Norm(elems[i])
  {
    if elems == [] {
    } else {
      NormElemsAt(elems[1..]);
    }
  }

  lemma FieldAt(fields: seq<Field>, key: Text) returns (i: nat)
    requires key in Keys(fields)
    ensures i < |fields| && fields[i].key == key
  {
    var f :| f in fields && f.key == key;
    i :| 0 <= i < |fields| && fields[i] == f;
  }

  /** Documents with the same content normalise alike, whatever their key order. */
  lemma {:induction false} SameDocumentNorm(a: Js, b: Js)
    requires IsDocument(a) && IsDocument(b) && SameDocument(a, b)
    ensures Norm(a) == Norm(b)
    decreases a
  {
    match (a, b)
    case (Arr(ea), Arr(eb)) =>
      NormElemsAt(ea);
      NormElemsAt(eb);
      forall i | 0 <= i < |ea| ensures Norm(ea[i]) == Norm(eb[i]) {
        SameDocumentNorm(ea[i], eb[i]);
      }
      assert NormElems(ea) == NormElems(eb);
    case (Obj(fa), Obj(fb)) =>
      forall i, j | 0 <= i < |fa| && 0 <= j < |fb| && fa[i].key == fb[j].key
        ensures Norm(fa[i].val) == Norm(fb[j].val)
      {
        SameDocumentNorm(fa[i].val, fb[j].val);
      }
      NormUnique(fa);
      NormUnique(fb);
      forall q: Field ensures q in NormFields(fa) <==> q in NormFields(fb) {
        SameMembers(fa, fb, q);
        SameMembers(fb, fa, q);
      }
      SortForgetsOrder(NormFields(fa), NormFields(fb), FieldKey);
    case _ =>
  }

  lemma SameMembers(fa: seq<Field>, fb: seq<Field>, q: Field)
    requires IsDocument(Obj(fa)) && IsDocument(Obj(fb))
    requires Keys(fa) == Keys(fb)
    requires forall i, j :: 0 <= i < |fa| && 0 <= j < |fb| && fa[i].key == fb[j].key ==>
                              Norm(fa[i].val) == Norm(fb[j].val)
    ensures q in NormFields(fa) ==> q in NormFields(fb)
  {
    NormFieldsMember(fa, q);
    NormFieldsMember(fb, q);
    if q in NormFields(fa) {
      var i :| 0 <= i < |fa| && q == Field(fa[i].key, Norm(fa[i].val));
      assert fa[i] in fa;
      var j := FieldAt(fb, fa[i].key);
    }
  }

  /** Conversely, documents with one normal form have the same content. */
  lemma {:induction false} NormSameDocument(a: Js, b: Js)
    requires IsDocument(a) && IsDocument(b) && Norm(a) == Norm(b)
    ensures SameDocument(a, b)
    decreases a
  {
    match (a, b)
    case (Arr(ea), Arr(eb)) =>
      NormElemsAt(ea);
      NormElemsAt(eb);
      forall i | 0 <= i < |ea| ensures SameDocument(ea[i], eb[i]) {
        assert NormElems(ea)[i] == NormElems(eb)[i];
        NormSameDocument(ea[i], eb[i]);
      }
    case (Obj(fa), Obj(fb)) =>
      KeysIncluded(fa, fb);
      KeysIncluded(fb, fa);
      forall i, j | 0 <= i < |fa| && 0 <= j < |fb| && fa[i].key == fb[j].key
        ensures SameDocument(fa[i].val, fb[j].val)
      {
        ValuesMatch(fa, fb, i, j);
        NormSameDocument(fa[i].val, fb[j].val);
      }
    case _ =>
  }

  lemma ValuesMatch(fa: seq<Field>, fb: seq<Field>, i: nat, j: nat)
    requires IsDocument(Obj(fa)) && IsDocument(Obj(fb))
    requires SortByKey(NormFields(fa), FieldKey) == SortByKey(NormFields(fb), FieldKey)
    requires i < |fa| && j < |fb| && fa[i].key == fb[j].key
    ensures Norm(fa[i].val) == Norm(fb[j].val)
  {
    var k := MatchingMember(fa, fb, i);
    SameKeySameIndex(fb, j, k);
  }

  lemma SameKeySameIndex(fields: seq<Field>, j: nat, k: nat)
    requires UniqueKeys(fields, FieldKey)
    requires j < |fields| && k < |fields| && fields[j].key == fields[k].key
    ensures j == k
  {
    assert FieldKey(fields[j]) == FieldKey(fields[k]);
  }

  lemma KeysIncluded(fa: seq<Field>, fb: seq<Field>)
    requires IsDocument(Obj(fa)) && IsDocument(Obj(fb))
    requires SortByKey(NormFields(fa), FieldKey) == SortByKey(NormFields(fb), FieldKey)
    ensures Keys(fa) <= Keys(fb)
  {
    forall k | k in Keys(fa) ensures k in Keys(fb) {
      var i := FieldAt(fa, k);
      var j := MatchingMember(fa, fb, i);
      assert fb[j] in fb;
    }
  }

  lemma MatchingMember(fa: seq<Field>, fb: seq<Field>, i: nat) returns (j: nat)
    requires IsDocument(Obj(fa)) && IsDocument(Obj(fb)) && i < |fa|
    requires SortByKey(NormFields(fa), FieldKey) == SortByKey(NormFields(fb), FieldKey)
    ensures j < |fb| && fb[j].key == fa[i].key && Norm(fb[j].val) == Norm(fa[i].val)
  {
    var q := Field(fa[i].key, Norm(fa[i].val));
    NormFieldsMember(fa, q);
    NormFieldsMember(fb, q);
    SortMember(NormFields(fa), q, FieldKey);
    SortMember(NormFields(fb), q, FieldKey);
    j :| 0 <= j < |fb| && q == Field(fb[j].key, Norm(fb[j].val));
  }

  lemma {:induction false} DocumentHasNoLoneHole(v: Js)
    requires Normal(v)
    ensures NoLoneHole(v) && (v.Arr? ==> !LoneHole(v.elems))
    decreases v
  {
    match v
    case Arr(elems) =>
      forall i | 0 <= i < |elems| ensures NoLoneHole(elems[i]) { DocumentHasNoLoneHole(elems[i]); }
    case Obj(fields) =>
      forall i | 0 <= i < |fields| ensures NoLoneHole(fields[i].val) { DocumentHasNoLoneHole(fields[i].val); }
    case _ =>
  }

  /** On JSON documents the canonical text forgets the key order and nothing else. */
  lemma CanonicalIffSameDocument(a: Js, b: Js)
    requires IsDocument(a) && IsDocument(b)
    ensures Canonicalise(a) == Canonicalise(b) <==> SameDocument(a, b)
  {
    DocumentHasNoLoneHole(a);
    DocumentHasNoLoneHole(b);
    JsonReader.CanonicalInjective(a, b);
    if SameDocument(a, b) { SameDocumentNorm(a, b); }
    if Norm(a) == Norm(b) { NormSameDocument(a, b); }
  }

  // ---------------------------------------------------------------------------
  // Write/read agreement, and what breaks it
  // ---------------------------------------------------------------------------

  /**
   * The value is written as it will be read: no array holds undefined or a function, no field a function,
   * and an object with `toJSON` is turned into just the data of its own fields (which no date is).
   */
  predicate Storable(v: Js) {
    match v
    case Code => false
    case Arr(elems) => forall i :: 0 <= i < |elems| ==> elems[i] != Undefined && Storable(elems[i])
    case Obj(fields) => forall i :: 0 <= i < |fields| ==> Storable(fields[i].val)
    case Custom(own, json) => !Gone(v) && Data(v) == Norm(Stored(json))
    case _ => true
  }

  /** What canonical text tells of a value. */
  function Data(v: Js): Js {
    Norm(JsonReader.Collapse(v))
  }

  function DataFields(fields: seq<Field>): seq<Field> {
    NormFields(JsonReader.CollapseFields(fields))
  }

  function StoredData(fields: seq<Field>): seq<Field> {
    NormFields(StoredFields(fields))
  }

  /** No objects with `toJSON` anywhere. */
  predicate Plain(v: Js) {
    match v
    case Arr(elems) => forall i :: 0 <= i < |elems| ==> Plain(elems[i])
    case Obj(fields) => forall i :: 0 <= i < |fields| ==> Plain(fields[i].val)
    case Custom(_, _) => false
    case _ => true
  }

  /** On plain data being storable is having no holes. */
  lemma {:induction false} PlainStorable(v: Js)
    requires Plain(v) && v != Code
    ensures Storable(v) <==> HoleFree(v)
    decreases v
  {
    match v
    case Arr(elems) =>
      forall i | 0 <= i < |elems| && elems[i] != Code ensures Storable(elems[i]) <==> HoleFree(elems[i]) {
        PlainStorable(elems[i]);
      }
    case Obj(fields) =>
      forall i | 0 <= i < |fields| && fields[i].val != Code
        ensures Storable(fields[i].val) <==> HoleFree(fields[i].val)
      {
        PlainStorable(fields[i].val);
      }
    case _ =>
  }

  /** A date has no fields of its own and is stored as a string, or as null when it is invalid. */
  lemma DateNotStorable(iso: Option<Text>)
    ensures !Storable(Custom([], match iso case Some(t) => Str(t) case None => Null))
  {
  }

  lemma {:induction false} ElemsAgree(elems: seq<Js>)
    requires forall i :: 0 <= i < |elems| ==> WellKeyed(elems[i])
    ensures NormElems(JsonReader.CollapseElems(elems)) == NormElems(StoredElems(elems)) <==>
            forall i :: 0 <= i < |elems| ==> elems[i] != Undefined && Storable(elems[i])
    decreases elems, 0
  {
    if elems == [] {
    } else {
      var e, rest := elems[0], elems[1..];
      StoredAgrees(e);
      ElemsAgree(rest);
      ConsParts(JsonReader.Collapse(e), JsonReader.CollapseElems(rest));
      ConsParts(if Gone(e) then Null else Stored(e), StoredElems(rest));
      CollapseKinds(e);
      if !Gone(e) {
        StoredKinds(e);
      }
      SplitForall(elems);
      ConsEqual(if e == Code then Undefined else Data(e), NormElems(JsonReader.CollapseElems(rest)),
                Norm(if Gone(e) then Null else Stored(e)), NormElems(StoredElems(rest)));
    }
  }

  lemma SplitForall(elems: seq<Js>)
    requires elems != []
    ensures (forall i :: 0 <= i < |elems| ==> elems[i] != Undefined && Storable(elems[i])) <==>
            elems[0] != Undefined && Storable(elems[0])
            && forall i :: 0 <= i < |elems[1..]| ==> elems[1..][i] != Undefined && Storable(elems[1..][i])
  {
    Cons(elems);
  }

  lemma SplitFields(fields: seq<Field>)
    requires fields != []
    ensures (forall i :: 0 <= i < |fields| ==> Storable(fields[i].val)) <==>
            Storable(fields[0].val) && forall i :: 0 <= i < |fields[1..]| ==> Storable(fields[1..][i].val)
  {
    Cons(fields);
  }

  lemma ConsEqual<T>(a: T, s: seq<T>, b: T, t: seq<T>)
    ensures [a] + s == [b] + t <==> a == b && s == t
  {
    ConsParts(a, s);
    ConsParts(b, t);
  }

  lemma CollapseKinds(v: Js)
    ensures JsonReader.Collapse(v) == Undefined <==> v == Undefined
    ensures JsonReader.Collapse(v) == Code <==> v == Code
    ensures Data(v) == Undefined <==> v == Undefined
    ensures Data(v) == Code <==> v == Code
    ensures v.Custom? ==> Data(v).Obj?
  {
  }

  lemma {:induction false} StoredKinds(v: Js)
    requires WellKeyed(v) && !Gone(v)
    ensures Stored(v) != Undefined && Stored(v) != Code && !Stored(v).Custom?
    decreases v
  {
    if v.Custom? {
      StoredKinds(v.json);
    }
  }

  /** Field by field, the data written and the data stored. */
  lemma {:induction false} FieldsAgree(fields: seq<Field>)
    requires forall i :: 0 <= i < |fields| ==> WellKeyed(fields[i].val)
    ensures DataFields(fields) == StoredData(fields) <==> forall i :: 0 <= i < |fields| ==> Storable(fields[i].val)
    decreases fields, 0
  {
    if fields == [] {
    } else {
      var v := fields[0].val;
      StoredAgrees(v);
      FieldsAgree(fields[1..]);
      StoredAligned(fields[1..]);
      SplitFields(fields);
      DataFieldsCons(fields);
      StoredDataCons(fields);
      ConsEqual(Field(fields[0].key, Data(v)), DataFields(fields[1..]),
                Field(fields[0].key, Norm(Stored(v))), StoredData(fields[1..]));
    }
  }

  lemma DataFieldsCons(fields: seq<Field>)
    requires fields != []
    ensures DataFields(fields)
            == (if fields[0].val == Undefined then [] else [Field(fields[0].key, Data(fields[0].val))])
               + DataFields(fields[1..])
  {
    CollapseKinds(fields[0].val);
    ConsParts(Field(fields[0].key, JsonReader.Collapse(fields[0].val)), JsonReader.CollapseFields(fields[1..]));
  }

  lemma StoredDataCons(fields: seq<Field>)
    requires fields != [] && WellKeyed(fields[0].val)
    ensures StoredData(fields)
            == (if Gone(fields[0].val) then [] else [Field(fields[0].key, Norm(Stored(fields[0].val)))])
               + StoredData(fields[1..])
  {
    if !Gone(fields[0].val) {
      StoredKinds(fields[0].val);
      ConsParts(Field(fields[0].key, Stored(fields[0].val)), StoredFields(fields[1..]));
    }
  }

  /** The second list is no longer than the first, and has its keys when it is as long. */
  predicate Aligned(a: seq<Field>, b: seq<Field>) {
    |b| <= |a| && (|a| == |b| ==> forall i :: 0 <= i < |a| ==> a[i].key == b[i].key)
  }

  lemma AlignedCons(p: Field, a: seq<Field>, q: Field, b: seq<Field>)
    requires Aligned(a, b) && p.key == q.key
    ensures Aligned([p] + a, [q] + b) && Aligned([p] + a, b)
  {
  }

  lemma UniqueCons(p: Field, a: seq<Field>)
    requires UniqueKeys(a, FieldKey) && p.key !in Keys(a)
    ensures UniqueKeys([p] + a, FieldKey) && Keys([p] + a) == {p.key} + Keys(a)
  {
    forall i | 0 <= i < |a|
      ensures a[i].key != p.key
    {
      assert a[i] in a;
    }
    forall f: Field
      ensures f in [p] + a <==> f == p || f in a
    {
    }
  }

  lemma KeysCons(fields: seq<Field>)
    requires fields != []
    ensures Keys(fields) == {fields[0].key} + Keys(fields[1..])
    ensures UniqueKeys(fields, FieldKey) ==> UniqueKeys(fields[1..], FieldKey) && fields[0].key !in Keys(fields[1..])
  {
    Cons(fields);
    forall f: Field
      ensures f in fields <==> f == fields[0] || f in fields[1..]
    {
      assert f in fields <==> f in [fields[0]] + fields[1..];
    }
    forall i | UniqueKeys(fields, FieldKey) && 0 <= i < |fields[1..]|
      ensures fields[1..][i].key != fields[0].key
    {
      assert FieldKey(fields[0]) != FieldKey(fields[i + 1]);
    }
  }

  /** The keys of the data are among those of the fields, once each. */
  lemma {:induction false} DataKeys(fields: seq<Field>)
    requires UniqueKeys(fields, FieldKey)
    ensures UniqueKeys(DataFields(fields), FieldKey) && Keys(DataFields(fields)) <= Keys(fields)
  {
    if fields == [] {
    } else {
      KeysCons(fields);
      DataKeys(fields[1..]);
      DataFieldsCons(fields);
      if fields[0].val != Undefined {
        UniqueCons(Field(fields[0].key, Data(fields[0].val)), DataFields(fields[1..]));
      }
    }
  }

  /** Storing drops fields but moves and renames none. */
  lemma {:induction false} StoredAligned(fields: seq<Field>)
    requires forall i :: 0 <= i < |fields| ==> WellKeyed(fields[i].val)
    ensures Aligned(DataFields(fields), StoredData(fields))
  {
    if fields == [] {
    } else {
      StoredAligned(fields[1..]);
      DataFieldsCons(fields);
      StoredDataCons(fields);
      AlignedCons(Field(fields[0].key, Data(fields[0].val)), DataFields(fields[1..]),
                  Field(fields[0].key, Norm(Stored(fields[0].val))), StoredData(fields[1..]));
    }
  }

  /** Sorting by key hides no difference between the two lists. */
  lemma SortedFieldsAgree(fields: seq<Field>)
    requires UniqueKeys(fields, FieldKey) && forall i :: 0 <= i < |fields| ==> WellKeyed(fields[i].val)
    ensures SortByKey(DataFields(fields), FieldKey) == SortByKey(StoredData(fields), FieldKey) <==>
            DataFields(fields) == StoredData(fields)
  {
    DataKeys(fields);
    StoredAligned(fields);
    SortReflects(DataFields(fields), StoredData(fields));
  }

  lemma SortReflects(a: seq<Field>, b: seq<Field>)
    requires UniqueKeys(a, FieldKey) && Aligned(a, b)
    ensures SortByKey(a, FieldKey) == SortByKey(b, FieldKey) <==> a == b
  {
    if SortByKey(a, FieldKey) == SortByKey(b, FieldKey) {
      SortMembers(a, ByKey(FieldKey));
      SortMembers(b, ByKey(FieldKey));
      SameMultisetSameLists(a, b);
    }
  }

  lemma SameMultisetSameLists(a: seq<Field>, b: seq<Field>)
    requires UniqueKeys(a, FieldKey) && multiset(a) == multiset(b) && Aligned(a, b)
    ensures a == b
  {
    assert |a| == |multiset(a)| == |multiset(b)| == |b|;
    forall i | 0 <= i < |a|
      ensures a[i] == b[i]
    {
      assert a[i] in multiset(b);
      var j :| 0 <= j < |b| && b[j] == a[i];
      SameKeySameIndex(a, i, j);
    }
  }

  lemma LoneHoleStored(elems: seq<Js>)
    requires LoneHole(elems)
    ensures NormElems(StoredElems(elems)) == [Null]
    ensures !(elems[0] != Undefined && Storable(elems[0]))
  {
    assert StoredElems(elems) == [Null];
  }

  /** The stored data is the data that was written exactly for storable values. */
  lemma {:induction false} StoredAgrees(v: Js)
    requires WellKeyed(v)
    ensures Data(v) == Norm(Stored(v)) && v != Code <==> Storable(v)
    decreases v, 1
  {
    match v
    case Arr(elems) => ArrayAgrees(elems);
    case Obj(fields) => ObjectAgrees(fields);
    case Custom(own, json) => CollapseKinds(v);
    case _ =>
  }

  lemma {:induction false} ArrayAgrees(elems: seq<Js>)
    requires WellKeyed(Arr(elems))
    ensures Data(Arr(elems)) == Norm(Stored(Arr(elems))) <==> Storable(Arr(elems))
    decreases elems, 1
  {
    if LoneHole(elems) {
      LoneHoleStored(elems);
    } else {
      ElemsAgree(elems);
    }
  }

  lemma {:induction false} ObjectAgrees(fields: seq<Field>)
    requires WellKeyed(Obj(fields))
    ensures Data(Obj(fields)) == Norm(Stored(Obj(fields))) <==> Storable(Obj(fields))
    decreases fields, 1
  {
    FieldsAgree(fields);
    SortedFieldsAgree(fields);
  }

  /**
   * Write and read agree on the canonical text exactly for storable values.
   * `r` is any value the column may give back for `v`.
   */
  lemma ReadBackAgreement(v: Js, r: Js)
    requires !Gone(v) && WellKeyed(v)
    requires IsDocument(r) && SameDocument(Stored(v), r)
    ensures Canonicalise(r) == Canonicalise(v) <==> Storable(v)
  {
    StoredIsDocument(v);
    CanonicalIffSameDocument(Stored(v), r);
    DocumentHasNoLoneHole(Stored(v));
    JsonReader.CollapseKeepsText(v);
    JsonReader.CollapseHasNoLoneHole(v);
    JsonReader.CanonicalInjective(JsonReader.Collapse(v), Stored(v));
    StoredAgrees(v);
  }

  lemma {:induction false} SameDocumentReflexive(v: Js)
    requires WellKeyed(v)
    ensures SameDocument(v, v)
    decreases v
  {
    match v
    case Arr(elems) =>
      forall i | 0 <= i < |elems| ensures SameDocument(elems[i], elems[i]) {
        SameDocumentReflexive(elems[i]);
      }
    case Obj(fields) =>
      forall i, j | 0 <= i < |fields| && 0 <= j < |fields| && fields[i].key == fields[j].key
        ensures SameDocument(fields[i].val, fields[j].val)
      {
        SameKeySameIndex(fields, i, j);
        SameDocumentReflexive(fields[i].val);
      }
    case _ =>
  }
}
