/** What a row of the audit log gives back of what was written to it, and when that is the same. */
module AuditStorage {
  import opened JsText
  import opened Json
  import opened JsonStore
  import opened Audit
  import JsonReader

  /** The form in which a column gives a text back. */
  type Column = Text -> Text

  function Through(column: Column, t: Option<Text>): Option<Text> {
    match t
    case None => None
    case Some(text) => Some(column(text))
  }

  /**
   * The content of a row as it is read: the two ids through their `uuid` columns, the texts through UTF-8,
   * the metadata as the `jsonb` column gives it back. `toISOString` gives the same text for the same instant.
   */
  function ReadBack(uuid: Column, c: Content, doc: Js): Content {
    Content(Through(uuid, c.organisationId), Through(uuid, c.actorUserId), ThroughUtf8(c.action),
            ThroughUtf8(c.entityType),
            Through(ThroughUtf8, c.entityId), doc, c.occurredAt)
  }

  /** `doc` is what the `jsonb` column may give back for the metadata. */
  ghost predicate KeptAs(metadata: Js, doc: Js) {
    metadata.Obj? && WellKeyed(metadata) && IsDocument(doc) && SameDocument(Stored(metadata), doc)
  }

  predicate FixedBy(column: Column, t: Option<Text>) {
    t.Some? ==> column(t.value) == t.value
  }

  /**
   * Written as it will be read: both ids in the form their columns give back, no lone surrogate in a text,
   * and storable metadata.
   */
  predicate AsRead(uuid: Column, c: Content) {
    && FixedBy(uuid, c.organisationId) && FixedBy(uuid, c.actorUserId)
    && WellFormed(c.action) && WellFormed(c.entityType) && (c.entityId.Some? ==> WellFormed(c.entityId.value))
    && Storable(c.metadata)
  }

  // ---------------------------------------------------------------------------
  // Equal bodies, whatever the metadata
  // ---------------------------------------------------------------------------

  function AllData(values: seq<Js>): (r: seq<Js>)
    ensures |r| == |values| && forall i :: 0 <= i < |values| ==> r[i] == Data(values[i])
  {
    seq(|values|, i requires 0 <= i < |values| => Data(values[i]))
  }

  lemma {:induction false} ZipData(keys: seq<Text>, values: seq<Js>)
    requires |keys| == |values| && forall i :: 0 <= i < |values| ==> values[i] != Undefined
    ensures DataFields(Zip(keys, values)) == Zip(keys, AllData(values))
  {
    var fields := Zip(keys, values);
    if keys == [] {
    } else {
      ZipData(keys[1..], values[1..]);
      DataFieldsCons(fields);
      assert fields[1..] == Zip(keys[1..], values[1..]);
      assert AllData(values)[1..] == AllData(values[1..]);
    }
  }

  /** Objects over one list of distinct keys, with no value undefined, print alike exactly when their values do. */
  lemma ZipTexts(keys: seq<Text>, a: seq<Js>, b: seq<Js>)
    requires |keys| == |a| == |b| && DistinctKeys(keys)
    requires forall i :: 0 <= i < |keys| ==> a[i] != Undefined && b[i] != Undefined
    ensures Canonicalise(Obj(Zip(keys, a))) == Canonicalise(Obj(Zip(keys, b))) <==> AllData(a) == AllData(b)
  {
    JsonReader.CanonicalTextExactly(Obj(Zip(keys, a)), Obj(Zip(keys, b)));
    ZipData(keys, a);
    ZipData(keys, b);
    ZipUnique(keys, AllData(a));
    SortReflects(Zip(keys, AllData(a)), Zip(keys, AllData(b)));
    ZipEqual(keys, AllData(a), AllData(b));
  }

  lemma ZipEqual(keys: seq<Text>, a: seq<Js>, b: seq<Js>)
    requires |keys| == |a| == |b|
    ensures Zip(keys, a) == Zip(keys, b) <==> a == b
  {
    if Zip(keys, a) == Zip(keys, b) {
      forall i | 0 <= i < |keys|
        ensures a[i] == b[i]
      {
        assert Zip(keys, a)[i] == Zip(keys, b)[i];
      }
    }
  }

  /** Two contents hash the same text exactly when their columns agree and their metadata print alike. */
  lemma BodiesAgree(c: Content, d: Content)
    requires c.metadata.Obj? && d.metadata.Obj?
    ensures Body(c) == Body(d) <==>
            c.(metadata := d.metadata) == d && Canonicalise(c.metadata) == Canonicalise(d.metadata)
  {
    KeysDistinct();
    ZipTexts(KEYS, Values(c), Values(d));
    JsonReader.CanonicalTextExactly(c.metadata, d.metadata);
    ColumnsAgree(c, d);
  }

  lemma ColumnsAgree(c: Content, d: Content)
    ensures AllData(Values(c)) == AllData(Values(d)) <==>
            c.(metadata := d.metadata) == d && Data(c.metadata) == Data(d.metadata)
  {
    var a, b := AllData(Values(c)), AllData(Values(d));
    if a == b {
      AgreeBack(c, d);
    }
    if c.(metadata := d.metadata) == d && Data(c.metadata) == Data(d.metadata) {
      forall i | 0 <= i < 7
        ensures a[i] == b[i]
      {
        assert i == 5 || Values(c)[i] == Values(d)[i];
      }
    }
  }

  lemma ScalarData(t: Option<Text>)
    ensures Data(NullOr(t)) == NullOr(t) && (t.Some? ==> Data(Str(t.value)) == Str(t.value))
  {
  }

  lemma ScalarsData(c: Content)
    ensures forall i :: 0 <= i < 7 && i != 5 ==> Data(Values(c)[i]) == Values(c)[i]
  {
    ScalarData(c.organisationId);
    ScalarData(c.actorUserId);
    ScalarData(Some(c.action));
    ScalarData(Some(c.entityType));
    ScalarData(c.entityId);
    ScalarData(Some(c.occurredAt));
  }

  lemma AgreeBack(c: Content, d: Content)
    requires AllData(Values(c)) == AllData(Values(d))
    ensures c.(metadata := d.metadata) == d && Data(c.metadata) == Data(d.metadata)
  {
    ScalarsData(c);
    ScalarsData(d);
    forall i | 0 <= i < 7
      ensures Data(Values(c)[i]) == Data(Values(d)[i])
    {
      assert AllData(Values(c))[i] == AllData(Values(d))[i];
    }
    assert Values(c)[0] == Values(d)[0] && Values(c)[1] == Values(d)[1] && Values(c)[2] == Values(d)[2];
    assert Values(c)[3] == Values(d)[3] && Values(c)[4] == Values(d)[4] && Values(c)[6] == Values(d)[6];
    assert Data(Values(c)[5]) == Data(Values(d)[5]);
  }

  // ---------------------------------------------------------------------------
  // Write/read agreement of a whole row
  // ---------------------------------------------------------------------------

  lemma ColumnsFixed(uuid: Column, c: Content, doc: Js)
    ensures c.(metadata := doc) == ReadBack(uuid, c, doc) <==>
            && FixedBy(uuid, c.organisationId) && FixedBy(uuid, c.actorUserId)
            && WellFormed(c.action) && WellFormed(c.entityType) && (c.entityId.Some? ==> WellFormed(c.entityId.value))
  {
    ThroughUtf8Exactly(c.action);
    ThroughUtf8Exactly(c.entityType);
    if c.entityId.Some? {
      ThroughUtf8Exactly(c.entityId.value);
    }
  }

  /** The text hashed on write is the text hashed on read exactly when the content is written as it will be read. */
  lemma BodyReadBack(uuid: Column, c: Content, doc: Js)
    requires KeptAs(c.metadata, doc)
    ensures Body(c) == Body(ReadBack(uuid, c, doc)) <==> AsRead(uuid, c)
  {
    KeptObject(c.metadata, doc);
    BodiesAgree(c, ReadBack(uuid, c, doc));
    ColumnsFixed(uuid, c, doc);
    ReadBackAgreement(c.metadata, doc);
  }

  lemma KeptObject(metadata: Js, doc: Js)
    requires KeptAs(metadata, doc)
    ensures doc.Obj?
  {
  }

  // ---------------------------------------------------------------------------
  // The `uuid` column, as far as letters go
  // ---------------------------------------------------------------------------

  predicate IsUpper(u: CodeUnit) {
    0x41 <= u <= 0x5A
  }

  /** What a `uuid` column makes of a hyphenated id. */
  function LowerCase(t: Text): (r: Text)
    ensures |r| == |t| && forall i :: 0 <= i < |t| ==> r[i] == if IsUpper(t[i]) then t[i] + 0x20 else t[i]
  {
    seq(|t|, i requires 0 <= i < |t| => if IsUpper(t[i]) then t[i] + 0x20 else t[i])
  }

  /** Such a column keeps exactly the ids without an upper-case letter. */
  lemma LowerCaseExactly(t: Text)
    ensures LowerCase(t) == t <==> forall i :: 0 <= i < |t| ==> !IsUpper(t[i])
    ensures LowerCase(LowerCase(t)) == LowerCase(t)
  {
  }
}
