/** What the hash of a row covers, by the names and values a reader finds in the hashed text. */
module AuditReading {
  import opened JsText
  import opened Json
  import opened JsonStore
  import opened HashChain
  import opened Audit
  import opened AuditStorage
  import opened AuditAppend
  import opened CanonicalText
  import JsonReader

  /** The value of a member of the hashed object, by its name. */
  ghost predicate Reads(f: Field, c: Content) {
    if f.key == Ascii("organisationId") then f.val == NullOr(c.organisationId)
    else if f.key == Ascii("actorUserId") then f.val == NullOr(c.actorUserId)
    else if f.key == Ascii("action") then f.val == Str(c.action)
    else if f.key == Ascii("entityType") then f.val == Str(c.entityType)
    else if f.key == Ascii("entityId") then f.val == NullOr(c.entityId)
    else if f.key == Ascii("metadata") then Tells(f.val, c.metadata)
    else f.key == Ascii("occurredAt") && f.val == Str(c.occurredAt)
  }

  /** A reader of the text finds one object of seven members in rising order, nulls included, and nothing after it. */
  ghost predicate ReadsAs(text: Text, c: Content) {
    var read := JsonReader.ReadValue(text);
    && read.Some? && read.value.1 == [] && read.value.0.Obj?
    && |read.value.0.fields| == 7 && KeysRise(read.value.0.fields)
    && forall k :: 0 <= k < 7 ==> Reads(read.value.0.fields[k], c)
  }

  lemma NamesApart()
    ensures |KEYS| == 7 && DistinctKeys(KEYS)
    ensures KEYS[0] == Ascii("organisationId") && KEYS[1] == Ascii("actorUserId") && KEYS[2] == Ascii("action")
    ensures KEYS[3] == Ascii("entityType") && KEYS[4] == Ascii("entityId") && KEYS[5] == Ascii("metadata")
    ensures KEYS[6] == Ascii("occurredAt")
  {
    KeysDistinct();
  }

  /** What is found under the i-th name is the i-th value. */
  lemma ReadsByPlace(c: Content, i: nat, f: Field)
    requires i < 7 && f.key == KEYS[i] && Tells(f.val, Values(c)[i])
    ensures Reads(f, c)
  {
    NamesApart();
    assert forall j :: 0 <= j < 7 && j != i ==> KEYS[j] != KEYS[i];
  }

  lemma RisingUnique(fields: seq<Field>)
    requires KeysRise(fields)
    ensures UniqueKeys(fields, FieldKey)
  {
    forall i, j | 0 <= i < j < |fields|
      ensures fields[i].key != fields[j].key
    {
      LessExactly(fields[i].key, fields[j].key);
      LessAsymmetric(fields[i].key, fields[j].key);
    }
  }

  lemma {:induction false} AsManyAsKeys(fields: seq<Field>)
    requires UniqueKeys(fields, FieldKey)
    ensures |Keys(fields)| == |fields|
  {
    if fields == [] {
      assert Keys(fields) == {};
    } else {
      KeysCons(fields);
      AsManyAsKeys(fields[1..]);
    }
  }

  lemma {:induction false} ZipDefined(keys: seq<Text>, values: seq<Js>)
    requires |keys| == |values| && DistinctKeys(keys) && forall i :: 0 <= i < |values| ==> values[i] != Undefined
    ensures DefinedKeys(Zip(keys, values)) == Keys(Zip(keys, values)) && |Keys(Zip(keys, values))| == |keys|
  {
    var fields := Zip(keys, values);
    forall f | f in fields
      ensures f.val != Undefined
    {
      var i :| 0 <= i < |fields| && fields[i] == f;
    }
    if keys == [] {
      assert Keys(fields) == {};
    } else {
      ZipDefined(keys[1..], values[1..]);
      assert fields[1..] == Zip(keys[1..], values[1..]);
      ZipUnique(keys, values);
      KeysCons(fields);
    }
  }

  lemma FieldReads(c: Content, ds: seq<Field>, k: nat)
    requires Tells(Obj(ds), ToJs(c)) && k < |ds| && DefinedKeys(Zip(KEYS, Values(c))) == Keys(Zip(KEYS, Values(c)))
    ensures Reads(ds[k], c)
  {
    var fields := Zip(KEYS, Values(c));
    assert ds[k] in ds;
    assert ds[k].key in Keys(ds);
    var i := FieldAt(fields, ds[k].key);
    ReadsByPlace(c, i, ds[k]);
  }

  lemma SevenFields(c: Content, ds: seq<Field>)
    requires Tells(Obj(ds), ToJs(c)) && c.metadata.Obj?
    ensures |ds| == 7 && KeysRise(ds) && DefinedKeys(Zip(KEYS, Values(c))) == Keys(Zip(KEYS, Values(c)))
  {
    KeysDistinct();
    ZipDefined(KEYS, Values(c));
    RisingUnique(ds);
    AsManyAsKeys(ds);
  }

  lemma BodyReads(c: Content)
    requires c.metadata.Obj? && WellKeyed(c.metadata)
    ensures ReadsAs(Body(c), c)
  {
    BodyKeyed(c);
    CanonicalTells(ToJs(c));
    var ds := JsonReader.ReadValue(Body(c)).value.0.fields;
    SevenFields(c, ds);
    forall k: nat | k < 7
      ensures Reads(ds[k], c)
    {
      FieldReads(c, ds, k);
    }
  }

  lemma BodyKeyed(c: Content)
    requires WellKeyed(c.metadata)
    ensures WellKeyed(ToJs(c))
  {
    KeysDistinct();
    ZipUnique(KEYS, Values(c));
  }

  /** What a row's hash is taken of: the previous hash, or the word `genesis`, and the body. */
  lemma HashedExactly(h: Hash, prev: Option<Text>, c: Content)
    ensures ComputeEntryHash(h, prev, c) == h((if prev.Some? then prev.value else Ascii("genesis")) + Body(c))
  {
  }

  /** The content an entry stands for: what is absent is null, and absent metadata an empty object. */
  predicate StandsFor(c: Content, e: Entry, occurredAt: Text) {
    && c.organisationId == e.organisationId && c.actorUserId == e.actorUserId && c.action == e.action
    && c.entityType == e.entityType && c.entityId == e.entityId && c.occurredAt == occurredAt
    && c.metadata == if e.metadata.Some? then e.metadata.value else Obj([])
  }

  /** The columns of a row that records a content, with `doc` for its metadata. */
  predicate Columns(row: Content, uuid: Column, c: Content, doc: Js) {
    && (row.organisationId.Some? <==> c.organisationId.Some?)
    && (c.organisationId.Some? ==> row.organisationId == Some(uuid(c.organisationId.value)))
    && (row.actorUserId.Some? <==> c.actorUserId.Some?)
    && (c.actorUserId.Some? ==> row.actorUserId == Some(uuid(c.actorUserId.value)))
    && row.action == ThroughUtf8(c.action) && row.entityType == ThroughUtf8(c.entityType)
    && (row.entityId.Some? <==> c.entityId.Some?)
    && (c.entityId.Some? ==> row.entityId == Some(ThroughUtf8(c.entityId.value)))
    && row.metadata == doc && row.occurredAt == c.occurredAt
  }

  /**
   * The row an append adds: numbered, linked to the row before, its columns those of the entry, and its hash taken of
   * the previous hash and a text in which a reader finds the entry.
   */
  lemma AppendedRowReads(h: Hash, uuid: Column, prev: Option<Text>, id: int, e: Entry, occurredAt: Text, doc: Js)
    returns (c: Content, text: Text)
    requires WellTyped(e)
    ensures StandsFor(c, e, occurredAt) && ReadsAs(text, c)
    ensures var row := RowFor(h, uuid, prev, id, e, occurredAt, doc);
            && row.id == id && row.prevHash == prev && Columns(row.content, uuid, c, doc)
            && row.entryHash == h((if prev.Some? then prev.value else Ascii("genesis")) + text)
  {
    c := Normalise(e, occurredAt);
    text := Body(c);
    BodyReads(c);
    HashedExactly(h, prev, c);
    ReadBackColumns(uuid, c, doc);
  }

  lemma ReadBackColumns(uuid: Column, c: Content, doc: Js)
    ensures Columns(ReadBack(uuid, c, doc), uuid, c, doc)
  {
  }
}
