/** The hash-chained audit log: hashing, appending, verifying, and what tampering cannot hide. */
module Audit {
  import opened JsText
  import opened Json
  import opened JsonStore
  import opened HashChain

  const GENESIS: Text := Ascii("genesis")

  /** An entry as callers pass it; an absent field and an explicit null are both `None`. */
  datatype Entry = Entry(
    organisationId: Option<Text>,
    actorUserId: Option<Text>,
    action: Text,
    entityType: Text,
    entityId: Option<Text>,
    metadata: Option<Js>)

  /** The normalised entry that is hashed. */
  datatype Content = Content(
    organisationId: Option<Text>,
    actorUserId: Option<Text>,
    action: Text,
    entityType: Text,
    entityId: Option<Text>,
    metadata: Js,
    occurredAt: Text)

  /** A row of `audit_log` as a query returns it; the hash columns hold any text. */
  datatype Row = Row(id: int, content: Content, prevHash: Option<Text>, entryHash: Text)

  datatype Verdict = Verdict(valid: bool, entries: nat, firstBrokenId: Option<int>)

  function NullOr(o: Option<Text>): Js {
    match o
    case None => Null
    case Some(t) => Str(t)
  }

  const KEYS: seq<Text> :=
    [Ascii("organisationId"), Ascii("actorUserId"), Ascii("action"), Ascii("entityType"), Ascii("entityId"),
     Ascii("metadata"), Ascii("occurredAt")]

  function Values(c: Content): seq<Js> {
    [NullOr(c.organisationId), NullOr(c.actorUserId), Str(c.action), Str(c.entityType), NullOr(c.entityId),
     c.metadata, Str(c.occurredAt)]
  }

  /** Object fields from keys and values side by side. */
  function Zip(keys: seq<Text>, values: seq<Js>): (fields: seq<Field>)
    requires |keys| == |values|
    ensures |fields| == |keys|
    ensures forall i :: 0 <= i < |keys| ==> fields[i] == Field(keys[i], values[i])
  {
    if keys == [] then [] else [Field(keys[0], values[0])] + Zip(keys[1..], values[1..])
  }

  /** The object that is hashed: every column under its own name, nulls included. */
  function ToJs(c: Content): Js {
    Obj(Zip(KEYS, Values(c)))
  }

  function Body(c: Content): Text {
    Canonicalise(ToJs(c))
  }

  function ComputeEntryHash(h: Hash, prev: Option<Text>, c: Content): Digest {
    h(Payload(GENESIS, prev, Body(c)))
  }

  function Metadata(e: Entry): Js {
    match e.metadata
    case None => Obj([])
    case Some(m) => m
  }

  function Normalise(e: Entry, occurredAt: Text): Content {
    Content(e.organisationId, e.actorUserId, e.action, e.entityType, e.entityId, Metadata(e), occurredAt)
  }

  // ---------------------------------------------------------------------------
  // Verifying
  // ---------------------------------------------------------------------------

  function PreviousHash(rows: seq<Row>, i: nat): Option<Text>
    requires i <= |rows|
  {
    if i == 0 then None else Some(rows[i - 1].entryHash)
  }

  /** Row `i` names its predecessor's hash and carries the hash of its own content. */
  predicate Links(h: Hash, rows: seq<Row>, i: nat)
    requires i < |rows|
  {
    && rows[i].prevHash == PreviousHash(rows, i)
    && rows[i].entryHash == ComputeEntryHash(h, PreviousHash(rows, i), rows[i].content)
  }

  predicate ChainValid(h: Hash, rows: seq<Row>) {
    forall i :: 0 <= i < |rows| ==> Links(h, rows, i)
  }

  /** `i` is the first row that does not link or hash. */
  predicate FirstBreak(h: Hash, rows: seq<Row>, i: nat) {
    i < |rows| && !Links(h, rows, i) && forall j :: 0 <= j < i ==> Links(h, rows, j)
  }

  /** Recompute the chain in id order and report the first break, if any. */
  method VerifyAuditChain(h: Hash, rows: seq<Row>) returns (v: Verdict)
    ensures v.entries == |rows|
    ensures v.valid <==> ChainValid(h, rows)
    ensures v.valid <==> v.firstBrokenId == None
    ensures forall i: nat :: FirstBreak(h, rows, i) ==> v.firstBrokenId == Some(rows[i].id)
  {
    var prevHash: Option<Text> := None;
    for n := 0 to |rows|
      invariant prevHash == PreviousHash(rows, n)
      invariant forall i :: 0 <= i < n ==> Links(h, rows, i)
    {
      var row := rows[n];
      var expected := ComputeEntryHash(h, prevHash, row.content);
      if row.prevHash != prevHash || row.entryHash != expected {
        assert FirstBreak(h, rows, n);
        return Verdict(false, |rows|, Some(row.id));
      }
      prevHash := Some(row.entryHash);
    }
    v := Verdict(true, |rows|, None);
  }

  lemma PrefixVerifies(h: Hash, rows: seq<Row>, k: nat)
    requires ChainValid(h, rows) && k <= |rows|
    ensures ChainValid(h, rows[..k])
  {
    forall i | 0 <= i < k ensures Links(h, rows[..k], i) {
      assert Links(h, rows, i);
    }
  }

  // ---------------------------------------------------------------------------
  // Canonical bodies
  // ---------------------------------------------------------------------------

  /** Metadata came out of a `jsonb` column. */
  predicate Readable(rows: seq<Row>) {
    forall i :: 0 <= i < |rows| ==> IsDocument(rows[i].content.metadata)
  }

  /** Two contents a reader of the table cannot tell apart, except by the order of metadata keys. */
  ghost predicate SameContent(a: Content, b: Content) {
    a.(metadata := b.metadata) == b && SameDocument(a.metadata, b.metadata)
  }

  predicate DistinctKeys(keys: seq<Text>) {
    forall i, j :: 0 <= i < j < |keys| ==> keys[i] != keys[j]
  }

  lemma KeysDistinct()
    ensures DistinctKeys(KEYS)
  {
    forall i, j | 0 <= i < j < |KEYS| ensures KEYS[i] != KEYS[j] {
      assert KEYS[i][0] != KEYS[j][0] || |KEYS[i]| != |KEYS[j]|;
    }
  }

  lemma ZipUnique(keys: seq<Text>, values: seq<Js>)
    requires |keys| == |values| && DistinctKeys(keys)
    ensures UniqueKeys(Zip(keys, values), FieldKey)
  {
  }

  lemma ZipIsDocument(keys: seq<Text>, values: seq<Js>)
    requires |keys| == |values| && DistinctKeys(keys)
    requires forall i :: 0 <= i < |values| ==> IsDocument(values[i])
    ensures IsDocument(Obj(Zip(keys, values)))
  {
    ZipUnique(keys, values);
  }

  lemma ZipKeys(keys: seq<Text>, values: seq<Js>, others: seq<Js>)
    requires |keys| == |values| == |others|
    ensures Keys(Zip(keys, values)) == Keys(Zip(keys, others))
  {
    KeysIncluded(Zip(keys, values), Zip(keys, others));
    KeysIncluded(Zip(keys, others), Zip(keys, values));
  }

  lemma KeysIncluded(fa: seq<Field>, fb: seq<Field>)
    requires |fa| == |fb| && forall i :: 0 <= i < |fa| ==> fa[i].key == fb[i].key
    ensures Keys(fa) <= Keys(fb)
  {
    forall k | k in Keys(fa) ensures k in Keys(fb) {
      var i := FieldAt(fa, k);
      assert fb[i] in fb;
    }
  }

  /** Objects over the same keys are the same document exactly when their values are, one by one. */
  lemma ZipSameDocument(keys: seq<Text>, a: seq<Js>, b: seq<Js>)
    requires |keys| == |a| == |b| && DistinctKeys(keys)
    ensures SameDocument(Obj(Zip(keys, a)), Obj(Zip(keys, b))) <==>
            forall i :: 0 <= i < |keys| ==> SameDocument(a[i], b[i])
  {
    var fa, fb := Zip(keys, a), Zip(keys, b);
    ZipKeys(keys, a, b);
    if SameDocument(Obj(fa), Obj(fb)) {
      forall i | 0 <= i < |keys| ensures SameDocument(a[i], b[i]) {
        assert fa[i].key == fb[i].key;
      }
    }
    if forall i :: 0 <= i < |keys| ==> SameDocument(a[i], b[i]) {
      forall i, j | 0 <= i < |fa| && 0 <= j < |fb| && fa[i].key == fb[j].key
        ensures SameDocument(fa[i].val, fb[j].val)
      {
        assert keys[i] == keys[j];
      }
    }
  }

  lemma ContentIsDocument(c: Content)
    requires IsDocument(c.metadata)
    ensures IsDocument(ToJs(c))
  {
    KeysDistinct();
    ZipIsDocument(KEYS, Values(c));
  }

  lemma BodyStart(c: Content)
    ensures Body(c) != [] && Body(c)[0] == LBRACE
  {
  }

  /** Equal canonical bodies mean equal content. */
  lemma BodyDetermines(a: Content, b: Content)
    requires IsDocument(a.metadata) && IsDocument(b.metadata)
    ensures Body(a) == Body(b) <==> SameContent(a, b)
  {
    ContentIsDocument(a);
    ContentIsDocument(b);
    CanonicalIffSameDocument(ToJs(a), ToJs(b));
    SameContentSameDocument(a, b);
  }

  lemma ScalarSame(a: Option<Text>, b: Option<Text>)
    requires SameDocument(NullOr(a), NullOr(b)) || (a.Some? && b.Some? && SameDocument(Str(a.value), Str(b.value)))
    ensures a == b
  {
  }

  lemma SameValues(a: Content, b: Content)
    requires forall i :: 0 <= i < 7 ==> SameDocument(Values(a)[i], Values(b)[i])
    ensures SameContent(a, b)
  {
    var va, vb := Values(a), Values(b);
    assert SameDocument(va[0], vb[0]) && SameDocument(va[1], vb[1]) && SameDocument(va[2], vb[2]);
    assert SameDocument(va[3], vb[3]) && SameDocument(va[4], vb[4]) && SameDocument(va[5], vb[5]);
    assert SameDocument(va[6], vb[6]);
    ScalarSame(a.organisationId, b.organisationId);
    ScalarSame(a.actorUserId, b.actorUserId);
    ScalarSame(Some(a.action), Some(b.action));
    ScalarSame(Some(a.entityType), Some(b.entityType));
    ScalarSame(a.entityId, b.entityId);
    ScalarSame(Some(a.occurredAt), Some(b.occurredAt));
  }

  lemma ValuesSameContent(a: Content, b: Content)
    ensures (forall i :: 0 <= i < 7 ==> SameDocument(Values(a)[i], Values(b)[i])) <==> SameContent(a, b)
  {
    if forall i :: 0 <= i < 7 ==> SameDocument(Values(a)[i], Values(b)[i]) {
      SameValues(a, b);
    }
  }

  lemma SameContentSameDocument(a: Content, b: Content)
    ensures SameDocument(ToJs(a), ToJs(b)) <==> SameContent(a, b)
  {
    KeysDistinct();
    ZipSameDocument(KEYS, Values(a), Values(b));
    ValuesSameContent(a, b);
  }
}
