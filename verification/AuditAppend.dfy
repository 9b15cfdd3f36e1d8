/** Appending to the audit log, and the log as an object that only grows. */
module AuditAppend {
  import opened JsText
  import opened Json
  import opened JsonStore
  import opened HashChain
  import opened Audit
  import opened AuditStorage

  /** Metadata a caller may pass: a plain object, or nothing. */
  predicate WellTyped(e: Entry) {
    e.metadata.Some? ==> e.metadata.value.Obj? && WellKeyed(e.metadata.value)
  }

  /** `doc` is what the `jsonb` column may give back for the metadata of `e`. */
  ghost predicate ReadsBackAs(e: Entry, doc: Js) {
    IsDocument(doc) && SameDocument(Stored(Metadata(e)), doc)
  }

  /** The row `appendAudit` inserts: hashed as written, stored as it will be read. */
  function RowFor(h: Hash, uuid: Column, prev: Option<Text>, id: int, e: Entry, occurredAt: Text, doc: Js): Row {
    var written := Normalise(e, occurredAt);
    Row(id, ReadBack(uuid, written, doc), prev, ComputeEntryHash(h, prev, written))
  }

  /** What was hashed for a row and what its columns give back, under the hash it links to. */
  function HashedTexts(uuid: Column, prev: Option<Text>, written: Content, doc: Js): (Text, Text) {
    (Payload(GENESIS, prev, Body(written)), Payload(GENESIS, prev, Body(ReadBack(uuid, written, doc))))
  }

  /** The texts hashed at write time and at read time agree exactly when the entry is written as it will be read. */
  lemma WriteReadAgreement(uuid: Column, prev: Option<Text>, e: Entry, occurredAt: Text, doc: Js)
    requires WellTyped(e) && ReadsBackAs(e, doc)
    ensures var texts := HashedTexts(uuid, prev, Normalise(e, occurredAt), doc);
            texts.0 == texts.1 <==> AsRead(uuid, Normalise(e, occurredAt))
  {
    var c := Normalise(e, occurredAt);
    BodyReadBack(uuid, c, doc);
    SamePrefix(Prefix(GENESIS, prev), Body(c), Body(ReadBack(uuid, c, doc)));
  }

  /** The exact condition under which a row hashed as written will pass when it is read. */
  predicate Verifies(h: Hash, uuid: Column, prev: Option<Text>, written: Content, doc: Js) {
    AsRead(uuid, written) || Collides(h, HashedTexts(uuid, prev, written, doc))
  }

  /** A row hashed as written carries the hash of what is read exactly when the two texts agree or collide. */
  lemma RowVerifies(h: Hash, uuid: Column, prev: Option<Text>, written: Content, doc: Js)
    requires KeptAs(written.metadata, doc)
    ensures ComputeEntryHash(h, prev, written) == ComputeEntryHash(h, prev, ReadBack(uuid, written, doc)) <==>
            Verifies(h, uuid, prev, written, doc)
  {
    BodyReadBack(uuid, written, doc);
    SamePrefix(Prefix(GENESIS, prev), Body(written), Body(ReadBack(uuid, written, doc)));
  }

  lemma SamePrefix(p: Text, x: Text, y: Text)
    ensures p + x == p + y <==> x == y
  {
    assert (p + x)[|p|..] == x && (p + y)[|p|..] == y;
  }

  /**
   * A log with one more appended row verifies exactly when it did before and the entry is written as it
   * will be read (or the hash happens to collide on the two texts of the row).
   */
  lemma AppendVerifies(h: Hash, uuid: Column, rows: seq<Row>, id: int, e: Entry, occurredAt: Text, doc: Js)
    requires WellTyped(e) && ReadsBackAs(e, doc)
    ensures var prev := PreviousHash(rows, |rows|);
            ChainValid(h, rows + [RowFor(h, uuid, prev, id, e, occurredAt, doc)]) <==>
            ChainValid(h, rows) && Verifies(h, uuid, prev, Normalise(e, occurredAt), doc)
  {
    var prev := PreviousHash(rows, |rows|);
    var row := RowFor(h, uuid, prev, id, e, occurredAt, doc);
    RowVerifies(h, uuid, prev, Normalise(e, occurredAt), doc);
    AppendedChain(h, rows, row);
    assert Links(h, rows + [row], |rows|) <==> row.entryHash == ComputeEntryHash(h, prev, row.content);
  }

  lemma AppendedChain(h: Hash, rows: seq<Row>, row: Row)
    ensures ChainValid(h, rows + [row]) <==> ChainValid(h, rows) && Links(h, rows + [row], |rows|)
    ensures PreviousHash(rows + [row], |rows|) == PreviousHash(rows, |rows|) && (rows + [row])[|rows|] == row
  {
    if ChainValid(h, rows) {
      forall i | 0 <= i < |rows| ensures Links(h, rows + [row], i) {
        assert Links(h, rows, i);
      }
    }
    if ChainValid(h, rows + [row]) {
      PrefixVerifies(h, rows + [row], |rows|);
      assert (rows + [row])[..|rows|] == rows;
    }
  }

  // ---------------------------------------------------------------------------
  // Entries that break the agreement
  // ---------------------------------------------------------------------------

  /** An undefined array slot is written as nothing and read as null. */
  lemma HoleBreaksAgreement(uuid: Column, prev: Option<Text>, e: Entry, occurredAt: Text, doc: Js)
    requires e.metadata == Some(Obj([Field([0x78], Arr([Undefined]))])) && ReadsBackAs(e, doc)
    ensures WellTyped(e)
    ensures var texts := HashedTexts(uuid, prev, Normalise(e, occurredAt), doc);
            texts.0 != texts.1
  {
    NotStorableBreaks(uuid, prev, e, Arr([Undefined]), occurredAt, doc);
  }

  /** A date is written as an object without fields and read as a string. */
  lemma DateBreaksAgreement(uuid: Column, prev: Option<Text>, e: Entry, iso: Text, occurredAt: Text, doc: Js)
    requires e.metadata == Some(Obj([Field([0x78], Custom([], Str(iso)))])) && ReadsBackAs(e, doc)
    ensures WellTyped(e)
    ensures var texts := HashedTexts(uuid, prev, Normalise(e, occurredAt), doc);
            texts.0 != texts.1
  {
    DateNotStorable(Some(iso));
    NotStorableBreaks(uuid, prev, e, Custom([], Str(iso)), occurredAt, doc);
  }

  lemma NotStorableBreaks(uuid: Column, prev: Option<Text>, e: Entry, v: Js, occurredAt: Text, doc: Js)
    requires e.metadata == Some(Obj([Field([0x78], v)])) && WellKeyed(v) && !Storable(v) && ReadsBackAs(e, doc)
    ensures WellTyped(e)
    ensures var texts := HashedTexts(uuid, prev, Normalise(e, occurredAt), doc);
            texts.0 != texts.1
  {
    assert Metadata(e).fields[0].val == v;
    WriteReadAgreement(uuid, prev, e, occurredAt, doc);
  }

  /** The entry that suspending or resuming an organisation writes, under the id the request names. */
  function StatusEntry(organisationId: Text, actor: Text, action: Text): Entry {
    Entry(Some(organisationId), Some(actor), action, Ascii("organisation"), Some(organisationId), Some(Obj([])))
  }

  /** An id with an upper-case letter is hashed as the request spells it and read in lower case. */
  lemma UpperCaseIdBreaksAgreement(prev: Option<Text>, id: Text, k: nat, actor: Text, action: Text, occurredAt: Text)
    requires k < |id| && IsUpper(id[k])
    ensures var e := StatusEntry(id, actor, action);
            && WellTyped(e) && ReadsBackAs(e, Obj([])) && HoleFree(Metadata(e))
            && HashedTexts(LowerCase, prev, Normalise(e, occurredAt), Obj([])).0
               != HashedTexts(LowerCase, prev, Normalise(e, occurredAt), Obj([])).1
  {
    var e := StatusEntry(id, actor, action);
    assert StoredFields([]) == [];
    SameDocumentReflexive(Obj([]));
    LowerCaseExactly(id);
    WriteReadAgreement(LowerCase, prev, e, occurredAt, Obj([]));
  }

  /** Row ids rise along the list. */
  predicate IdsAscend(rows: seq<Row>) {
    forall i, j :: 0 <= i < j < |rows| ==> rows[i].id < rows[j].id
  }

  /** Stored documents in id order, below the next id. */
  predicate Orderly(rows: seq<Row>, nextId: int) {
    Readable(rows) && IdsAscend(rows) && forall i :: 0 <= i < |rows| ==> rows[i].id < nextId
  }

  lemma OrderlyExtends(rows: seq<Row>, row: Row, nextId: int)
    requires Orderly(rows, nextId) && row.id == nextId && IsDocument(row.content.metadata)
    ensures Orderly(rows + [row], nextId + 1)
  {
  }

  /** `audit_log` within one transaction that holds the chain lock. */
  class AuditLog {
    const hash: Hash
    const uuid: Column
    var rows: seq<Row>
    var nextId: int

    predicate Valid()
      reads this
    {
      Orderly(rows, nextId)
    }

    constructor (hash: Hash, uuid: Column)
      ensures Valid() && rows == [] && this.hash == hash && this.uuid == uuid && ChainValid(hash, rows)
    {
      this.hash := hash;
      this.uuid := uuid;
      rows := [];
      nextId := 1;
    }

    method AppendAudit(e: Entry, occurredAt: Text, doc: Js)
      requires Valid() && WellTyped(e) && ReadsBackAs(e, doc)
      modifies this
      ensures Valid() && nextId == old(nextId) + 1
      ensures rows == old(rows)
              + [RowFor(hash, uuid, PreviousHash(old(rows), |old(rows)|), old(nextId), e, occurredAt, doc)]
      ensures ChainValid(hash, rows) <==>
              ChainValid(hash, old(rows))
              && Verifies(hash, uuid, PreviousHash(old(rows), |old(rows)|), Normalise(e, occurredAt), doc)
    {
      var prevHash := if rows == [] then None else Some(rows[|rows| - 1].entryHash);
      var normalised := Normalise(e, occurredAt);
      var entryHash := ComputeEntryHash(hash, prevHash, normalised);
      var row := Row(nextId, ReadBack(uuid, normalised, doc), prevHash, entryHash);
      AppendVerifies(hash, uuid, rows, nextId, e, occurredAt, doc);
      OrderlyExtends(rows, row, nextId);
      rows := rows + [row];
      nextId := nextId + 1;
    }
  }
}
