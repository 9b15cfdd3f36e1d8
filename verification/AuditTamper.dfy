/** What a valid audit chain says about its own past. */
module AuditTamper {
  import opened JsText
  import opened Json
  import opened JsonStore
  import opened HashChain
  import opened Audit

  function Bodies(rows: seq<Row>): (r: seq<Text>)
    ensures |r| == |rows|
    ensures forall i :: 0 <= i < |rows| ==> r[i] == Body(rows[i].content)
  {
    seq(|rows|, i requires 0 <= i < |rows| => Body(rows[i].content))
  }

  ghost predicate SameHistory(a: seq<Row>, b: seq<Row>) {
    |a| == |b| && forall i :: 0 <= i < |a| ==> SameContent(a[i].content, b[i].content)
  }

  /** The collision two logs with one final hash give away unless they tell one history. */
  function Witness(h: Hash, a: seq<Row>, b: seq<Row>): (Text, Text)
    requires a != [] && b != []
  {
    FindCollision(h, GENESIS, Bodies(a), Bodies(b))
  }

  lemma BodiesSeparated(rows: seq<Row>)
    ensures Separated(GENESIS, LBRACE, Bodies(rows))
  {
    forall i | 0 <= i < |rows| ensures Bodies(rows)[i] != [] && Bodies(rows)[i][0] == LBRACE {
      BodyStart(rows[i].content);
    }
    assert forall i :: 0 <= i < |GENESIS| ==> GENESIS[i] != LBRACE;
  }

  /** The last stored hash of a valid chain is the head of its bodies. */
  lemma {:induction false} ChainHead(h: Hash, rows: seq<Row>)
    requires ChainValid(h, rows)
    ensures Head(h, GENESIS, Bodies(rows)) == PreviousHash(rows, |rows|)
  {
    if rows == [] {
    } else {
      var n := |rows| - 1;
      PrefixVerifies(h, rows, n);
      ChainHead(h, rows[..n]);
      assert Bodies(rows)[..n] == Bodies(rows[..n]);
      assert PreviousHash(rows, n) == PreviousHash(rows[..n], n);
      assert Links(h, rows, n);
    }
  }

  /** Two accepted logs that end in one hash tell one history, or exhibit a collision. */
  lemma HeadDeterminesHistory(h: Hash, a: seq<Row>, b: seq<Row>)
    requires a != [] && b != []
    requires ChainValid(h, a) && ChainValid(h, b)
    requires Readable(a) && Readable(b)
    requires a[|a| - 1].entryHash == b[|b| - 1].entryHash
    ensures SameHistory(a, b) || Collides(h, Witness(h, a, b))
  {
    ChainHead(h, a);
    ChainHead(h, b);
    BodiesSeparated(a);
    BodiesSeparated(b);
    HeadDeterminesBodies(h, GENESIS, LBRACE, Bodies(a), Bodies(b));
    if Bodies(a) == Bodies(b) {
      forall i | 0 <= i < |a| ensures SameContent(a[i].content, b[i].content) {
        assert Bodies(a)[i] == Bodies(b)[i];
        BodyDetermines(a[i].content, b[i].content);
      }
    }
  }

  /** The exhibited strings are well-formed, so they are different byte strings in UTF-8 as well. */
  lemma WitnessWellFormed(h: Hash, a: seq<Row>, b: seq<Row>)
    requires a != [] && b != []
    ensures WellFormed(Witness(h, a, b).0) && WellFormed(Witness(h, a, b).1)
  {
    PlainIsWellFormed(GENESIS);
    forall i | 0 <= i < |a| ensures WellFormed(Bodies(a)[i]) { CanonicalWellFormed(ToJs(a[i].content)); }
    forall i | 0 <= i < |b| ensures WellFormed(Bodies(b)[i]) { CanonicalWellFormed(ToJs(b[i].content)); }
    CollisionWellFormed(h, GENESIS, Bodies(a), Bodies(b));
  }

  /** The texts hashed for row `i` before and after its content is replaced. */
  function RewrittenPayloads(rows: seq<Row>, i: nat, c: Content): (Text, Text)
    requires i < |rows|
  {
    (Payload(GENESIS, PreviousHash(rows, i), Body(rows[i].content)), Payload(GENESIS, PreviousHash(rows, i), Body(c)))
  }

  /** Rewriting a row's content under its stored hashes breaks the chain at that row. */
  lemma RewriteDetected(h: Hash, rows: seq<Row>, i: nat, c: Content)
    requires ChainValid(h, rows) && Readable(rows) && i < |rows|
    requires IsDocument(c.metadata) && !SameContent(rows[i].content, c)
    ensures FirstBreak(h, rows[i := rows[i].(content := c)], i) || Collides(h, RewrittenPayloads(rows, i, c))
  {
    var rows' := rows[i := rows[i].(content := c)];
    assert Links(h, rows, i);
    assert PreviousHash(rows', i) == PreviousHash(rows, i);
    forall j | 0 <= j < i ensures Links(h, rows', j) {
      assert Links(h, rows, j);
    }
    BodyDetermines(rows[i].content, c);
    var p := Prefix(GENESIS, PreviousHash(rows, i));
    assert (p + Body(rows[i].content))[|p|..] == Body(rows[i].content);
    assert (p + Body(c))[|p|..] == Body(c);
  }

  /** These two texts are well-formed as well. */
  lemma RewrittenWellFormed(h: Hash, rows: seq<Row>, i: nat, c: Content)
    requires ChainValid(h, rows) && i < |rows|
    ensures WellFormed(RewrittenPayloads(rows, i, c).0) && WellFormed(RewrittenPayloads(rows, i, c).1)
  {
    if i > 0 {
      assert Links(h, rows, i - 1);
    }
    PlainIsWellFormed(Prefix(GENESIS, PreviousHash(rows, i)));
    CanonicalWellFormed(ToJs(rows[i].content));
    CanonicalWellFormed(ToJs(c));
    WellFormedConcat(Prefix(GENESIS, PreviousHash(rows, i)), Body(rows[i].content));
    WellFormedConcat(Prefix(GENESIS, PreviousHash(rows, i)), Body(c));
  }

  /** Two places of one valid chain never carry the same hash, unless a collision is exhibited. */
  lemma HashesDistinct(h: Hash, rows: seq<Row>, i: nat, j: nat)
    requires ChainValid(h, rows) && Readable(rows) && i < j < |rows|
    ensures rows[i].entryHash != rows[j].entryHash || Collides(h, Witness(h, rows[..i + 1], rows[..j + 1]))
  {
    PrefixVerifies(h, rows, i + 1);
    PrefixVerifies(h, rows, j + 1);
    if rows[i].entryHash == rows[j].entryHash {
      HeadDeterminesHistory(h, rows[..i + 1], rows[..j + 1]);
    }
  }

  function Without(rows: seq<Row>, i: nat): seq<Row>
    requires i < |rows|
  {
    rows[..i] + rows[i + 1..]
  }

  lemma RemovedLinks(h: Hash, rows: seq<Row>, i: nat)
    requires ChainValid(h, rows) && i + 1 < |rows|
    ensures forall j :: 0 <= j < i ==> Links(h, Without(rows, i), j)
    ensures Without(rows, i)[i] == rows[i + 1]
    ensures PreviousHash(Without(rows, i), i) == PreviousHash(rows, i)
  {
    var rows' := Without(rows, i);
    forall j | 0 <= j < i ensures Links(h, rows', j) {
      assert Links(h, rows, j);
      assert rows'[j] == rows[j];
      assert j > 0 ==> rows'[j - 1] == rows[j - 1];
    }
  }

  /** The successor of a removed row names a hash that its new predecessor does not carry. */
  lemma RemovalBreaks(h: Hash, rows: seq<Row>, i: nat)
    requires ChainValid(h, rows) && i + 1 < |rows|
    requires i > 0 ==> rows[i - 1].entryHash != rows[i].entryHash
    ensures FirstBreak(h, Without(rows, i), i)
  {
    RemovedLinks(h, rows, i);
    assert Links(h, rows, i + 1);
  }

  /** Removing a row other than the last breaks the chain at its successor, or exhibits a collision. */
  lemma RemovalDetected(h: Hash, rows: seq<Row>, i: nat)
    requires ChainValid(h, rows) && Readable(rows) && i + 1 < |rows|
    ensures Without(rows, i)[i] == rows[i + 1]
    ensures FirstBreak(h, Without(rows, i), i) || (i > 0 && Collides(h, Witness(h, rows[..i], rows[..i + 1])))
  {
    RemovedLinks(h, rows, i);
    if i == 0 {
      RemovalBreaks(h, rows, i);
    } else {
      NeighboursDistinct(h, rows, i);
      if rows[i - 1].entryHash != rows[i].entryHash {
        RemovalBreaks(h, rows, i);
      }
    }
  }

  lemma NeighboursDistinct(h: Hash, rows: seq<Row>, i: nat)
    requires ChainValid(h, rows) && Readable(rows) && 0 < i < |rows|
    ensures rows[i - 1].entryHash != rows[i].entryHash || Collides(h, Witness(h, rows[..i], rows[..i + 1]))
  {
    var k: nat := i - 1;
    HashesDistinct(h, rows, k, i);
    assert rows[..k + 1] == rows[..i];
  }
}
