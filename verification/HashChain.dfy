/**
 * Hash chains over text: every link hashes the previous head followed by a body.
 * The digest is any function to 64 lower-case hexadecimal digits, so collisions certainly exist;
 * what can be proved is that two histories with one head give away an explicit collision.
 */
module HashChain {
  import opened JsText

  predicate IsHex(u: CodeUnit) {
    0x30 <= u <= 0x39 || 0x61 <= u <= 0x66
  }

  predicate IsDigest(t: Text) {
    |t| == 64 && forall i :: 0 <= i < 64 ==> IsHex(t[i])
  }

  type Digest = t: Text | IsDigest(t) witness seq(64, _ => 0x30)

  type Hash = Text -> Digest

  /** What is hashed ahead of a body: the previous head, or a fixed text for the first link. */
  function Prefix(genesis: Text, prev: Option<Text>): Text {
    match prev
    case None => genesis
    case Some(head) => head
  }

  function Payload(genesis: Text, prev: Option<Text>, body: Text): Text {
    Prefix(genesis, prev) + body
  }

  /** The head after the given bodies, starting from nothing. */
  function Head(h: Hash, genesis: Text, bodies: seq<Text>): Option<Text> {
    if bodies == [] then None
    else
      var n := |bodies| - 1;
      Some(h(Payload(genesis, Head(h, genesis, bodies[..n]), bodies[n])))
  }

  function LastPayload(h: Hash, genesis: Text, bodies: seq<Text>): Text
    requires bodies != []
  {
    var n := |bodies| - 1;
    Payload(genesis, Head(h, genesis, bodies[..n]), bodies[n])
  }

  /** Every body starts with a separator that neither a digest nor the genesis text contains. */
  predicate Separated(genesis: Text, sep: CodeUnit, bodies: seq<Text>) {
    && !IsHex(sep)
    && |genesis| != 64
    && sep !in genesis
    && forall i :: 0 <= i < |bodies| ==> bodies[i] != [] && bodies[i][0] == sep
  }

  predicate Collides(h: Hash, pair: (Text, Text)) {
    pair.0 != pair.1 && h(pair.0) == h(pair.1)
  }

  /** Walks two chains back from their heads to the first place where the hashed texts differ. */
  function FindCollision(h: Hash, genesis: Text, a: seq<Text>, b: seq<Text>): (Text, Text)
    requires a != [] && b != []
  {
    var pair := (LastPayload(h, genesis, a), LastPayload(h, genesis, b));
    if pair.0 != pair.1 || |a| == 1 || |b| == 1 then pair
    else FindCollision(h, genesis, a[..|a| - 1], b[..|b| - 1])
  }

  lemma HeadIsDigest(h: Hash, genesis: Text, bodies: seq<Text>)
    ensures bodies == [] <==> Head(h, genesis, bodies) == None
    ensures bodies != [] ==> IsDigest(Head(h, genesis, bodies).value)
  {
  }

  /** A payload splits in one way only into head and body. */
  lemma PayloadSplits(genesis: Text, sep: CodeUnit, p: Option<Text>, x: Text, q: Option<Text>, y: Text)
    requires Separated(genesis, sep, [x, y])
    requires p.Some? ==> IsDigest(p.value)
    requires q.Some? ==> IsDigest(q.value)
    requires Payload(genesis, p, x) == Payload(genesis, q, y)
    ensures p == q && x == y
  {
    var pp, qq := Prefix(genesis, p), Prefix(genesis, q);
    var t := pp + x;
    assert [x, y][0] == x && [x, y][1] == y;
    assert forall i :: 0 <= i < |pp| ==> t[i] == pp[i] != sep;
    assert forall i :: 0 <= i < |qq| ==> t[i] == (qq + y)[i] == qq[i] != sep;
    assert t[|pp|] == sep && (qq + y)[|qq|] == sep;
    assert |pp| == |qq|;
    assert t[..|pp|] == pp && (qq + y)[..|qq|] == qq;
    assert t[|pp|..] == x && (qq + y)[|qq|..] == y;
  }

  /** One head, one history; otherwise the walk back exhibits a collision. */
  lemma {:induction false} HeadDeterminesBodies(h: Hash, genesis: Text, sep: CodeUnit, a: seq<Text>, b: seq<Text>)
    requires a != [] && b != []
    requires Separated(genesis, sep, a) && Separated(genesis, sep, b)
    requires Head(h, genesis, a) == Head(h, genesis, b)
    ensures a == b || Collides(h, FindCollision(h, genesis, a, b))
  {
    var m, n := |a| - 1, |b| - 1;
    if LastPayload(h, genesis, a) == LastPayload(h, genesis, b) {
      HeadIsDigest(h, genesis, a[..m]);
      HeadIsDigest(h, genesis, b[..n]);
      PayloadSplits(genesis, sep, Head(h, genesis, a[..m]), a[m], Head(h, genesis, b[..n]), b[n]);
      assert a == a[..m] + [a[m]] && b == b[..n] + [b[n]];
      if m > 0 {
        HeadDeterminesBodies(h, genesis, sep, a[..m], b[..n]);
      }
    }
  }

  /** The exhibited texts are well-formed UTF-16 when the bodies are, so their UTF-8 forms differ too. */
  lemma {:induction false} CollisionWellFormed(h: Hash, genesis: Text, a: seq<Text>, b: seq<Text>)
    requires a != [] && b != [] && WellFormed(genesis)
    requires forall i :: 0 <= i < |a| ==> WellFormed(a[i])
    requires forall i :: 0 <= i < |b| ==> WellFormed(b[i])
    ensures WellFormed(FindCollision(h, genesis, a, b).0) && WellFormed(FindCollision(h, genesis, a, b).1)
  {
    PayloadWellFormed(h, genesis, a);
    PayloadWellFormed(h, genesis, b);
    if |a| > 1 && |b| > 1 {
      CollisionWellFormed(h, genesis, a[..|a| - 1], b[..|b| - 1]);
    }
  }

  lemma PayloadWellFormed(h: Hash, genesis: Text, bodies: seq<Text>)
    requires bodies != [] && WellFormed(genesis) && WellFormed(bodies[|bodies| - 1])
    ensures WellFormed(LastPayload(h, genesis, bodies))
  {
    var n := |bodies| - 1;
    var prev := Head(h, genesis, bodies[..n]);
    HeadIsDigest(h, genesis, bodies[..n]);
    if prev.Some? {
      PlainIsWellFormed(prev.value);
    }
    WellFormedConcat(Prefix(genesis, prev), bodies[n]);
  }
}
