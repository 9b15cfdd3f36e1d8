/**
 * The redaction pass over outbound prompts: e-mail addresses first, then known names.
 * Texts are UTF-16 code units, which is what a regular expression without the `u` flag walks over.
 */
module Redaction {
  import opened JsText
  import opened Sequences

  const AT: CodeUnit := 0x40
  const DOT: CodeUnit := 0x2E
  const OPEN: CodeUnit := 0x5B
  const CLOSE: CodeUnit := 0x5D
  const BACKSLASH: CodeUnit := 0x5C
  const EMAIL_TOKEN: Text := Ascii("[REDACTED_EMAIL]")
  const NAME_TOKEN: Text := Ascii("[REDACTED_NAME]")

  // ---------------------------------------------------------------------------
  // The e-mail shape
  // ---------------------------------------------------------------------------

  predicate IsLetter(u: CodeUnit) {
    0x41 <= u <= 0x5A || 0x61 <= u <= 0x7A
  }

  /** `[a-zA-Z0-9._%+-]` */
  predicate IsLocal(u: CodeUnit) {
    IsLetter(u) || IsDigit(u) || u == DOT || u == 0x5F || u == 0x25 || u == 0x2B || u == 0x2D
  }

  /** `[a-zA-Z0-9.-]` */
  predicate IsDomain(u: CodeUnit) {
    IsLetter(u) || IsDigit(u) || u == DOT || u == 0x2D
  }

  /** `t[i..j]` matches local, at sign, domain, dot and a final label of two letters or more. */
  predicate Splits(t: Text, i: nat, at: nat, dot: nat, j: nat) {
    && i < at && at + 1 < dot && dot + 2 < j <= |t|
    && (forall k :: i <= k < at ==> IsLocal(t[k]))
    && t[at] == AT
    && (forall k :: at < k < dot ==> IsDomain(t[k]))
    && t[dot] == DOT
    && forall k :: dot < k < j ==> IsLetter(t[k])
  }

  /** The stretch `t[i..j]` has the shape of `EMAIL_RE`. */
  ghost predicate IsEmailAt(t: Text, i: nat, j: nat) {
    exists at: nat, dot: nat :: Splits(t, i, at, dot, j)
  }

  ghost predicate HasEmail(t: Text) {
    exists i: nat, j: nat :: IsEmailAt(t, i, j)
  }

  /** The character classes, spelled out. */
  lemma ClassesSpelled(u: CodeUnit)
    ensures IsLetter(u) <==> 'a' as CodeUnit <= u <= 'z' as CodeUnit || 'A' as CodeUnit <= u <= 'Z' as CodeUnit
    ensures IsLocal(u) <==> IsLetter(u) || '0' as CodeUnit <= u <= '9' as CodeUnit || u in Ascii("._%+-")
    ensures IsDomain(u) <==> IsLetter(u) || '0' as CodeUnit <= u <= '9' as CodeUnit || u in Ascii(".-")
    ensures IsWord(u) <==> IsLetter(u) || '0' as CodeUnit <= u <= '9' as CodeUnit || u in Ascii("_")
  {
    var local, domain, word := Ascii("._%+-"), Ascii(".-"), Ascii("_");
    assert local == [0x2E, 0x5F, 0x25, 0x2B, 0x2D] && domain == [0x2E, 0x2D] && word == [0x5F];
  }

  /** The least there is of the shape, and what falls short of it by one character. */
  lemma ShapeSpelled()
    ensures IsEmailAt(Ascii("a@b.cd"), 0, 6)
    ensures !HasEmail(Ascii("a@b.c")) && !HasEmail(Ascii("@b.cd")) && !HasEmail(Ascii("a@.cd"))
    ensures !HasEmail(Ascii("a.b.cd")) && !HasEmail(Ascii("a@bcd"))
  {
    var t := Ascii("a@b.cd");
    assert Splits(t, 0, 1, 3, 6);
    TooShort(Ascii("a@b.c"));
    TooShort(Ascii("@b.cd"));
    TooShort(Ascii("a@.cd"));
    TooShort(Ascii("a@bcd"));
    var u := Ascii("a.b.cd");
    assert u == [0x61, 0x2E, 0x62, 0x2E, 0x63, 0x64];
    assert forall k :: 0 <= k < |u| ==> u[k] != AT;
  }

  lemma TooShort(t: Text)
    requires |t| < 6
    ensures !HasEmail(t)
  {
  }

  // ---------------------------------------------------------------------------
  // Matching at one position, greedily and with backtracking
  // ---------------------------------------------------------------------------

  /** The end of the longest run of local characters from `p`. */
  function LocalEnd(t: Text, p: nat): (e: nat)
    requires p <= |t|
    ensures p <= e <= |t|
    decreases |t| - p
  {
    if p < |t| && IsLocal(t[p]) then LocalEnd(t, p + 1) else p
  }

  function DomainEnd(t: Text, p: nat): (e: nat)
    requires p <= |t|
    ensures p <= e <= |t|
    decreases |t| - p
  {
    if p < |t| && IsDomain(t[p]) then DomainEnd(t, p + 1) else p
  }

  function LetterEnd(t: Text, p: nat): (e: nat)
    requires p <= |t|
    ensures p <= e <= |t|
    decreases |t| - p
  {
    if p < |t| && IsLetter(t[p]) then LetterEnd(t, p + 1) else p
  }

  predicate GoodDot(t: Text, d: nat)
    requires d < |t|
  {
    t[d] == DOT && d + 3 <= LetterEnd(t, d + 1)
  }

  /** Giving domain characters back one by one: the last usable dot in `[low, high)`. */
  function LastDot(t: Text, low: nat, high: nat): (d: Option<nat>)
    requires high <= |t|
    ensures d.Some? ==> low <= d.value < high && GoodDot(t, d.value)
    ensures forall k :: low <= k < high && GoodDot(t, k) ==> d.Some? && k <= d.value
  {
    if high <= low then None
    else if GoodDot(t, high - 1) then Some(high - 1)
    else LastDot(t, low, high - 1)
  }

  /** Where the match that starts at `p` ends, if there is one. */
  function MatchEnd(t: Text, p: nat): (e: Option<nat>)
    requires p <= |t|
    ensures e.Some? ==> p < e.value <= |t|
  {
    var at := LocalEnd(t, p);
    if at == p || at == |t| || t[at] != AT then None
    else
      match LastDot(t, at + 2, DomainEnd(t, at + 1))
      case None => None
      case Some(dot) => Some(LetterEnd(t, dot + 1))
  }

  lemma {:induction false} LocalEndIs(t: Text, p: nat, a: nat)
    requires p <= a <= |t|
    requires forall k :: p <= k < a ==> IsLocal(t[k])
    ensures a <= LocalEnd(t, p)
    ensures a < |t| && !IsLocal(t[a]) ==> LocalEnd(t, p) == a
    decreases a - p
  {
    if p < a {
      LocalEndIs(t, p + 1, a);
    }
  }

  lemma {:induction false} DomainEndIs(t: Text, p: nat, a: nat)
    requires p <= a <= |t|
    requires forall k :: p <= k < a ==> IsDomain(t[k])
    ensures a <= DomainEnd(t, p)
    decreases a - p
  {
    if p < a {
      DomainEndIs(t, p + 1, a);
    }
  }

  lemma {:induction false} LetterEndIs(t: Text, p: nat, a: nat)
    requires p <= a <= |t|
    requires forall k :: p <= k < a ==> IsLetter(t[k])
    ensures a <= LetterEnd(t, p)
    decreases a - p
  {
    if p < a {
      LetterEndIs(t, p + 1, a);
    }
  }

  lemma {:induction false} RunsAreUniform(t: Text, p: nat)
    requires p <= |t|
    ensures forall k :: p <= k < LocalEnd(t, p) ==> IsLocal(t[k])
    ensures forall k :: p <= k < DomainEnd(t, p) ==> IsDomain(t[k])
    ensures forall k :: p <= k < LetterEnd(t, p) ==> IsLetter(t[k])
    decreases |t| - p
  {
    if p < |t| {
      RunsAreUniform(t, p + 1);
    }
  }

  lemma {:induction false} LetterEndStops(t: Text, p: nat, q: nat)
    requires p <= q < |t| && !IsLetter(t[q])
    ensures LetterEnd(t, p) <= q
    decreases q - p
  {
    if p < q {
      LetterEndStops(t, p + 1, q);
    }
  }

  /** What is matched at `p` has the e-mail shape. */
  lemma MatchIsEmail(t: Text, p: nat)
    requires p <= |t| && MatchEnd(t, p).Some?
    ensures IsEmailAt(t, p, MatchEnd(t, p).value)
  {
    var at := LocalEnd(t, p);
    var dot := LastDot(t, at + 2, DomainEnd(t, at + 1)).value;
    RunsAreUniform(t, p);
    RunsAreUniform(t, at + 1);
    RunsAreUniform(t, dot + 1);
    assert Splits(t, p, at, dot, LetterEnd(t, dot + 1));
  }

  /** Backtracking misses nothing: the match at `p` is the longest stretch of the shape from `p`. */
  lemma MatchIsLongest(t: Text, p: nat, j: nat)
    requires IsEmailAt(t, p, j)
    ensures p <= |t| && MatchEnd(t, p).Some? && j <= MatchEnd(t, p).value
  {
    var at: nat, dot: nat :| Splits(t, p, at, dot, j);
    LocalEndIs(t, p, at);
    DomainReaches(t, at, dot, j);
    LetterEndIs(t, dot + 1, j);
    assert GoodDot(t, dot);
    var last := LastDot(t, at + 2, DomainEnd(t, at + 1)).value;
    if dot < last {
      LetterEndStops(t, dot + 1, last);
    }
  }

  lemma DomainReaches(t: Text, at: nat, dot: nat, j: nat)
    requires at + 1 < dot && dot + 2 < j <= |t|
    requires forall k :: at < k < dot ==> IsDomain(t[k])
    requires t[dot] == DOT && forall k :: dot < k < j ==> IsLetter(t[k])
    ensures dot < DomainEnd(t, at + 1)
  {
    DomainEndIs(t, at + 1, j);
  }

  // ---------------------------------------------------------------------------
  // Replacing: what is cut out of a text, and what stands in its place
  // ---------------------------------------------------------------------------

  datatype Span = Span(from: nat, to: nat)

  /** The spans follow one another without overlapping, from `p` on. */
  predicate Fits(t: Text, p: nat, spans: seq<Span>)
    decreases spans
  {
    if spans == [] then p <= |t|
    else p <= spans[0].from <= spans[0].to && Fits(t, spans[0].to, spans[1..])
  }

  lemma {:induction false} FitsWithin(t: Text, p: nat, spans: seq<Span>)
    requires Fits(t, p, spans)
    ensures p <= |t|
    ensures spans != [] ==> spans[0].to <= |t|
    decreases spans
  {
    if spans == [] {
    } else {
      FitsWithin(t, spans[0].to, spans[1..]);
    }
  }

  function Substitute(t: Text, p: nat, spans: seq<Span>, token: Text): Text
    requires Fits(t, p, spans)
    decreases spans
  {
    FitsWithin(t, p, spans);
    if spans == [] then t[p..] else t[p..spans[0].from] + token + Substitute(t, spans[0].to, spans[1..], token)
  }

  /** The first position from `p` on where a match starts, or the length of the text. */
  function NextEmail(t: Text, p: nat): (q: nat)
    requires p <= |t|
    ensures p <= q <= |t|
    ensures q < |t| ==> MatchEnd(t, q).Some?
    decreases |t| - p
  {
    if p == |t| || MatchEnd(t, p).Some? then p else NextEmail(t, p + 1)
  }

  /** The global search: leftmost match, then onwards from its end. */
  function EmailSpans(t: Text, p: nat): seq<Span>
    requires p <= |t|
    decreases |t| - p
  {
    var q := NextEmail(t, p);
    if q == |t| then [] else [Span(q, MatchEnd(t, q).value)] + EmailSpans(t, MatchEnd(t, q).value)
  }

  lemma {:induction false} EmailSpansFit(t: Text, p: nat)
    requires p <= |t|
    ensures Fits(t, p, EmailSpans(t, p))
    decreases |t| - p
  {
    var q := NextEmail(t, p);
    if q < |t| {
      var e := MatchEnd(t, q).value;
      EmailSpansFit(t, e);
      ConsParts(Span(q, e), EmailSpans(t, e));
    }
  }

  /** `text.replace(EMAIL_RE, …)`. */
  function ReplaceEmails(t: Text): Text {
    EmailSpansFit(t, 0);
    Substitute(t, 0, EmailSpans(t, 0), EMAIL_TOKEN)
  }

  predicate IsWord(u: CodeUnit) {
    IsLetter(u) || IsDigit(u) || u == 0x5F
  }

  /** `\b` between positions `p - 1` and `p`. */
  predicate Boundary(t: Text, p: nat)
    requires p <= |t|
  {
    (p > 0 && IsWord(t[p - 1])) != (p < |t| && IsWord(t[p]))
  }

  /** The literal name between word boundaries, compared through the case folding of the `i` flag. */
  predicate NameAt(fold: CodeUnit -> CodeUnit, t: Text, name: Text, p: nat) {
    && p + |name| <= |t|
    && Boundary(t, p)
    && Boundary(t, p + |name|)
    && forall k :: 0 <= k < |name| ==> fold(t[p + k]) == fold(name[k])
  }

  /** Where a word ends at an end of the name the text must not go on with it, and elsewhere it must. */
  lemma NameExactly(fold: CodeUnit -> CodeUnit, t: Text, name: Text, p: nat)
    requires name != [] && p + |name| <= |t|
    ensures var first, last, end := t[p], t[p + |name| - 1], p + |name|;
            NameAt(fold, t, name, p) <==>
            && (forall k :: 0 <= k < |name| ==> fold(t[p + k]) == fold(name[k]))
            && (IsWord(first) ==> p == 0 || !IsWord(t[p - 1])) && (!IsWord(first) ==> p > 0 && IsWord(t[p - 1]))
            && (IsWord(last) ==> end == |t| || !IsWord(t[end])) && (!IsWord(last) ==> end < |t| && IsWord(t[end]))
  {
  }

  function NextName(fold: CodeUnit -> CodeUnit, t: Text, name: Text, p: nat): (q: nat)
    requires p <= |t| && name != []
    ensures p <= q <= |t|
    ensures q < |t| ==> q + |name| <= |t|
    decreases |t| - p
  {
    if p == |t| || NameAt(fold, t, name, p) then p else NextName(fold, t, name, p + 1)
  }

  function NameSpans(fold: CodeUnit -> CodeUnit, t: Text, name: Text, p: nat): seq<Span>
    requires p <= |t| && name != []
    decreases |t| - p
  {
    var q := NextName(fold, t, name, p);
    if q == |t| then [] else [Span(q, q + |name|)] + NameSpans(fold, t, name, q + |name|)
  }

  lemma {:induction false} NameSpansFit(fold: CodeUnit -> CodeUnit, t: Text, name: Text, p: nat)
    requires p <= |t| && name != []
    ensures Fits(t, p, NameSpans(fold, t, name, p))
    decreases |t| - p
  {
    var q := NextName(fold, t, name, p);
    if q < |t| {
      NameSpansFit(fold, t, name, q + |name|);
      ConsParts(Span(q, q + |name|), NameSpans(fold, t, name, q + |name|));
    }
  }

  /** `redacted.replace(pattern, "[REDACTED_NAME]")`. */
  function ReplaceName(fold: CodeUnit -> CodeUnit, t: Text, name: Text): Text
    requires name != []
  {
    NameSpansFit(fold, t, name, 0);
    Substitute(t, 0, NameSpans(fold, t, name, 0), NAME_TOKEN)
  }

  // ---------------------------------------------------------------------------
  // No e-mail survives
  // ---------------------------------------------------------------------------

  lemma NoAtNoEmail(t: Text)
    requires forall k :: 0 <= k < |t| ==> t[k] != AT
    ensures !HasEmail(t)
  {
  }

  lemma EmailWithin(t: Text, lo: nat, hi: nat, i: nat, j: nat)
    requires lo <= hi <= |t| && IsEmailAt(t[lo..hi], i, j)
    ensures IsEmailAt(t, lo + i, lo + j)
  {
    var s := t[lo..hi];
    var at: nat, dot: nat :| Splits(s, i, at, dot, j);
    assert forall k :: lo <= k < hi ==> t[k] == s[k - lo];
    assert Splits(t, lo + i, lo + at, lo + dot, lo + j);
  }

  /** A piece of a text without e-mails has none. */
  lemma PieceHasNone(t: Text, lo: nat, hi: nat)
    requires lo <= hi <= |t| && !HasEmail(t)
    ensures !HasEmail(t[lo..hi])
  {
    if HasEmail(t[lo..hi]) {
      var i: nat, j: nat :| IsEmailAt(t[lo..hi], i, j);
      EmailWithin(t, lo, hi, i, j);
    }
  }

  /** A bracket can stand nowhere inside an e-mail. */
  lemma BracketOutside(t: Text, i: nat, j: nat, k: nat)
    requires IsEmailAt(t, i, j) && k < |t| && (t[k] == OPEN || t[k] == CLOSE)
    ensures i < j <= |t| && (k < i || j <= k)
  {
  }

  /** No e-mail reaches across a bracket. */
  lemma BracketSeparates(a: Text, b: Text)
    requires !HasEmail(a) && !HasEmail(b)
    requires a == [] || b == [] || a[|a| - 1] == CLOSE || b[0] == OPEN
    ensures !HasEmail(a + b)
  {
    var t := a + b;
    assert t[0..|a|] == a && t[|a|..|t|] == b;
    if HasEmail(t) {
      var i: nat, j: nat :| IsEmailAt(t, i, j);
      EmailOnOneSide(a, b, i, j);
      if j <= |a| {
        EmailInPrefix(t, |a|, i, j);
      } else {
        EmailInSuffix(t, |a|, i, j);
      }
    }
  }

  lemma EmailOnOneSide(a: Text, b: Text, i: nat, j: nat)
    requires IsEmailAt(a + b, i, j)
    requires a == [] || b == [] || a[|a| - 1] == CLOSE || b[0] == OPEN
    ensures j <= |a| || |a| <= i
  {
    if a != [] && b != [] {
      if b[0] == OPEN {
        BracketOutside(a + b, i, j, |a|);
      } else {
        BracketOutside(a + b, i, j, |a| - 1);
      }
    }
  }

  lemma EmailInPrefix(t: Text, n: nat, i: nat, j: nat)
    requires n <= |t| && IsEmailAt(t, i, j) && j <= n
    ensures IsEmailAt(t[0..n], i, j)
  {
    var at: nat, dot: nat :| Splits(t, i, at, dot, j);
    assert Splits(t[0..n], i, at, dot, j);
  }

  lemma EmailInSuffix(t: Text, n: nat, i: nat, j: nat)
    requires n <= |t| && IsEmailAt(t, i, j) && n <= i
    ensures IsEmailAt(t[n..|t|], i - n, j - n)
  {
    var at: nat, dot: nat :| Splits(t, i, at, dot, j);
    var s := t[n..|t|];
    assert forall k :: 0 <= k < |s| ==> s[k] == t[k + n];
    assert Splits(s, i - n, at - n, dot - n, j - n);
  }

  lemma TokensAreClean()
    ensures !HasEmail(EMAIL_TOKEN) && !HasEmail(NAME_TOKEN)
    ensures EMAIL_TOKEN[0] == OPEN && EMAIL_TOKEN[|EMAIL_TOKEN| - 1] == CLOSE
    ensures NAME_TOKEN[0] == OPEN && NAME_TOKEN[|NAME_TOKEN| - 1] == CLOSE
  {
    NoAtNoEmail(EMAIL_TOKEN);
    NoAtNoEmail(NAME_TOKEN);
  }

  /** Gap, token and rest: clean parts make a clean whole. */
  lemma AroundToken(gap: Text, token: Text, rest: Text)
    requires !HasEmail(gap) && !HasEmail(token) && !HasEmail(rest)
    requires token != [] && token[0] == OPEN && token[|token| - 1] == CLOSE
    ensures !HasEmail(gap + token + rest)
  {
    BracketSeparates(gap, token);
    assert (gap + token)[|gap + token| - 1] == CLOSE;
    BracketSeparates(gap + token, rest);
  }

  lemma {:induction false} NoMatchBefore(t: Text, p: nat, k: nat)
    requires p <= |t| && p <= k < NextEmail(t, p)
    ensures MatchEnd(t, k) == None
    decreases k - p
  {
    if p < k {
      NoMatchBefore(t, p + 1, k);
    }
  }

  /** The stretch skipped on the way to the next match holds no e-mail. */
  lemma GapHasNone(t: Text, p: nat)
    requires p <= |t|
    ensures !HasEmail(t[p..NextEmail(t, p)])
  {
    var q := NextEmail(t, p);
    if HasEmail(t[p..q]) {
      var i: nat, j: nat :| IsEmailAt(t[p..q], i, j);
      EmailWithin(t, p, q, i, j);
      MatchIsLongest(t, p + i, p + j);
      NoMatchBefore(t, p, p + i);
    }
  }

  /** No piece that stays holds an e-mail. */
  ghost predicate KeptClean(t: Text, p: nat, spans: seq<Span>)
    requires Fits(t, p, spans)
    decreases spans
  {
    FitsWithin(t, p, spans);
    if spans == [] then !HasEmail(t[p..])
    else !HasEmail(t[p..spans[0].from]) && KeptClean(t, spans[0].to, spans[1..])
  }

  /** Clean pieces around bracketed tokens make a clean text. */
  lemma {:induction false} SubstituteIsClean(t: Text, p: nat, spans: seq<Span>, token: Text)
    requires Fits(t, p, spans) && KeptClean(t, p, spans)
    requires !HasEmail(token) && token != [] && token[0] == OPEN && token[|token| - 1] == CLOSE
    ensures !HasEmail(Substitute(t, p, spans, token))
    decreases spans
  {
    FitsWithin(t, p, spans);
    if spans == [] {
    } else {
      SubstituteIsClean(t, spans[0].to, spans[1..], token);
      AroundToken(t[p..spans[0].from], token, Substitute(t, spans[0].to, spans[1..], token));
    }
  }

  lemma {:induction false} EmailSpansLeaveNone(t: Text, p: nat)
    requires p <= |t| && Fits(t, p, EmailSpans(t, p))
    ensures KeptClean(t, p, EmailSpans(t, p))
    decreases |t| - p
  {
    var q := NextEmail(t, p);
    GapHasNone(t, p);
    if q == |t| {
      DropAsSlice(t, p);
    } else {
      var e := MatchEnd(t, q).value;
      EmailSpansFit(t, e);
      EmailSpansLeaveNone(t, e);
      ConsParts(Span(q, e), EmailSpans(t, e));
    }
  }

  lemma {:induction false} PiecesOfCleanText(t: Text, p: nat, spans: seq<Span>)
    requires Fits(t, p, spans) && !HasEmail(t)
    ensures KeptClean(t, p, spans)
    decreases spans
  {
    FitsWithin(t, p, spans);
    if spans == [] {
      PieceHasNone(t, p, |t|);
      DropAsSlice(t, p);
    } else {
      PieceHasNone(t, p, spans[0].from);
      PiecesOfCleanText(t, spans[0].to, spans[1..]);
    }
  }

  /** After the e-mail pass no stretch of the text has the e-mail shape. */
  lemma EmailPassIsClean(t: Text)
    ensures !HasEmail(ReplaceEmails(t))
  {
    EmailSpansFit(t, 0);
    EmailSpansLeaveNone(t, 0);
    TokensAreClean();
    SubstituteIsClean(t, 0, EmailSpans(t, 0), EMAIL_TOKEN);
  }

  /** A name pass cannot bring one about. */
  lemma NamePassIsClean(fold: CodeUnit -> CodeUnit, t: Text, name: Text)
    requires name != [] && !HasEmail(t)
    ensures !HasEmail(ReplaceName(fold, t, name))
  {
    NameSpansFit(fold, t, name, 0);
    PiecesOfCleanText(t, 0, NameSpans(fold, t, name, 0));
    TokensAreClean();
    SubstituteIsClean(t, 0, NameSpans(fold, t, name, 0), NAME_TOKEN);
  }

  // ---------------------------------------------------------------------------
  // What is replaced, and that nothing else is
  // ---------------------------------------------------------------------------

  /** Each span is the leftmost e-mail from the end of the one before, and the longest that starts there. */
  ghost predicate LeftmostLongest(t: Text, p: nat, spans: seq<Span>)
    decreases spans
  {
    if spans == [] then forall i: nat, j: nat :: p <= i ==> !IsEmailAt(t, i, j)
    else
      && IsEmailAt(t, spans[0].from, spans[0].to)
      && (forall i: nat, j: nat :: p <= i < spans[0].from ==> !IsEmailAt(t, i, j))
      && (forall j: nat :: IsEmailAt(t, spans[0].from, j) ==> j <= spans[0].to)
      && LeftmostLongest(t, spans[0].to, spans[1..])
  }

  lemma NoEmailBefore(t: Text, p: nat, i: nat, j: nat)
    requires p <= |t| && p <= i && IsEmailAt(t, i, j)
    ensures NextEmail(t, p) <= i
  {
    MatchIsLongest(t, i, j);
    if i < NextEmail(t, p) {
      NoMatchBefore(t, p, i);
    }
  }

  /** What the search cuts out is what a leftmost, longest, non-overlapping search must. */
  lemma {:induction false} SearchIsLeftmostLongest(t: Text, p: nat)
    requires p <= |t|
    ensures LeftmostLongest(t, p, EmailSpans(t, p))
    decreases |t| - p
  {
    var q := NextEmail(t, p);
    forall i: nat, j: nat | p <= i && IsEmailAt(t, i, j)
      ensures q <= i
    {
      NoEmailBefore(t, p, i, j);
    }
    if q < |t| {
      var e := MatchEnd(t, q).value;
      MatchIsEmail(t, q);
      forall j: nat | IsEmailAt(t, q, j)
        ensures j <= e
      {
        MatchIsLongest(t, q, j);
      }
      SearchIsLeftmostLongest(t, e);
      ConsParts(Span(q, e), EmailSpans(t, e));
    } else {
      forall i: nat, j: nat | p <= i
        ensures !IsEmailAt(t, i, j)
      {
        EmailsEndInside(t, i, j);
      }
    }
  }

  lemma EmailsEndInside(t: Text, i: nat, j: nat)
    ensures IsEmailAt(t, i, j) ==> i < |t|
  {
  }

  /** Each span is the leftmost occurrence of the name from the end of the one before. */
  ghost predicate LeftmostNames(fold: CodeUnit -> CodeUnit, t: Text, name: Text, p: nat, spans: seq<Span>)
    decreases spans
  {
    if spans == [] then forall q: nat :: p <= q < |t| ==> !NameAt(fold, t, name, q)
    else
      && NameAt(fold, t, name, spans[0].from) && spans[0].to == spans[0].from + |name|
      && (forall q: nat :: p <= q < spans[0].from ==> !NameAt(fold, t, name, q))
      && LeftmostNames(fold, t, name, spans[0].to, spans[1..])
  }

  /** The next occurrence of a name is the first there is. */
  lemma {:induction false} NameFoundExactly(fold: CodeUnit -> CodeUnit, t: Text, name: Text, p: nat)
    requires p <= |t| && name != []
    ensures NextName(fold, t, name, p) < |t| ==> NameAt(fold, t, name, NextName(fold, t, name, p))
    ensures forall q: nat :: p <= q < NextName(fold, t, name, p) ==> !NameAt(fold, t, name, q)
    decreases |t| - p
  {
    if p < |t| && !NameAt(fold, t, name, p) {
      NameFoundExactly(fold, t, name, p + 1);
    }
  }

  lemma NextNameLeads(fold: CodeUnit -> CodeUnit, t: Text, name: Text, p: nat, q: nat, spans: seq<Span>)
    requires NameAt(fold, t, name, q) && LeftmostNames(fold, t, name, q + |name|, spans)
    requires forall k: nat :: p <= k < q ==> !NameAt(fold, t, name, k)
    ensures LeftmostNames(fold, t, name, p, [Span(q, q + |name|)] + spans)
  {
    ConsParts(Span(q, q + |name|), spans);
  }

  lemma {:induction false} NameSearchIsLeftmost(fold: CodeUnit -> CodeUnit, t: Text, name: Text, p: nat)
    requires p <= |t| && name != []
    ensures LeftmostNames(fold, t, name, p, NameSpans(fold, t, name, p))
    decreases |t| - p
  {
    var q := NextName(fold, t, name, p);
    NameFoundExactly(fold, t, name, p);
    if q < |t| {
      NameSearchIsLeftmost(fold, t, name, q + |name|);
      NextNameLeads(fold, t, name, p, q, NameSpans(fold, t, name, q + |name|));
    }
  }

  /** A first match exists exactly when the text holds an e-mail. */
  lemma FoundExactly(t: Text)
    ensures NextEmail(t, 0) < |t| <==> HasEmail(t)
  {
    if NextEmail(t, 0) < |t| {
      MatchIsEmail(t, NextEmail(t, 0));
    } else if HasEmail(t) {
      var i: nat, j: nat :| IsEmailAt(t, i, j);
      NoEmailBefore(t, 0, i, j);
      EmailsEndInside(t, i, j);
    }
  }

  /** `kept0 cut0 kept1 cut1 … keptN`. */
  function Weave(kept: seq<Text>, cut: seq<Text>): Text
    requires |kept| == |cut| + 1
  {
    if cut == [] then kept[0] else kept[0] + cut[0] + Weave(kept[1..], cut[1..])
  }

  function Kept(t: Text, p: nat, spans: seq<Span>): (r: seq<Text>)
    requires Fits(t, p, spans)
    ensures |r| == |spans| + 1
    decreases spans
  {
    FitsWithin(t, p, spans);
    if spans == [] then [t[p..]] else [t[p..spans[0].from]] + Kept(t, spans[0].to, spans[1..])
  }

  function Cut(t: Text, p: nat, spans: seq<Span>): (r: seq<Text>)
    requires Fits(t, p, spans)
    ensures |r| == |spans|
    decreases spans
  {
    FitsWithin(t, p, spans);
    if spans == [] then [] else [t[spans[0].from..spans[0].to]] + Cut(t, spans[0].to, spans[1..])
  }

  function Tokens(token: Text, n: nat): (r: seq<Text>)
    ensures |r| == n && forall i :: 0 <= i < n ==> r[i] == token
  {
    if n == 0 then [] else [token] + Tokens(token, n - 1)
  }

  lemma WeaveCons(k: Text, kept: seq<Text>, c: Text, cut: seq<Text>)
    requires |kept| == |cut| + 1
    ensures Weave([k] + kept, [c] + cut) == k + c + Weave(kept, cut)
  {
    ConsParts(k, kept);
    ConsParts(c, cut);
  }

  /** Text and output are the same pieces, woven with what is cut out and with as many tokens. */
  lemma {:induction false} OnlySpansReplaced(t: Text, p: nat, spans: seq<Span>, token: Text)
    requires Fits(t, p, spans)
    ensures p <= |t| && Weave(Kept(t, p, spans), Cut(t, p, spans)) == t[p..]
    ensures Weave(Kept(t, p, spans), Tokens(token, |spans|)) == Substitute(t, p, spans, token)
    decreases spans
  {
    FitsWithin(t, p, spans);
    if spans == [] {
    } else {
      var q, e := spans[0].from, spans[0].to;
      OnlySpansReplaced(t, e, spans[1..], token);
      WeaveCons(t[p..q], Kept(t, e, spans[1..]), t[q..e], Cut(t, e, spans[1..]));
      WeaveCons(t[p..q], Kept(t, e, spans[1..]), token, Tokens(token, |spans| - 1));
      ThreePieces(t, p, q, e);
    }
  }

  lemma ThreePieces(t: Text, p: nat, q: nat, e: nat)
    requires p <= q <= e <= |t|
    ensures t[p..q] + t[q..e] + t[e..] == t[p..]
  {
  }

  // ---------------------------------------------------------------------------
  // The whole pass
  // ---------------------------------------------------------------------------

  /** What lies between the spans: before the first, from each to the next, behind the last. */
  predicate Pieces(t: Text, spans: seq<Span>, kept: seq<Text>) {
    && |kept| == |spans| + 1
    && forall k :: 0 <= k <= |spans| ==>
         var from := if k == 0 then 0 else spans[k - 1].to;
         var to := if k == |spans| then |t| else spans[k].from;
         from <= to <= |t| && kept[k] == t[from..to]
  }

  /** `u` is `t` with the token in place of each span. */
  ghost predicate Replaced(t: Text, spans: seq<Span>, token: Text, u: Text) {
    exists kept: seq<Text> :: Pieces(t, spans, kept) && u == Weave(kept, seq(|spans|, _ => token))
  }

  lemma {:induction false} KeptAt(t: Text, p: nat, spans: seq<Span>, k: nat)
    requires Fits(t, p, spans) && k <= |spans|
    ensures var from := if k == 0 then p else spans[k - 1].to;
            var to := if k == |spans| then |t| else spans[k].from;
            from <= to <= |t| && Kept(t, p, spans)[k] == t[from..to]
    decreases spans
  {
    FitsWithin(t, p, spans);
    if spans == [] {
      DropAsSlice(t, p);
    } else {
      FitsWithin(t, spans[0].to, spans[1..]);
      if k > 0 {
        KeptAt(t, spans[0].to, spans[1..], k - 1);
        ConsParts(t[p..spans[0].from], Kept(t, spans[0].to, spans[1..]));
      }
    }
  }

  lemma SubstituteReplaces(t: Text, spans: seq<Span>, token: Text)
    requires Fits(t, 0, spans)
    ensures Replaced(t, spans, token, Substitute(t, 0, spans, token))
  {
    var kept := Kept(t, 0, spans);
    forall k: nat | k <= |spans|
      ensures var from := if k == 0 then 0 else spans[k - 1].to;
              var to := if k == |spans| then |t| else spans[k].from;
              from <= to <= |t| && kept[k] == t[from..to]
    {
      KeptAt(t, 0, spans, k);
    }
    assert Pieces(t, spans, kept);
    OnlySpansReplaced(t, 0, spans, token);
    assert Tokens(token, |spans|) == seq(|spans|, _ => token);
  }

  /** `u` is `t` with every e-mail replaced, leftmost first and each as long as it goes. */
  ghost predicate EmailPass(t: Text, spans: seq<Span>, u: Text) {
    LeftmostLongest(t, 0, spans) && Replaced(t, spans, Ascii("[REDACTED_EMAIL]"), u)
  }

  /** `u` is `t` with every occurrence of the trimmed name replaced, and `t` itself for a blank one. */
  ghost predicate NamePass(fold: CodeUnit -> CodeUnit, t: Text, rawName: Text, spans: seq<Span>, u: Text) {
    var name := Trim(rawName);
    if name == [] then spans == [] && u == t
    else LeftmostNames(fold, t, name, 0, spans) && Replaced(t, spans, Ascii("[REDACTED_NAME]"), u)
  }

  /** Text after text: the input, then one for the e-mails, then one for each name in turn, with what was cut out. */
  datatype Trace = Trace(texts: seq<Text>, emails: seq<Span>, names: seq<seq<Span>>)

  ghost predicate Traces(fold: CodeUnit -> CodeUnit, text: Text, names: seq<Text>, trace: Trace) {
    && |trace.texts| == |names| + 1 && |trace.names| == |names|
    && EmailPass(text, trace.emails, trace.texts[0])
    && forall k :: 0 <= k < |names| ==> NamePass(fold, trace.texts[k], names[k], trace.names[k], trace.texts[k + 1])
  }

  /** Some name was found when its turn came. */
  predicate NameFound(trace: Trace) {
    exists k :: 0 <= k < |trace.names| && trace.names[k] != []
  }

  lemma EmailsReplaced(t: Text)
    ensures EmailPass(t, EmailSpans(t, 0), ReplaceEmails(t))
    ensures HasEmail(t) <==> EmailSpans(t, 0) != []
  {
    EmailSpansFit(t, 0);
    SearchIsLeftmostLongest(t, 0);
    SubstituteReplaces(t, EmailSpans(t, 0), EMAIL_TOKEN);
    FoundExactly(t);
  }

  lemma NameReplaced(fold: CodeUnit -> CodeUnit, t: Text, rawName: Text)
    ensures Trim(rawName) == [] ==> NamePass(fold, t, rawName, [], t)
    ensures Trim(rawName) != [] ==>
              NamePass(fold, t, rawName, NameSpans(fold, t, Trim(rawName), 0), ReplaceName(fold, t, Trim(rawName)))
    ensures Trim(rawName) != [] && NameSpans(fold, t, Trim(rawName), 0) == [] ==> NamePass(fold, t, rawName, [], t)
  {
    var name := Trim(rawName);
    if name != [] {
      var spans := NameSpans(fold, t, name, 0);
      NameSpansFit(fold, t, name, 0);
      NameSearchIsLeftmost(fold, t, name, 0);
      SubstituteReplaces(t, spans, NAME_TOKEN);
    }
  }

  /** One name more. */
  lemma TraceOn(fold: CodeUnit -> CodeUnit, text: Text, names: seq<Text>, rawName: Text, before: Trace,
                spans: seq<Span>, u: Text) returns (trace: Trace)
    requires Traces(fold, text, names, before) && NamePass(fold, before.texts[|names|], rawName, spans, u)
    ensures Traces(fold, text, names + [rawName], trace) && trace.texts[|names| + 1] == u
    ensures NameFound(trace) <==> NameFound(before) || spans != []
  {
    trace := Trace(before.texts + [u], before.emails, before.names + [spans]);
    forall k | 0 <= k < |names + [rawName]|
      ensures NamePass(fold, trace.texts[k], (names + [rawName])[k], trace.names[k], trace.texts[k + 1])
    {
      assert k < |names| ==> NamePass(fold, before.texts[k], names[k], before.names[k], before.texts[k + 1]);
    }
    assert trace.names[|names|] == spans;
    assert forall k :: 0 <= k < |names| ==> trace.names[k] == before.names[k];
  }

  /** The category of a redaction, in the order the report sorts them. */
  datatype Category = Email | Name

  datatype RedactionResult = RedactionResult(redactedText: Text, redactionsApplied: seq<Category>)

  function Report(applied: set<Category>): seq<Category> {
    (if Email in applied then [Email] else []) + (if Name in applied then [Name] else [])
  }

  /**
   * `redactPii`. Some trace leads from the text to the result: every e-mail replaced, then name after name. No
   * stretch of the result has the e-mail shape; `email` is reported exactly when the text held one, `name` exactly
   * when some name was found.
   */
  method RedactPii(fold: CodeUnit -> CodeUnit, text: Text, knownNames: seq<Text>)
    returns (r: RedactionResult)
    ensures !HasEmail(r.redactedText)
    ensures exists trace: Trace ::
              && Traces(fold, text, knownNames, trace) && r.redactedText == trace.texts[|knownNames|]
              && r.redactionsApplied
                 == (if HasEmail(text) then [Email] else []) + (if NameFound(trace) then [Name] else [])
  {
    var applied: set<Category> := {};
    FoundExactly(text);
    if NextEmail(text, 0) < |text| {
      applied := applied + {Email};
    }
    var redacted := ReplaceEmails(text);
    EmailPassIsClean(text);
    EmailsReplaced(text);
    ghost var trace := Trace([redacted], EmailSpans(text, 0), []);
    for n := 0 to |knownNames|
      invariant !HasEmail(redacted)
      invariant Traces(fold, text, knownNames[..n], trace) && trace.texts[n] == redacted
      invariant Name in applied <==> NameFound(trace)
      invariant Email in applied <==> HasEmail(text)
    {
      var name := Trim(knownNames[n]);
      ghost var spans: seq<Span> := [];
      NameReplaced(fold, redacted, knownNames[n]);
      if name != [] && NextName(fold, redacted, name, 0) < |redacted| {
        NamePassIsClean(fold, redacted, name);
        spans := NameSpans(fold, redacted, name, 0);
        applied := applied + {Name};
        redacted := ReplaceName(fold, redacted, name);
      }
      trace := TraceOn(fold, text, knownNames[..n], knownNames[n], trace, spans, redacted);
      TakeNext(knownNames, n);
    }
    TakeAll(knownNames);
    r := RedactionResult(redacted, Report(applied));
  }

  // ---------------------------------------------------------------------------
  // Names are searched for literally
  // ---------------------------------------------------------------------------

  const SPECIALS: Text := Ascii(".*+?^${}()|[]\\")

  /** `value.replace(/[.*+?^${}()|[\]\\]/g, "\\$&")`. */
  function EscapeRegExp(value: Text): Text {
    if value == [] then []
    else (if value[0] in SPECIALS then [BACKSLASH, value[0]] else [value[0]]) + EscapeRegExp(value[1..])
  }

  /** The literal a pattern stands for, when it contains no live operator. */
  function PatternLiteral(pattern: Text): Option<Text> {
    if pattern == [] then Some([])
    else if pattern[0] == BACKSLASH then
      if |pattern| < 2 || pattern[1] !in SPECIALS then None
      else
        match PatternLiteral(pattern[2..])
        case None => None
        case Some(rest) => Some([pattern[1]] + rest)
    else if pattern[0] in SPECIALS then None
    else
      match PatternLiteral(pattern[1..])
      case None => None
      case Some(rest) => Some([pattern[0]] + rest)
  }

  /** The operators of the pattern language, each once. */
  lemma SpecialsSpelled(u: CodeUnit)
    ensures u in SPECIALS <==> u in {0x24, 0x28, 0x29, 0x2A, 0x2B, 0x2E, 0x3F, 0x5B, 0x5C, 0x5D, 0x5E, 0x7B, 0x7C, 0x7D}
  {
    assert SPECIALS == [0x2E, 0x2A, 0x2B, 0x3F, 0x5E, 0x24, 0x7B, 0x7D, 0x28, 0x29, 0x7C, 0x5B, 0x5D, 0x5C];
  }

  /** Escaping leaves no operator alive: the pattern for a name stands for exactly that name. */
  lemma {:induction false} EscapedIsLiteral(value: Text)
    ensures PatternLiteral(EscapeRegExp(value)) == Some(value)
  {
    if value == [] {
    } else {
      EscapedIsLiteral(value[1..]);
      var u, rest := value[0], EscapeRegExp(value[1..]);
      assert BACKSLASH in SPECIALS by { assert SPECIALS[|SPECIALS| - 1] == BACKSLASH; }
      if u in SPECIALS {
        assert ([BACKSLASH, u] + rest)[2..] == rest;
      } else {
        assert ([u] + rest)[1..] == rest;
      }
      Cons(value);
    }
  }
}
