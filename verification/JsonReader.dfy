/**
 * A reader for canonical text: the left inverse that shows the canonical serialiser loses nothing
 * but key order and undefined fields.  On texts that `JSON.stringify` prints it is `JSON.parse`.
 */
module JsonReader {
  import opened JsText
  import opened Json
  import opened Sequences

  predicate StartsWith(t: Text, p: Text) {
    |p| <= |t| && forall i :: 0 <= i < |p| ==> t[i] == p[i]
  }

  predicate IsHexUnit(u: CodeUnit) {
    IsDigit(u) || 0x61 <= u <= 0x66
  }

  function HexValue(u: CodeUnit): (d: CodeUnit)
    requires IsHexUnit(u)
    ensures 0 <= d < 16
  {
    if IsDigit(u) then u - 0x30 else u - 0x57
  }

  /** The unit a two-unit escape stands for. */
  function ShortEscape(u: CodeUnit): Option<CodeUnit> {
    if u == 0x62 then Some(0x08)
    else if u == 0x74 then Some(0x09)
    else if u == 0x6E then Some(0x0A)
    else if u == 0x66 then Some(0x0C)
    else if u == 0x72 then Some(0x0D)
    else if u == QUOTE || u == BACKSLASH then Some(u)
    else None
  }

  function Prepend(u: CodeUnit, r: Option<(Text, Text)>): Option<(Text, Text)> {
    match r
    case None => None
    case Some(p) => Some(([u] + p.0, p.1))
  }

  /** Reads a string body up to and including its closing quote. */
  function ReadString(t: Text): (r: Option<(Text, Text)>)
    ensures r.Some? ==> |r.value.1| < |t|
  {
    if t == [] then None
    else if t[0] == QUOTE then Some(([], t[1..]))
    else if t[0] != BACKSLASH then Prepend(t[0], ReadString(t[1..]))
    else if |t| < 2 then None
    else if t[1] != 0x75 then
      match ShortEscape(t[1])
      case None => None
      case Some(u) => Prepend(u, ReadString(t[2..]))
    else if |t| < 6 || !(forall i :: 2 <= i < 6 ==> IsHexUnit(t[i])) then None
    else
      var u := ((HexValue(t[2]) * 16 + HexValue(t[3])) * 16 + HexValue(t[4])) * 16 + HexValue(t[5]);
      Prepend(u, ReadString(t[6..]))
  }

  function NumberSpan(t: Text): (n: nat)
    ensures n <= |t|
  {
    if t == [] || !IsNumUnit(t[0]) then 0 else 1 + NumberSpan(t[1..])
  }

  function ReadNumber(t: Text): (r: Option<(Js, Text)>)
    ensures r.Some? ==> |r.value.1| < |t|
  {
    var n := NumberSpan(t);
    if IsNumText(t[..n]) then Some((Num(Finite(t[..n])), t[n..])) else None
  }

  function ReadValue(t: Text): (r: Option<(Js, Text)>)
    ensures r.Some? ==> |r.value.1| < |t|
    decreases |t|, 0
  {
    if t == [] then None
    else if t[0] == QUOTE then
      match ReadString(t[1..])
      case None => None
      case Some(p) => Some((Str(p.0), p.1))
    else if t[0] == LBRACKET then
      if |t| > 1 && t[1] == RBRACKET then Some((Arr([]), t[2..]))
      else
        match ReadElems(t[1..])
        case None => None
        case Some(p) => Some((Arr(p.0), p.1))
    else if t[0] == LBRACE then
      if |t| > 1 && t[1] == RBRACE then Some((Obj([]), t[2..]))
      else
        match ReadMembers(t[1..])
        case None => None
        case Some(p) => Some((Obj(p.0), p.1))
    else if IsDigit(t[0]) || t[0] == 0x2D then ReadNumber(t)
    else ReadWord(t)
  }

  function ReadWord(t: Text): (r: Option<(Js, Text)>)
    ensures r.Some? ==> |r.value.1| < |t|
  {
    if StartsWith(t, NULL_TEXT) then Some((Null, t[4..]))
    else if StartsWith(t, TRUE_TEXT) then Some((Bool(true), t[4..]))
    else if StartsWith(t, FALSE_TEXT) then Some((Bool(false), t[5..]))
    else None
  }

  /** One array slot: nothing before the separator means undefined. */
  function ReadSlot(t: Text): (r: Option<(Js, Text)>)
    ensures r.Some? ==> |r.value.1| <= |t|
    decreases |t|, 1
  {
    if t != [] && (t[0] == COMMA || t[0] == RBRACKET) then Some((Undefined, t)) else ReadValue(t)
  }

  function ReadElems(t: Text): (r: Option<(seq<Js>, Text)>)
    ensures r.Some? ==> |r.value.1| < |t|
    decreases |t|, 2
  {
    match ReadSlot(t)
    case None => None
    case Some(p) =>
      var (v, rest) := p;
      if rest == [] then None
      else if rest[0] == RBRACKET then Some(([v], rest[1..]))
      else if rest[0] == COMMA then
        match ReadElems(rest[1..])
        case None => None
        case Some(q) => Some(([v] + q.0, q.1))
      else None
  }

  function ReadMember(t: Text): (r: Option<(Field, Text)>)
    ensures r.Some? ==> |r.value.1| < |t|
    decreases |t|, 0
  {
    if t == [] || t[0] != QUOTE then None
    else
      match ReadString(t[1..])
      case None => None
      case Some(k) =>
        if k.1 == [] || k.1[0] != COLON then None
        else
          match ReadMemberValue(k.1[1..])
          case None => None
          case Some(p) => Some((Field(k.0, p.0), p.1))
  }

  /** After a colon the word `undefined` may stand, for a function. */
  function ReadMemberValue(t: Text): (r: Option<(Js, Text)>)
    ensures r.Some? ==> |r.value.1| < |t|
    decreases |t|, 1
  {
    if StartsWith(t, UNDEFINED_TEXT) then Some((Code, t[|UNDEFINED_TEXT|..])) else ReadValue(t)
  }

  function ReadMembers(t: Text): (r: Option<(seq<Field>, Text)>)
    ensures r.Some? ==> |r.value.1| < |t|
    decreases |t|, 1
  {
    match ReadMember(t)
    case None => None
    case Some(p) =>
      var (f, rest) := p;
      if rest == [] then None
      else if rest[0] == RBRACE then Some(([f], rest[1..]))
      else if rest[0] == COMMA then
        match ReadMembers(rest[1..])
        case None => None
        case Some(q) => Some(([f] + q.0, q.1))
      else None
  }

  // ---------------------------------------------------------------------------
  // Reading undoes printing
  // ---------------------------------------------------------------------------

  lemma HexDigitRoundTrip(d: CodeUnit)
    requires d < 16
    ensures IsHexUnit(HexDigit(d)) && HexValue(HexDigit(d)) == d
  {
  }

  lemma HexRoundTrip(u: CodeUnit)
    ensures forall i :: 0 <= i < 4 ==> IsHexUnit(Hex4(u)[i])
    ensures ((HexValue(Hex4(u)[0]) * 16 + HexValue(Hex4(u)[1])) * 16 + HexValue(Hex4(u)[2])) * 16
            + HexValue(Hex4(u)[3]) == u
  {
    var q := u / 16;
    HexDigitRoundTrip(q / 16 / 16);
    HexDigitRoundTrip(q / 16 % 16);
    HexDigitRoundTrip(q % 16);
    HexDigitRoundTrip(u % 16);
  }

  lemma ReadPlainUnit(u: CodeUnit, t: Text)
    requires u != QUOTE && u != BACKSLASH
    ensures ReadString([u] + t) == Prepend(u, ReadString(t))
  {
    assert ([u] + t)[1..] == t;
  }

  lemma ReadShortUnit(c: CodeUnit, t: Text)
    requires ShortEscape(c).Some?
    ensures ReadString([BACKSLASH, c] + t) == Prepend(ShortEscape(c).value, ReadString(t))
  {
    assert ([BACKSLASH, c] + t)[2..] == t;
  }

  lemma ReadHexUnit(h: Text, t: Text)
    requires |h| == 4 && forall i :: 0 <= i < 4 ==> IsHexUnit(h[i])
    ensures ReadString([BACKSLASH, 0x75] + h + t) ==
            Prepend(((HexValue(h[0]) * 16 + HexValue(h[1])) * 16 + HexValue(h[2])) * 16 + HexValue(h[3]),
                    ReadString(t))
  {
    var s := [BACKSLASH, 0x75] + h + t;
    assert s[6..] == t;
    assert forall i :: 2 <= i < 6 ==> s[i] == h[i - 2];
  }

  lemma ReadEscapedUnit(u: CodeUnit, t: Text)
    ensures ReadString(EscapeUnit(u) + t) == Prepend(u, ReadString(t))
  {
    var e := EscapeUnit(u);
    if |e| == 1 {
      ReadPlainUnit(u, t);
    } else if |e| == 2 {
      ReadShortUnit(e[1], t);
      assert e == [BACKSLASH, e[1]];
    } else {
      HexRoundTrip(u);
      ReadHexUnit(Hex4(u), t);
    }
  }

  lemma RegroupPair(a: CodeUnit, b: CodeUnit, e: Text, tail: Text)
    ensures [a, b] + e + tail == [a] + ([b] + (e + tail))
    ensures [a, b] + e == [a] + ([b] + e)
  {
  }

  lemma EscapePairText(s: Text, tail: Text)
    requires StartsWithPair(s)
    ensures Escape(s) + tail == [s[0]] + ([s[1]] + (Escape(s[2..]) + tail))
    ensures s == [s[0]] + ([s[1]] + s[2..])
  {
    RegroupPair(s[0], s[1], Escape(s[2..]), tail);
    assert s == [s[0], s[1]] + s[2..];
    RegroupPair(s[0], s[1], s[2..], tail);
  }

  lemma EscapeStepText(s: Text, tail: Text)
    requires s != [] && !StartsWithPair(s)
    ensures Escape(s) + tail == EscapeUnit(s[0]) + (Escape(s[1..]) + tail)
    ensures s == [s[0]] + s[1..]
  {
  }

  lemma {:induction false} ReadEscaped(s: Text, rest: Text)
    ensures ReadString(Escape(s) + ([QUOTE] + rest)) == Some((s, rest))
  {
    var tail := [QUOTE] + rest;
    if s == [] {
      assert Escape(s) + tail == tail;
      assert tail[1..] == rest;
    } else if StartsWithPair(s) {
      ReadEscaped(s[2..], rest);
      EscapePairText(s, tail);
      var t := Escape(s[2..]) + tail;
      ReadPlainUnit(s[1], t);
      ReadPlainUnit(s[0], [s[1]] + t);
    } else {
      ReadEscaped(s[1..], rest);
      EscapeStepText(s, tail);
      ReadEscapedUnit(s[0], Escape(s[1..]) + tail);
    }
  }

  /** What can follow a value inside canonical text. */
  predicate Delimited(rest: Text) {
    rest == [] || rest[0] == COMMA || rest[0] == RBRACKET || rest[0] == RBRACE
  }

  lemma {:induction false} SpanOfNumber(n: Text, rest: Text)
    requires forall i :: 0 <= i < |n| ==> IsNumUnit(n[i])
    requires Delimited(rest)
    ensures NumberSpan(n + rest) == |n|
  {
    if n == [] {
      assert n + rest == rest;
    } else {
      SpanOfNumber(n[1..], rest);
      assert (n + rest)[1..] == n[1..] + rest;
    }
  }

  lemma ReadLeaf(v: Js, rest: Text)
    requires v.Null? || v.Bool? || v.Num?
    requires Normal(v) && Delimited(rest)
    ensures ReadValue(Print(v) + rest) == Some((v, rest))
  {
    var p := Print(v);
    var t := p + rest;
    assert t[|p|..] == rest && t[..|p|] == p;
    assert t[0] == p[0];
    if v.Num? {
      SpanOfNumber(v.n.text, rest);
    } else {
      assert StartsWith(t, p);
    }
  }

  lemma ReadQuoted(s: Text, rest: Text)
    ensures ReadValue(Quote(s) + rest) == Some((Str(s), rest))
  {
    var t := Quote(s) + rest;
    ReadEscaped(s, rest);
    assert t[1..] == Escape(s) + ([QUOTE] + rest);
    assert t[0] == QUOTE;
  }

  lemma PrintStart(v: Js)
    requires Normal(v) && v != Undefined && v != Code
    ensures Print(v) != [] && !Delimited(Print(v)) && Print(v)[0] != UNDEFINED_TEXT[0]
  {
  }

  lemma OpenArray(body: Text)
    requires body != []
    ensures ReadValue([LBRACKET] + body) ==
            if body[0] == RBRACKET then Some((Arr([]), body[1..]))
            else match ReadElems(body) case None => None case Some(p) => Some((Arr(p.0), p.1))
  {
    var t := [LBRACKET] + body;
    assert t[1..] == body && t[2..] == body[1..];
  }

  lemma OpenObject(body: Text)
    requires body != []
    ensures ReadValue([LBRACE] + body) ==
            if body[0] == RBRACE then Some((Obj([]), body[1..]))
            else match ReadMembers(body) case None => None case Some(p) => Some((Obj(p.0), p.1))
  {
    var t := [LBRACE] + body;
    assert t[1..] == body && t[2..] == body[1..];
  }

  lemma {:induction false} ReadPrinted(v: Js, rest: Text)
    requires Normal(v) && v != Undefined && v != Code && Delimited(rest)
    ensures ReadValue(Print(v) + rest) == Some((v, rest))
    decreases v, 1
  {
    match v
    case Arr(elems) => ReadPrintedArr(elems, rest);
    case Obj(fields) => ReadPrintedObj(fields, rest);
    case Str(s) => ReadQuoted(s, rest);
    case _ => ReadLeaf(v, rest);
  }

  lemma BracketText(open: CodeUnit, inner: Text, close: CodeUnit, rest: Text)
    ensures [open] + inner + [close] + rest == [open] + (inner + [close] + rest)
    ensures inner == [] ==> inner + [close] + rest == [close] + rest
    ensures ([close] + rest)[1..] == rest
    ensures inner != [] ==> (inner + [close] + rest)[0] == inner[0]
  {
  }

  lemma {:induction false} ReadPrintedArr(elems: seq<Js>, rest: Text)
    requires Normal(Arr(elems))
    ensures ReadValue(Print(Arr(elems)) + rest) == Some((Arr(elems), rest))
    decreases elems, 1
  {
    var inner := Join(PrintElems(elems));
    BracketText(LBRACKET, inner, RBRACKET, rest);
    OpenArray(inner + [RBRACKET] + rest);
    if elems == [] {
    } else {
      ReadPrintedElems(elems, rest);
      assert elems[0] == Undefined && |elems| == 1 ==> elems == [Undefined];
      JoinStart(elems);
    }
  }

  lemma {:induction false} ReadPrintedObj(fields: seq<Field>, rest: Text)
    requires Normal(Obj(fields))
    ensures ReadValue(Print(Obj(fields)) + rest) == Some((Obj(fields), rest))
    decreases fields, 1
  {
    var inner := Join(Seconds(PrintMembers(fields)));
    BracketText(LBRACE, inner, RBRACE, rest);
    OpenObject(inner + [RBRACE] + rest);
    if fields == [] {
    } else {
      ReadPrintedFields(fields, rest);
      MembersStart(fields);
    }
  }

  lemma JoinFirst(texts: seq<Text>)
    requires |texts| > 1 || (|texts| == 1 && texts[0] != [])
    ensures Join(texts) != [] && Join(texts)[0] == if texts[0] == [] then COMMA else texts[0][0]
  {
  }

  lemma PrintElemsHead(elems: seq<Js>)
    requires elems != []
    ensures |PrintElems(elems)| == |elems|
    ensures PrintElems(elems)[0] == Print(elems[0])
  {
    PrintElemsLength(elems);
  }

  lemma {:induction false} PrintElemsLength(elems: seq<Js>)
    ensures |PrintElems(elems)| == |elems|
  {
    if elems == [] {
    } else {
      PrintElemsLength(elems[1..]);
    }
  }

  /** A nonempty array that is not `[undefined]` never prints as `[]`. */
  lemma JoinStart(elems: seq<Js>)
    requires elems != [] && elems[0] != Code && Normal(elems[0])
    requires elems[0] == Undefined ==> |elems| > 1
    ensures Join(PrintElems(elems)) != [] && Join(PrintElems(elems))[0] != RBRACKET
  {
    PrintElemsHead(elems);
    if elems[0] != Undefined {
      PrintStart(elems[0]);
    }
    JoinFirst(PrintElems(elems));
  }

  /** One slot of an array, up to the separator behind it. */
  lemma {:induction false} ReadPrintedSlot(e: Js, after: Text)
    requires Normal(e) && e != Code && after != [] && (after[0] == COMMA || after[0] == RBRACKET)
    ensures ReadSlot(Print(e) + after) == Some((e, after))
    decreases e, 2
  {
    if e == Undefined {
      assert Print(e) + after == after;
    } else {
      PrintStart(e);
      assert (Print(e) + after)[0] == Print(e)[0];
      ReadPrinted(e, after);
    }
  }

  lemma ReadLastSlot(text: Text, e: Js, rest: Text)
    requires ReadSlot(text) == Some((e, [RBRACKET] + rest))
    ensures ReadElems(text) == Some(([e], rest))
  {
    assert ([RBRACKET] + rest)[1..] == rest;
  }

  lemma ReadNextSlot(text: Text, e: Js, t: Text, es: seq<Js>, rest: Text)
    requires ReadSlot(text) == Some((e, [COMMA] + t))
    requires ReadElems(t) == Some((es, rest))
    ensures ReadElems(text) == Some(([e] + es, rest))
  {
    assert ([COMMA] + t)[1..] == t;
  }

  /** The printed elements, with what follows the first of them split off. */
  lemma ElemsSplit(elems: seq<Js>, rest: Text)
    requires elems != []
    ensures var after := if |elems| == 1 then [RBRACKET] + rest
                         else [COMMA] + (Join(PrintElems(elems[1..])) + [RBRACKET] + rest);
            Join(PrintElems(elems)) + [RBRACKET] + rest == Print(elems[0]) + after
  {
    PrintElemsLength(elems[1..]);
    JoinCons(Print(elems[0]), PrintElems(elems[1..]), RBRACKET, rest);
  }

  lemma {:induction false} ReadPrintedElems(elems: seq<Js>, rest: Text)
    requires elems != []
    requires forall i :: 0 <= i < |elems| ==> elems[i] != Code && Normal(elems[i])
    ensures ReadElems(Join(PrintElems(elems)) + [RBRACKET] + rest) == Some((elems, rest))
    decreases elems, 0
  {
    var e := elems[0];
    var text := Join(PrintElems(elems)) + [RBRACKET] + rest;
    ElemsSplit(elems, rest);
    if |elems| == 1 {
      ReadPrintedSlot(e, [RBRACKET] + rest);
      ReadLastSlot(text, e, rest);
      assert elems == [e];
    } else {
      var t := Join(PrintElems(elems[1..])) + [RBRACKET] + rest;
      ReadPrintedSlot(e, [COMMA] + t);
      ReadPrintedElems(elems[1..], rest);
      ReadNextSlot(text, e, t, elems[1..], rest);
      Cons(elems);
    }
  }

  lemma RegroupMember(q: Text, e: Text, c: Text, p: Text, after: Text)
    ensures q + e + q + c + p + after == q + (e + (q + (c + (p + after))))
  {
  }

  lemma RegroupList(m: Text, comma: Text, j: Text, close: Text, rest: Text)
    ensures m + comma + j + close + rest == m + (comma + (j + close + rest))
  {
    calc {
      m + comma + j + close + rest;
      m + comma + (j + close + rest);
      m + (comma + (j + close + rest));
    }
  }

  /** A joined list with its closing bracket, split after the first text. */
  lemma JoinSplit(texts: seq<Text>, close: CodeUnit, rest: Text)
    requires |texts| > 1
    ensures Join(texts) + [close] + rest == texts[0] + ([COMMA] + (Join(texts[1..]) + [close] + rest))
  {
    RegroupList(texts[0], [COMMA], Join(texts[1..]), [close], rest);
  }

  lemma JoinCons(first: Text, more: seq<Text>, close: CodeUnit, rest: Text)
    ensures Join([first] + more) + [close] + rest
            == first + if more == [] then [close] + rest else [COMMA] + (Join(more) + [close] + rest)
  {
    ConsParts(first, more);
    if more == [] {
      Regroup(first, [close], rest);
    } else {
      JoinSplit([first] + more, close, rest);
    }
  }

  lemma {:induction false} ReadPrintedValue(v: Js, rest: Text)
    requires Normal(v) && v != Undefined && Delimited(rest)
    ensures ReadMemberValue(ValueText(v) + rest) == Some((v, rest))
    decreases v, 2
  {
    var t := ValueText(v) + rest;
    if v == Code {
      assert t[|UNDEFINED_TEXT|..] == rest;
    } else {
      PrintStart(v);
      assert t[0] == Print(v)[0];
      ReadPrinted(v, rest);
    }
  }

  lemma ReadPrintedMember(f: Field, after: Text)
    requires ReadMemberValue(ValueText(f.val) + after) == Some((f.val, after))
    ensures ReadMember(Quote(f.key) + [COLON] + ValueText(f.val) + after) == Some((f, after))
  {
    var t := Quote(f.key) + [COLON] + ValueText(f.val) + after;
    var keyed := [COLON] + (ValueText(f.val) + after);
    RegroupMember([QUOTE], Escape(f.key), [COLON], ValueText(f.val), after);
    assert t[0] == QUOTE && t[1..] == Escape(f.key) + ([QUOTE] + keyed);
    ReadEscaped(f.key, keyed);
    assert keyed[1..] == ValueText(f.val) + after;
  }

  /** The printed members, with what follows the first of them split off. */
  lemma MembersSplit(fields: seq<Field>, rest: Text)
    requires fields != []
    ensures var after := if |fields| == 1 then [RBRACE] + rest
                         else [COMMA] + (Join(Seconds(PrintMembers(fields[1..]))) + [RBRACE] + rest);
            Join(Seconds(PrintMembers(fields))) + [RBRACE] + rest
            == Quote(fields[0].key) + [COLON] + ValueText(fields[0].val) + after
  {
    SecondsOfCons(fields);
    JoinCons(Quote(fields[0].key) + [COLON] + ValueText(fields[0].val), Seconds(PrintMembers(fields[1..])), RBRACE,
             rest);
  }

  lemma MembersStart(fields: seq<Field>)
    requires fields != []
    ensures Join(Seconds(PrintMembers(fields))) != []
    ensures Join(Seconds(PrintMembers(fields)))[0] == QUOTE
  {
    SecondsOfCons(fields);
    assert Quote(fields[0].key)[0] == QUOTE;
  }

  lemma ReadLastMember(text: Text, f: Field, rest: Text)
    requires ReadMember(text) == Some((f, [RBRACE] + rest))
    ensures ReadMembers(text) == Some(([f], rest))
  {
    assert ([RBRACE] + rest)[1..] == rest;
  }

  lemma ReadNextMember(text: Text, f: Field, t: Text, fs: seq<Field>, rest: Text)
    requires ReadMember(text) == Some((f, [COMMA] + t))
    requires ReadMembers(t) == Some((fs, rest))
    ensures ReadMembers(text) == Some(([f] + fs, rest))
  {
    assert ([COMMA] + t)[1..] == t;
  }

  lemma {:induction false} ReadPrintedFields(fields: seq<Field>, rest: Text)
    requires fields != []
    requires forall i :: 0 <= i < |fields| ==> fields[i].val != Undefined && Normal(fields[i].val)
    ensures ReadMembers(Join(Seconds(PrintMembers(fields))) + [RBRACE] + rest) == Some((fields, rest))
    decreases fields, 0
  {
    var f := fields[0];
    var text := Join(Seconds(PrintMembers(fields))) + [RBRACE] + rest;
    MembersSplit(fields, rest);
    if |fields| == 1 {
      ReadPrintedValue(f.val, [RBRACE] + rest);
      ReadPrintedMember(f, [RBRACE] + rest);
      ReadLastMember(text, f, rest);
      assert fields == [f];
    } else {
      var t := Join(Seconds(PrintMembers(fields[1..]))) + [RBRACE] + rest;
      ReadPrintedValue(f.val, [COMMA] + t);
      ReadPrintedMember(f, [COMMA] + t);
      ReadPrintedFields(fields[1..], rest);
      ReadNextMember(text, f, t, fields[1..], rest);
      Cons(fields);
    }
  }

  lemma SecondsOfCons(fields: seq<Field>)
    requires fields != []
    ensures Seconds(PrintMembers(fields)) ==
            [Quote(fields[0].key) + [COLON] + ValueText(fields[0].val)] + Seconds(PrintMembers(fields[1..]))
    ensures |Seconds(PrintMembers(fields[1..]))| == 0 <==> |fields| == 1
  {
    var ms := PrintMembers(fields);
    assert ms[1..] == PrintMembers(fields[1..]);
  }

  // ---------------------------------------------------------------------------
  // Canonical text determines the value
  // ---------------------------------------------------------------------------

  /** The reader recovers the value with keys sorted and undefined fields dropped. */
  lemma CanonicalRoundTrip(v: Js)
    requires v != Undefined && v != Code && NoLoneHole(v)
    ensures ReadValue(Canonicalise(v)) == Some((Norm(v), []))
  {
    CanonicalIsPrintedNorm(v);
    NormIsNormal(v);
    ReadPrinted(Norm(v), []);
    assert Print(Norm(v)) + [] == Print(Norm(v));
  }

  /** Equal canonical text means equal normal form, and conversely. */
  lemma CanonicalInjective(v: Js, w: Js)
    requires v != Undefined && v != Code && NoLoneHole(v)
    requires w != Undefined && w != Code && NoLoneHole(w)
    ensures Canonicalise(v) == Canonicalise(w) <==> Norm(v) == Norm(w)
  {
    CanonicalRoundTrip(v);
    CanonicalRoundTrip(w);
    CanonicalIsPrintedNorm(v);
    CanonicalIsPrintedNorm(w);
  }

  /** The value with every array of one slot that prints as nothing replaced by `[]`, at any depth. */
  function Collapse(v: Js): Js
    decreases v, 1
  {
    match v
    case Arr(elems) => if LoneHole(elems) then Arr([]) else Arr(CollapseElems(elems))
    case Obj(fields) => Obj(CollapseFields(fields))
    case Custom(own, json) => Custom(CollapseFields(own), json)
    case _ => v
  }

  function CollapseElems(elems: seq<Js>): (r: seq<Js>)
    ensures |r| == |elems|
    decreases elems, 0
  {
    if elems == [] then [] else [Collapse(elems[0])] + CollapseElems(elems[1..])
  }

  function CollapseFields(fields: seq<Field>): seq<Field>
    decreases fields, 0
  {
    if fields == [] then [] else [Field(fields[0].key, Collapse(fields[0].val))] + CollapseFields(fields[1..])
  }

  lemma {:induction false} CollapseKeepsText(v: Js)
    ensures Canonicalise(Collapse(v)) == Canonicalise(v)
    ensures Collapse(v) == Undefined <==> v == Undefined
    ensures Collapse(v) == Code <==> v == Code
    decreases v, 1
  {
    match v
    case Arr(elems) =>
      if LoneHole(elems) {
        LoneHoleCollides();
      } else {
        CollapseKeepsElems(elems);
      }
    case Obj(fields) => CollapseKeepsMembers(fields);
    case Custom(own, _) => CollapseKeepsMembers(own);
    case _ =>
  }

  lemma {:induction false} CollapseKeepsElems(elems: seq<Js>)
    ensures CanonicalElems(CollapseElems(elems)) == CanonicalElems(elems)
    decreases elems, 0
  {
    if elems == [] {
    } else {
      CollapseKeepsText(elems[0]);
      CollapseKeepsElems(elems[1..]);
      ConsParts(Collapse(elems[0]), CollapseElems(elems[1..]));
    }
  }

  lemma {:induction false} CollapseKeepsMembers(fields: seq<Field>)
    ensures CanonicalMembers(CollapseFields(fields)) == CanonicalMembers(fields)
    decreases fields, 0
  {
    if fields == [] {
    } else {
      CollapseKeepsText(fields[0].val);
      CollapseKeepsMembers(fields[1..]);
      ConsParts(Field(fields[0].key, Collapse(fields[0].val)), CollapseFields(fields[1..]));
    }
  }

  lemma {:induction false} CollapseElemsAt(elems: seq<Js>)
    ensures forall i :: 0 <= i < |elems| ==> NoLoneHole(CollapseElems(elems)[i])
    ensures LoneHole(CollapseElems(elems)) ==> LoneHole(elems)
    decreases elems, 0
  {
    if elems == [] {
    } else {
      CollapseHasNoLoneHole(elems[0]);
      CollapseElemsAt(elems[1..]);
    }
  }

  lemma {:induction false} CollapseFieldsAt(fields: seq<Field>)
    ensures forall i :: 0 <= i < |CollapseFields(fields)| ==> NoLoneHole(CollapseFields(fields)[i].val)
    decreases fields, 0
  {
    if fields == [] {
    } else {
      CollapseHasNoLoneHole(fields[0].val);
      CollapseFieldsAt(fields[1..]);
    }
  }

  lemma {:induction false} CollapseHasNoLoneHole(v: Js)
    ensures NoLoneHole(Collapse(v))
    decreases v, 1
  {
    match v
    case Arr(elems) => CollapseElemsAt(elems);
    case Obj(fields) => CollapseFieldsAt(fields);
    case Custom(own, _) => CollapseFieldsAt(own);
    case _ =>
  }

  /**
   * For all values whatever: equal canonical text means equal up to key order, undefined fields,
   * what `Norm` identifies besides, and the difference between `[undefined]` and `[]`, and conversely.
   */
  lemma CanonicalTextExactly(v: Js, w: Js)
    requires v != Undefined && v != Code && w != Undefined && w != Code
    ensures Canonicalise(v) == Canonicalise(w) <==> Norm(Collapse(v)) == Norm(Collapse(w))
  {
    CollapseKeepsText(v);
    CollapseKeepsText(w);
    CollapseHasNoLoneHole(v);
    CollapseHasNoLoneHole(w);
    CanonicalInjective(Collapse(v), Collapse(w));
  }

  /** `[undefined]` and `[]` are different values with one canonical text. */
  lemma LoneHoleCollides()
    ensures Norm(Arr([Undefined])) != Norm(Arr([]))
    ensures Canonicalise(Arr([Undefined])) == Canonicalise(Arr([])) == Canonicalise(Arr([Code]))
  {
    assert CanonicalElems([Code]) == [[]];
    assert CanonicalElems([Undefined]) == [[]];
    assert NormElems([Undefined]) == [Undefined];
  }
}
