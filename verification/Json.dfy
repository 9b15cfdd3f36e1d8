/**
 * The canonical serialiser of the audit log and the part of `JSON.stringify` it leans on.
 * Printing is modelled down to the code unit; `Normal` values are the ones a text can be read back to.
 */
module Json {
  import opened JsText
  import opened Sequences
  import opened Sorting

  const QUOTE: CodeUnit := 0x22
  const COMMA: CodeUnit := 0x2C
  const COLON: CodeUnit := 0x3A
  const BACKSLASH: CodeUnit := 0x5C
  const LBRACKET: CodeUnit := 0x5B
  const RBRACKET: CodeUnit := 0x5D
  const LBRACE: CodeUnit := 0x7B
  const RBRACE: CodeUnit := 0x7D
  const NULL_TEXT: Text := [0x6E, 0x75, 0x6C, 0x6C]
  const TRUE_TEXT: Text := [0x74, 0x72, 0x75, 0x65]
  const FALSE_TEXT: Text := [0x66, 0x61, 0x6C, 0x73, 0x65]
  const ZERO_TEXT: Text := [0x30]
  const UNDEFINED_TEXT: Text := [0x75, 0x6E, 0x64, 0x65, 0x66, 0x69, 0x6E, 0x65, 0x64]

  /** The code units number texts are made of: digits, sign, point and exponent mark. */
  predicate IsNumUnit(u: CodeUnit) {
    IsDigit(u) || u == 0x2B || u == 0x2D || u == 0x2E || u == 0x65
  }

  predicate IsNumText(t: Text) {
    && t != []
    && (IsDigit(t[0]) || t[0] == 0x2D)
    && forall i :: 0 <= i < |t| ==> IsNumUnit(t[i])
  }

  /** The shortest decimal text JavaScript gives a finite number; it determines the number. */
  type NumText = t: Text | IsNumText(t) witness [0x30]

  datatype Number = Finite(text: NumText) | NegativeZero | NonFinite

  /**
   * A value as the serialisers see it; object fields are in enumeration order. `Code` is a function or a
   * symbol. `Custom` is an object that `JSON.stringify` does not take for its own fields: a date, any object
   * with `toJSON`, a boxed primitive; `json` is what it takes it for.
   */
  datatype Js =
    | Undefined
    | Code
    | Null
    | Bool(b: bool)
    | Num(n: Number)
    | Str(s: Text)
    | Arr(elems: seq<Js>)
    | Obj(fields: seq<Field>)
    | Custom(own: seq<Field>, json: Js)

  datatype Field = Field(key: Text, val: Js)

  /** A printed object member, kept beside the key it is sorted by. */
  datatype Member = Member(key: Text, text: Text)

  function FieldKey(f: Field): Text {
    f.key
  }

  function MemberKey(m: Member): Text {
    m.key
  }

  // ---------------------------------------------------------------------------
  // Strings: section 7 of RFC 8259, as JSON.stringify chooses among its options
  // ---------------------------------------------------------------------------

  function HexDigit(d: CodeUnit): (u: CodeUnit)
    requires 0 <= d < 16
  {
    if d < 10 then 0x30 + d else 0x57 + d
  }

  function Hex4(u: CodeUnit): Text {
    var q := u / 16;
    [HexDigit(q / 16 / 16), HexDigit(q / 16 % 16), HexDigit(q % 16), HexDigit(u % 16)]
  }

  function EscapeUnit(u: CodeUnit): Text {
    if u == 0x08 then [BACKSLASH, 0x62]
    else if u == 0x09 then [BACKSLASH, 0x74]
    else if u == 0x0A then [BACKSLASH, 0x6E]
    else if u == 0x0C then [BACKSLASH, 0x66]
    else if u == 0x0D then [BACKSLASH, 0x72]
    else if u == QUOTE then [BACKSLASH, QUOTE]
    else if u == BACKSLASH then [BACKSLASH, BACKSLASH]
    else if u < 0x20 || IsSurrogate(u) then [BACKSLASH, 0x75] + Hex4(u)
    else [u]
  }

  /** Surrogate pairs are copied, lone surrogates are escaped. */
  function Escape(s: Text): Text {
    if s == [] then []
    else if StartsWithPair(s) then [s[0], s[1]] + Escape(s[2..])
    else EscapeUnit(s[0]) + Escape(s[1..])
  }

  function Quote(s: Text): Text {
    [QUOTE] + Escape(s) + [QUOTE]
  }

  // ---------------------------------------------------------------------------
  // Printing
  // ---------------------------------------------------------------------------

  /** `JSON.stringify` of a value that is not an object; `join` renders undefined as the empty text. */
  function Leaf(v: Js): Text {
    match v
    case Null => NULL_TEXT
    case Bool(b) => if b then TRUE_TEXT else FALSE_TEXT
    case Num(Finite(t)) => t
    case Num(NegativeZero) => ZERO_TEXT
    case Num(NonFinite) => NULL_TEXT
    case Str(s) => Quote(s)
    case _ => []
  }

  /** `texts.join(",")`. */
  function Join(texts: seq<Text>): Text {
    if texts == [] then []
    else if |texts| == 1 then texts[0]
    else texts[0] + [COMMA] + Join(texts[1..])
  }

  function Seconds(ms: seq<Member>): (r: seq<Text>) {
    if ms == [] then [] else [ms[0].text] + Seconds(ms[1..])
  }

  /** The canonical serialisation: undefined fields dropped, members sorted by key, recursively. */
  function Canonicalise(v: Js): Text
    decreases v, 1
  {
    match v
    case Arr(elems) => [LBRACKET] + Join(CanonicalElems(elems)) + [RBRACKET]
    case Obj(fields) => [LBRACE] + Join(Seconds(SortByKey(CanonicalMembers(fields), MemberKey))) + [RBRACE]
    case Custom(own, _) => [LBRACE] + Join(Seconds(SortByKey(CanonicalMembers(own), MemberKey))) + [RBRACE]
    case _ => Leaf(v)
  }

  function CanonicalElems(elems: seq<Js>): seq<Text>
    decreases elems, 0
  {
    if elems == [] then [] else [Canonicalise(elems[0])] + CanonicalElems(elems[1..])
  }

  /**
   * The defined members as key and printed text; the sort looks at the key alone. A function or symbol
   * serialises to undefined, which the template string spells out.
   */
  function CanonicalMembers(fields: seq<Field>): seq<Member>
    decreases fields, 0
  {
    if fields == [] then []
    else
      var rest := CanonicalMembers(fields[1..]);
      if fields[0].val == Undefined then rest
      else
        var text := if fields[0].val == Code then UNDEFINED_TEXT else Canonicalise(fields[0].val);
        [Member(fields[0].key, Quote(fields[0].key) + [COLON] + text)] + rest
  }

  /** Compact printing in the order given: `JSON.stringify` on a JSON document. */
  function Print(v: Js): Text
    decreases v, 1
  {
    match v
    case Arr(elems) => [LBRACKET] + Join(PrintElems(elems)) + [RBRACKET]
    case Obj(fields) => [LBRACE] + Join(Seconds(PrintMembers(fields))) + [RBRACE]
    case _ => Leaf(v)
  }

  function PrintElems(elems: seq<Js>): seq<Text>
    decreases elems, 0
  {
    if elems == [] then [] else [Print(elems[0])] + PrintElems(elems[1..])
  }

  /** What follows the colon of a member. */
  function ValueText(v: Js): Text
    decreases v, 2
  {
    if v == Code then UNDEFINED_TEXT else Print(v)
  }

  function PrintMembers(fields: seq<Field>): seq<Member>
    decreases fields, 0
  {
    if fields == [] then []
    else [Member(fields[0].key, Quote(fields[0].key) + [COLON] + ValueText(fields[0].val))] + PrintMembers(fields[1..])
  }

  // ---------------------------------------------------------------------------
  // Normal forms
  // ---------------------------------------------------------------------------

  /**
   * What the canonical text keeps: keys sorted, undefined fields gone, every number finite and signed once,
   * objects reduced to their own fields, and a function in an array no different from undefined.
   */
  function Norm(v: Js): Js
    decreases v, 1
  {
    match v
    case Num(NegativeZero) => Num(Finite(ZERO_TEXT))
    case Num(NonFinite) => Null
    case Arr(elems) => Arr(NormElems(elems))
    case Obj(fields) => Obj(SortByKey(NormFields(fields), FieldKey))
    case Custom(own, _) => Obj(SortByKey(NormFields(own), FieldKey))
    case _ => v
  }

  function NormElems(elems: seq<Js>): seq<Js>
    decreases elems, 0
  {
    if elems == [] then []
    else [if elems[0] == Code then Undefined else Norm(elems[0])] + NormElems(elems[1..])
  }

  function NormFields(fields: seq<Field>): seq<Field>
    decreases fields, 0
  {
    if fields == [] then []
    else
      var rest := NormFields(fields[1..]);
      if fields[0].val == Undefined then rest else [Field(fields[0].key, Norm(fields[0].val))] + rest
  }

  predicate LoneHole(elems: seq<Js>) {
    elems == [Undefined] || elems == [Code]
  }

  /** No array, at any depth, holds a single slot that prints as nothing and so looks empty. */
  predicate NoLoneHole(v: Js) {
    match v
    case Arr(elems) => !LoneHole(elems) && forall i :: 0 <= i < |elems| ==> NoLoneHole(elems[i])
    case Obj(fields) => forall i :: 0 <= i < |fields| ==> NoLoneHole(fields[i].val)
    case Custom(own, _) => forall i :: 0 <= i < |own| ==> NoLoneHole(own[i].val)
    case _ => true
  }

  /** Values that printing loses nothing of; undefined may still stand in an array, a function in a field. */
  predicate Normal(v: Js) {
    match v
    case Num(n) => n.Finite?
    case Arr(elems) => elems != [Undefined] && forall i :: 0 <= i < |elems| ==> elems[i] != Code && Normal(elems[i])
    case Obj(fields) => forall i :: 0 <= i < |fields| ==> fields[i].val != Undefined && Normal(fields[i].val)
    case Custom(_, _) => false
    case _ => true
  }

  lemma {:induction false} InsertCommutes(p: Field, s: seq<Field>)
    ensures PrintMembers(Insert(p, s, ByKey(FieldKey)))
            == Insert(PrintMembers([p])[0], PrintMembers(s), ByKey(MemberKey))
  {
    var q, ms := PrintMembers([p])[0], PrintMembers(s);
    InsertByKey(p, s, FieldKey);
    InsertByKey(q, ms, MemberKey);
    if s == [] {
    } else if Less(p.key, s[0].key) {
      assert ([p] + s)[1..] == s;
    } else {
      InsertCommutes(p, s[1..]);
      ConsParts(s[0], Insert(p, s[1..], ByKey(FieldKey)));
      assert ms[1..] == PrintMembers(s[1..]);
    }
  }

  /** Printing each member and sorting the texts by key is sorting the members and printing each. */
  lemma {:induction false} SortCommutes(s: seq<Field>)
    ensures PrintMembers(SortByKey(s, FieldKey)) == SortByKey(PrintMembers(s), MemberKey)
  {
    if s == [] {
    } else {
      SortCommutes(s[1..]);
      InsertCommutes(s[0], SortByKey(s[1..], FieldKey));
      assert PrintMembers(s)[1..] == PrintMembers(s[1..]);
    }
  }

  /** The canonical text is the plain print of the normal form. */
  lemma {:induction false} CanonicalIsPrintedNorm(v: Js)
    ensures Canonicalise(v) == Print(Norm(v))
    decreases v, 1
  {
    match v
    case Arr(elems) => CanonicalElemsPrinted(elems);
    case Obj(fields) =>
      CanonicalMembersPrinted(fields);
      SortCommutes(NormFields(fields));
    case Custom(own, _) =>
      CanonicalMembersPrinted(own);
      SortCommutes(NormFields(own));
    case _ =>
  }

  lemma {:induction false} CanonicalElemsPrinted(elems: seq<Js>)
    ensures CanonicalElems(elems) == PrintElems(NormElems(elems))
    decreases elems, 0
  {
    if elems == [] {
    } else {
      CanonicalIsPrintedNorm(elems[0]);
      CanonicalElemsPrinted(elems[1..]);
      assert NormElems(elems)[1..] == NormElems(elems[1..]);
    }
  }

  lemma {:induction false} CanonicalMembersPrinted(fields: seq<Field>)
    ensures CanonicalMembers(fields) == PrintMembers(NormFields(fields))
    decreases fields, 0
  {
    if fields == [] {
    } else {
      CanonicalIsPrintedNorm(fields[0].val);
      CanonicalMembersPrinted(fields[1..]);
      if fields[0].val != Undefined {
        assert NormFields(fields)[1..] == NormFields(fields[1..]);
      }
    }
  }

  lemma {:induction false} NormIsNormal(v: Js)
    requires NoLoneHole(v)
    ensures Normal(Norm(v))
    ensures Norm(v) == Undefined <==> v == Undefined
    ensures Norm(v) == Code <==> v == Code
    decreases v, 1
  {
    match v
    case Arr(elems) =>
      NormElemsNormal(elems);
    case Obj(fields) =>
      SortedFieldsNormal(fields);
    case Custom(own, _) =>
      SortedFieldsNormal(own);
    case _ =>
  }

  lemma {:induction false} SortedFieldsNormal(fields: seq<Field>)
    requires forall i :: 0 <= i < |fields| ==> NoLoneHole(fields[i].val)
    ensures Normal(Obj(SortByKey(NormFields(fields), FieldKey)))
    decreases fields, 1
  {
    NormFieldsNormal(fields);
    var s := SortByKey(NormFields(fields), FieldKey);
    forall i | 0 <= i < |s| ensures s[i].val != Undefined && Normal(s[i].val) {
      SortMember(NormFields(fields), s[i], FieldKey);
    }
  }

  lemma {:induction false} NormElemsNormal(elems: seq<Js>)
    requires forall i :: 0 <= i < |elems| ==> NoLoneHole(elems[i])
    ensures |NormElems(elems)| == |elems|
    ensures forall i :: 0 <= i < |elems| ==>
              Normal(NormElems(elems)[i]) && NormElems(elems)[i] != Code
              && (NormElems(elems)[i] == Undefined <==> elems[i] == Undefined || elems[i] == Code)
    decreases elems, 0
  {
    if elems == [] {
    } else {
      NormIsNormal(elems[0]);
      NormElemsNormal(elems[1..]);
    }
  }

  lemma {:induction false} NormFieldsNormal(fields: seq<Field>)
    requires forall i :: 0 <= i < |fields| ==> NoLoneHole(fields[i].val)
    ensures forall p: Field :: p in NormFields(fields) ==> p.val != Undefined && Normal(p.val)
    decreases fields, 0
  {
    if fields == [] {
    } else {
      NormIsNormal(fields[0].val);
      NormFieldsNormal(fields[1..]);
    }
  }

  // ---------------------------------------------------------------------------
  // The canonical text is well-formed UTF-16, so hashing its UTF-8 form loses nothing
  // ---------------------------------------------------------------------------

  lemma {:induction false} EscapeWellFormed(s: Text)
    ensures WellFormed(Escape(s))
  {
    if s == [] {
    } else if StartsWithPair(s) {
      EscapeWellFormed(s[2..]);
      assert Escape(s)[2..] == Escape(s[2..]);
    } else {
      EscapeWellFormed(s[1..]);
      PlainIsWellFormed(EscapeUnit(s[0]));
      WellFormedConcat(EscapeUnit(s[0]), Escape(s[1..]));
    }
  }

  lemma QuoteWellFormed(s: Text)
    ensures WellFormed(Quote(s))
  {
    EscapeWellFormed(s);
    PlainIsWellFormed([QUOTE]);
    WellFormedConcat([QUOTE], Escape(s));
    WellFormedConcat([QUOTE] + Escape(s), [QUOTE]);
  }

  predicate AllWellFormed(texts: seq<Text>) {
    forall i :: 0 <= i < |texts| ==> WellFormed(texts[i])
  }

  lemma {:induction false} JoinWellFormed(texts: seq<Text>)
    requires AllWellFormed(texts)
    ensures WellFormed(Join(texts))
  {
    if |texts| > 1 {
      JoinWellFormed(texts[1..]);
      PlainIsWellFormed([COMMA]);
      WellFormedConcat(texts[0], [COMMA]);
      WellFormedConcat(texts[0] + [COMMA], Join(texts[1..]));
    }
  }

  lemma BracketWellFormed(open: CodeUnit, t: Text, close: CodeUnit)
    requires WellFormed(t) && !IsSurrogate(open) && !IsSurrogate(close)
    ensures WellFormed([open] + t + [close])
  {
    PlainIsWellFormed([open]);
    PlainIsWellFormed([close]);
    WellFormedConcat([open], t);
    WellFormedConcat([open] + t, [close]);
  }

  lemma {:induction false} PrintWellFormed(v: Js)
    ensures WellFormed(Print(v))
    decreases v, 1
  {
    match v
    case Arr(elems) =>
      PrintElemsWellFormed(elems);
      JoinWellFormed(PrintElems(elems));
      BracketWellFormed(LBRACKET, Join(PrintElems(elems)), RBRACKET);
    case Obj(fields) =>
      PrintMembersWellFormed(fields);
      JoinWellFormed(Seconds(PrintMembers(fields)));
      BracketWellFormed(LBRACE, Join(Seconds(PrintMembers(fields))), RBRACE);
    case Str(s) => QuoteWellFormed(s);
    case _ => PlainIsWellFormed(Leaf(v));
  }

  lemma {:induction false} PrintElemsWellFormed(elems: seq<Js>)
    ensures AllWellFormed(PrintElems(elems))
    decreases elems, 0
  {
    if elems == [] {
    } else {
      PrintWellFormed(elems[0]);
      PrintElemsWellFormed(elems[1..]);
    }
  }

  lemma {:induction false} PrintMembersWellFormed(fields: seq<Field>)
    ensures AllWellFormed(Seconds(PrintMembers(fields)))
    decreases fields, 0
  {
    if fields == [] {
    } else {
      PrintWellFormed(fields[0].val);
      PrintMembersWellFormed(fields[1..]);
      QuoteWellFormed(fields[0].key);
      PlainIsWellFormed([COLON]);
      WellFormedConcat(Quote(fields[0].key), [COLON]);
      PlainIsWellFormed(UNDEFINED_TEXT);
      WellFormedConcat(Quote(fields[0].key) + [COLON], ValueText(fields[0].val));
      var rest := Seconds(PrintMembers(fields[1..]));
      assert PrintMembers(fields)[1..] == PrintMembers(fields[1..]);
      assert Seconds(PrintMembers(fields)) == [PrintMembers(fields)[0].text] + rest;
    }
  }

  lemma CanonicalWellFormed(v: Js)
    ensures WellFormed(Canonicalise(v))
  {
    CanonicalIsPrintedNorm(v);
    PrintWellFormed(Norm(v));
  }
}
