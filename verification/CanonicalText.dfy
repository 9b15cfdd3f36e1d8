/** What canonical text says, spelled out: its punctuation, its words, and what a reader finds in it. */
module CanonicalText {
  import opened JsText
  import opened Json
  import opened JsonStore
  import opened Sequences
  import JsonReader

  // ---------------------------------------------------------------------------
  // What a reader finds
  // ---------------------------------------------------------------------------

  /** Keys strictly rise, code unit by code unit. */
  ghost predicate KeysRise(fields: seq<Field>) {
    forall i, j :: 0 <= i < j < |fields| ==> Before(fields[i].key, fields[j].key)
  }

  function DefinedKeys(fields: seq<Field>): set<Text> {
    set f | f in fields && f.val != Undefined :: f.key
  }

  /**
   * `d` is what is left of `v`: numbers as they print, array slots in place with undefined for what prints as
   * nothing, and of an object its own defined fields, one for each key, in rising order.
   */
  ghost predicate Tells(d: Js, v: Js)
    decreases v
  {
    match v
    case Num(NegativeZero) => d == Num(Finite([0x30]))
    case Num(NonFinite) => d == Null
    case Arr(elems) =>
      if elems == [Undefined] || elems == [Code] then d == Arr([])
      else
        d.Arr? && |d.elems| == |elems|
        && forall i :: 0 <= i < |elems| ==>
             if elems[i] == Undefined || elems[i] == Code then d.elems[i] == Undefined else Tells(d.elems[i], elems[i])
    case Obj(fields) =>
      d.Obj? && KeysRise(d.fields) && Keys(d.fields) == DefinedKeys(fields)
      && forall i, k :: 0 <= i < |fields| && 0 <= k < |d.fields| && fields[i].key == d.fields[k].key ==>
                          Tells(d.fields[k].val, fields[i].val)
    case Custom(own, _) =>
      d.Obj? && KeysRise(d.fields) && Keys(d.fields) == DefinedKeys(own)
      && forall i, k :: 0 <= i < |own| && 0 <= k < |d.fields| && own[i].key == d.fields[k].key ==>
                          Tells(d.fields[k].val, own[i].val)
    case _ => d == v
  }

  lemma {:induction false} DataMember(fields: seq<Field>, q: Field)
    ensures q in DataFields(fields) <==>
            exists i :: 0 <= i < |fields| && fields[i].val != Undefined
                        && q == Field(fields[i].key, Data(fields[i].val))
  {
    if fields == [] {
    } else {
      DataMember(fields[1..], q);
      DataFieldsCons(fields);
      var head := Field(fields[0].key, Data(fields[0].val));
      assert q in DataFields(fields) <==> (fields[0].val != Undefined && q == head) || q in DataFields(fields[1..]);
      if i :| 0 <= i < |fields[1..]| && fields[1..][i].val != Undefined
              && q == Field(fields[1..][i].key, Data(fields[1..][i].val)) {
        assert fields[i + 1] == fields[1..][i];
      }
      if i :| 0 <= i < |fields| && fields[i].val != Undefined && q == Field(fields[i].key, Data(fields[i].val)) {
        assert i > 0 ==> fields[1..][i - 1] == fields[i];
      }
    }
  }

  /** The sorted data of the fields: their defined keys in rising order, each with its own value. */
  lemma SortedData(fields: seq<Field>)
    requires UniqueKeys(fields, FieldKey)
    ensures var ds := SortByKey(DataFields(fields), FieldKey);
            && KeysRise(ds) && Keys(ds) == DefinedKeys(fields)
            && forall i, k :: 0 <= i < |fields| && 0 <= k < |ds| && fields[i].key == ds[k].key ==>
                                fields[i].val != Undefined && ds[k].val == Data(fields[i].val)
  {
    var ds := SortByKey(DataFields(fields), FieldKey);
    DataKeys(fields);
    SortAscending(DataFields(fields), FieldKey);
    forall i, j | 0 <= i < j < |ds|
      ensures Before(ds[i].key, ds[j].key)
    {
      LessExactly(ds[i].key, ds[j].key);
    }
    forall q: Field
      ensures q in ds <==> exists i :: 0 <= i < |fields| && fields[i].val != Undefined
                                       && q == Field(fields[i].key, Data(fields[i].val))
    {
      SortMember(DataFields(fields), q, FieldKey);
      DataMember(fields, q);
    }
    SameKeysDefined(fields, ds);
    forall i, k | 0 <= i < |fields| && 0 <= k < |ds| && fields[i].key == ds[k].key
      ensures fields[i].val != Undefined && ds[k].val == Data(fields[i].val)
    {
      assert ds[k] in ds;
      var j :| 0 <= j < |fields| && fields[j].val != Undefined && ds[k] == Field(fields[j].key, Data(fields[j].val));
      SameKeySameIndex(fields, i, j);
    }
  }

  lemma SameKeysDefined(fields: seq<Field>, ds: seq<Field>)
    requires forall q: Field :: q in ds <==> exists i :: 0 <= i < |fields| && fields[i].val != Undefined
                                                         && q == Field(fields[i].key, Data(fields[i].val))
    ensures Keys(ds) == DefinedKeys(fields)
  {
    forall key | key in Keys(ds)
      ensures key in DefinedKeys(fields)
    {
      var q :| q in ds && q.key == key;
      var i :| 0 <= i < |fields| && fields[i].val != Undefined && q == Field(fields[i].key, Data(fields[i].val));
      assert fields[i] in fields;
    }
    forall key | key in DefinedKeys(fields)
      ensures key in Keys(ds)
    {
      var f :| f in fields && f.val != Undefined && f.key == key;
      var i :| 0 <= i < |fields| && fields[i] == f;
      assert Field(key, Data(f.val)) in ds;
    }
  }

  lemma {:induction false} DataElemsAt(elems: seq<Js>)
    ensures var ds := NormElems(JsonReader.CollapseElems(elems));
            |ds| == |elems|
            && forall i :: 0 <= i < |elems| ==> ds[i] == if elems[i] == Code then Undefined else Data(elems[i])
  {
    if elems == [] {
    } else {
      DataElemsAt(elems[1..]);
      CollapseKinds(elems[0]);
      ConsParts(JsonReader.Collapse(elems[0]), JsonReader.CollapseElems(elems[1..]));
    }
  }

  lemma {:induction false} DataTells(v: Js)
    requires WellKeyed(v)
    ensures Tells(Data(v), v)
    decreases v
  {
    match v
    case Arr(elems) =>
      DataElemsAt(elems);
      forall i | 0 <= i < |elems|
        ensures Tells(Data(elems[i]), elems[i])
      {
        DataTells(elems[i]);
      }
    case Obj(fields) =>
      SortedData(fields);
      forall i | 0 <= i < |fields|
        ensures Tells(Data(fields[i].val), fields[i].val)
      {
        DataTells(fields[i].val);
      }
    case Custom(own, _) =>
      SortedData(own);
      forall i | 0 <= i < |own|
        ensures Tells(Data(own[i].val), own[i].val)
      {
        DataTells(own[i].val);
      }
    case _ =>
  }

  /**
   * A reader of canonical text finds the value: keys in rising order at every depth, every defined field and no
   * other, every element in its place, and nothing after it.
   */
  lemma CanonicalTells(v: Js)
    requires v != Undefined && v != Code && WellKeyed(v)
    ensures var read := JsonReader.ReadValue(Canonicalise(v));
            read.Some? && read.value.1 == [] && Tells(read.value.0, v)
  {
    JsonReader.CollapseKeepsText(v);
    JsonReader.CollapseHasNoLoneHole(v);
    JsonReader.CanonicalRoundTrip(JsonReader.Collapse(v));
    DataTells(v);
  }

  // ---------------------------------------------------------------------------
  // How it is spelled
  // ---------------------------------------------------------------------------

  lemma Punctuation()
    ensures [QUOTE] == Ascii("\"") && [COMMA] == Ascii(",") && [COLON] == Ascii(":")
    ensures [LBRACKET] == Ascii("[") && [RBRACKET] == Ascii("]") && [LBRACE] == Ascii("{") && [RBRACE] == Ascii("}")
    ensures UNDEFINED_TEXT == Ascii("undefined")
  {
  }

  lemma WordsSpelled()
    ensures Canonicalise(Null) == Ascii("null") == Canonicalise(Num(NonFinite))
    ensures Canonicalise(Bool(true)) == Ascii("true") && Canonicalise(Bool(false)) == Ascii("false")
    ensures Canonicalise(Num(NegativeZero)) == Ascii("0") && Canonicalise(Undefined) == []
    ensures Canonicalise(Arr([])) == Ascii("[]") && Canonicalise(Obj([])) == Ascii("{}")
  {
  }

  lemma NumbersSpelled(t: NumText)
    ensures Canonicalise(Num(Finite(t))) == t
  {
  }

  lemma ArraysPrinted(first: Js, more: seq<Js>)
    requires more != []
    ensures Canonicalise(Arr([first] + more))
            == [LBRACKET] + Canonicalise(first) + [COMMA] + Canonicalise(Arr(more))[1..]
  {
    ConsParts(first, more);
    ConsParts(Canonicalise(first), CanonicalElems(more));
    JoinMore(Canonicalise(first), CanonicalElems(more));
    ConsParts(LBRACKET, Join(CanonicalElems(more)) + [RBRACKET]);
    Regroup([LBRACKET], Join(CanonicalElems(more)), [RBRACKET]);
    Regroup3([LBRACKET], Canonicalise(first), [COMMA], Join(CanonicalElems(more)), [RBRACKET]);
    Regroup([LBRACKET] + Canonicalise(first) + [COMMA], Join(CanonicalElems(more)), [RBRACKET]);
  }

  lemma JoinMore(first: Text, more: seq<Text>)
    requires more != []
    ensures Join([first] + more) == first + [COMMA] + Join(more)
  {
    ConsParts(first, more);
  }

  lemma OnePrinted(first: Js)
    ensures Canonicalise(Arr([first])) == [LBRACKET] + Canonicalise(first) + [RBRACKET]
  {
    assert [first][1..] == [];
    assert CanonicalElems([first]) == [Canonicalise(first)];
  }

  lemma ArraysSpelled(first: Js, more: seq<Js>)
    ensures Canonicalise(Arr([first])) == Ascii("[") + Canonicalise(first) + Ascii("]")
    ensures more != [] ==>
              Canonicalise(Arr([first] + more)) == Ascii("[") + Canonicalise(first) + Ascii(",")
                                                   + Canonicalise(Arr(more))[1..]
  {
    Punctuation();
    OnePrinted(first);
    if more != [] {
      ArraysPrinted(first, more);
    }
  }

  /** A member: its quoted key, a colon, its value; a function is spelled `undefined`. */
  function MemberText(f: Field): Text {
    Canonicalise(Str(f.key)) + Ascii(":") + if f.val == Code then Ascii("undefined") else Canonicalise(f.val)
  }

  lemma OneMember(f: Field)
    requires f.val != Undefined
    ensures CanonicalMembers([f]) == [Member(f.key, MemberText(f))]
  {
    Punctuation();
    assert CanonicalMembers([]) == [];
    assert [f][1..] == [];
    assert Canonicalise(Str(f.key)) == Quote(f.key);
  }

  lemma TwoMembers(f: Field, g: Field)
    requires f.val != Undefined && g.val != Undefined
    ensures CanonicalMembers([f, g]) == [Member(f.key, MemberText(f)), Member(g.key, MemberText(g))]
  {
    OneMember(f);
    OneMember(g);
    MembersCons(f, [g]);
    assert [f] + [g] == [f, g];
  }

  lemma MembersCons(f: Field, more: seq<Field>)
    ensures CanonicalMembers([f] + more) == CanonicalMembers([f]) + CanonicalMembers(more)
  {
    ConsParts(f, more);
    assert [f][1..] == [] && CanonicalMembers([]) == [];
  }

  /** Objects of one and of two fields: the lesser key goes first, whichever was listed first. */
  lemma ObjectsSpelled(f: Field, g: Field)
    requires f.val != Undefined && g.val != Undefined && Before(f.key, g.key)
    ensures Canonicalise(Obj([f])) == Ascii("{") + MemberText(f) + Ascii("}")
    ensures Canonicalise(Obj([f, g])) == Ascii("{") + MemberText(f) + Ascii(",") + MemberText(g) + Ascii("}")
    ensures Canonicalise(Obj([g, f])) == Canonicalise(Obj([f, g]))
  {
    var p, q := Member(f.key, MemberText(f)), Member(g.key, MemberText(g));
    LessExactly(f.key, g.key);
    LessAsymmetric(f.key, g.key);
    OneMember(f);
    TwoMembers(f, g);
    TwoMembers(g, f);
    SortOne(p);
    SortTwo(p, q);
    JoinTwo(p, q);
    Braces([f], p.text);
    Braces([f, g], p.text + [COMMA] + q.text);
    Braces([g, f], p.text + [COMMA] + q.text);
    Punctuation();
    Regroup3([LBRACE], p.text, [COMMA], q.text, [RBRACE]);
  }

  lemma Regroup3(a: Text, b: Text, c: Text, d: Text, e: Text)
    ensures a + (b + c + d) + e == a + b + c + d + e
  {
  }

  lemma Braces(fields: seq<Field>, inner: Text)
    requires Join(Seconds(SortByKey(CanonicalMembers(fields), MemberKey))) == inner
    ensures Canonicalise(Obj(fields)) == [LBRACE] + inner + [RBRACE]
  {
  }

  lemma SortOne(p: Member)
    ensures SortByKey([p], MemberKey) == [p]
  {
    assert [p][1..] == [];
  }

  lemma SortTwo(p: Member, q: Member)
    requires Less(p.key, q.key) && !Less(q.key, p.key)
    ensures SortByKey([p, q], MemberKey) == [p, q] == SortByKey([q, p], MemberKey)
  {
    SortOne(p);
    SortOne(q);
    assert [p, q][1..] == [q] && [q, p][1..] == [p];
    InsertByKey(p, [q], MemberKey);
    InsertByKey(q, [p], MemberKey);
    InsertByKey(q, [], MemberKey);
    assert [p][1..] == [];
  }

  lemma JoinTwo(p: Member, q: Member)
    ensures Join(Seconds([p])) == p.text
    ensures Join(Seconds([p, q])) == p.text + [COMMA] + q.text
  {
    assert [p][1..] == [] && [p, q][1..] == [q];
    assert Seconds([q]) == [q.text] by { assert [q][1..] == []; }
    assert Seconds([p, q]) == [p.text, q.text];
    assert [p.text, q.text][1..] == [q.text];
  }

  /** The hexadecimal digit, in lower case. */
  function Hex(d: nat): Text
    requires d < 16
  {
    [Ascii("0123456789abcdef")[d]]
  }

  /** How one code unit that is not half of a pair is spelled inside a string. */
  function UnitText(u: CodeUnit): Text {
    if u == '\"' as CodeUnit then Ascii("\\\"")
    else if u == '\\' as CodeUnit then Ascii("\\\\")
    else if u == 8 then Ascii("\\b")
    else if u == 9 then Ascii("\\t")
    else if u == 10 then Ascii("\\n")
    else if u == 12 then Ascii("\\f")
    else if u == 13 then Ascii("\\r")
    else if u < 32 || 0xD800 <= u < 0xE000 then
      var n := u as int;
      Ascii("\\u") + Hex(n / 4096) + Hex(n / 256 % 16) + Hex(n / 16 % 16) + Hex(n % 16)
    else [u]
  }

  lemma HexSpelled(d: CodeUnit)
    requires d < 16
    ensures [HexDigit(d)] == Hex(d as nat)
  {
    var digits := "0123456789abcdef";
    assert Ascii(digits)[d as nat] == digits[d as nat] as CodeUnit;
  }

  lemma UnitSpelled(u: CodeUnit)
    ensures EscapeUnit(u) == UnitText(u)
  {
    if u != QUOTE && u != BACKSLASH && u !in {8, 9, 10, 12, 13} && (u < 32 || IsSurrogate(u)) {
      var q, n := u / 16, u as int;
      HexSpelled(q / 16 / 16);
      HexSpelled(q / 16 % 16);
      HexSpelled(q % 16);
      HexSpelled(u % 16);
      HexParts(u);
      assert Hex4(u) == Hex(n / 4096) + Hex(n / 256 % 16) + Hex(n / 16 % 16) + Hex(n % 16);
    }
  }

  lemma HexParts(u: CodeUnit)
    ensures (u / 16 / 16 / 16) as int == u as int / 4096 && (u / 16 / 16 % 16) as int == u as int / 256 % 16
    ensures (u / 16 % 16) as int == u as int / 16 % 16 && (u % 16) as int == u as int % 16
  {
  }

  lemma QuotedStep(s: Text, unit: Text, rest: Text)
    requires Escape(s) == unit + Escape(rest)
    ensures Canonicalise(Str(s)) == [QUOTE] + unit + Canonicalise(Str(rest))[1..]
  {
    var e := Escape(rest);
    Regroup([QUOTE], e, [QUOTE]);
    ConsParts(QUOTE, e + [QUOTE]);
    Regroup([QUOTE], unit, e);
    Regroup([QUOTE] + unit, e, [QUOTE]);
  }

  lemma PairStep(s: Text)
    requires StartsWithPair(s)
    ensures Escape(s) == s[..2] + Escape(s[2..])
  {
  }

  lemma EmptySpelled()
    ensures Canonicalise(Str([])) == Ascii("\"\"")
  {
  }

  /** A string between quotation marks, its pairs as they are, any other code unit on its own. */
  lemma StringsSpelled(s: Text)
    ensures Canonicalise(Str([])) == Ascii("\"\"")
    ensures StartsWithPair(s) ==> Canonicalise(Str(s)) == Ascii("\"") + s[..2] + Canonicalise(Str(s[2..]))[1..]
    ensures s != [] && !StartsWithPair(s) ==>
              Canonicalise(Str(s)) == Ascii("\"") + UnitText(s[0]) + Canonicalise(Str(s[1..]))[1..]
  {
    Punctuation();
    EmptySpelled();
    if StartsWithPair(s) {
      PairStep(s);
      QuotedStep(s, s[..2], s[2..]);
    } else if s != [] {
      UnitSpelled(s[0]);
      QuotedStep(s, EscapeUnit(s[0]), s[1..]);
    }
  }
}
