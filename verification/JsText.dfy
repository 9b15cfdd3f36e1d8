/** JavaScript strings as sequences of UTF-16 code units, and the order `<` compares them by. */
module JsText {
  import opened Sorting

  newtype CodeUnit = n: int | 0 <= n < 0x1_0000

  type Text = seq<CodeUnit>

  datatype Option<+T> = None | Some(value: T)

  /** Text in ASCII. */
  type PlainText = t: Text | forall i :: 0 <= i < |t| ==> t[i] < 128 witness []

  /** The code units of an ASCII literal. */
  function Ascii(s: string): (t: PlainText)
    requires forall i :: 0 <= i < |s| ==> s[i] < 128 as char
    ensures |t| == |s|
    ensures forall i :: 0 <= i < |s| ==> t[i] == s[i] as CodeUnit
  {
    seq(|s|, i requires 0 <= i < |s| => s[i] as CodeUnit)
  }

  predicate IsHigh(u: CodeUnit) {
    0xD800 <= u <= 0xDBFF
  }

  predicate IsLow(u: CodeUnit) {
    0xDC00 <= u <= 0xDFFF
  }

  predicate IsSurrogate(u: CodeUnit) {
    0xD800 <= u <= 0xDFFF
  }

  /** True when a text starts with a surrogate pair. */
  predicate StartsWithPair(s: Text) {
    |s| >= 2 && IsHigh(s[0]) && IsLow(s[1])
  }

  /** No lone surrogate: such a text survives conversion to UTF-8 unchanged. */
  predicate WellFormed(s: Text) {
    if s == [] then true
    else if StartsWithPair(s) then WellFormed(s[2..])
    else !IsSurrogate(s[0]) && WellFormed(s[1..])
  }

  lemma {:induction false} WellFormedConcat(a: Text, b: Text)
    requires WellFormed(a) && WellFormed(b)
    ensures WellFormed(a + b)
    decreases |a|
  {
    if a == [] {
      assert a + b == b;
    } else if StartsWithPair(a) {
      WellFormedConcat(a[2..], b);
      assert (a + b)[2..] == a[2..] + b;
    } else {
      WellFormedConcat(a[1..], b);
      assert (a + b)[1..] == a[1..] + b;
    }
  }

  lemma {:induction false} PlainIsWellFormed(s: Text)
    requires forall i :: 0 <= i < |s| ==> !IsSurrogate(s[i])
    ensures WellFormed(s)
  {
    if s == [] {
    } else {
      PlainIsWellFormed(s[1..]);
    }
  }

  /** What encoding a text as UTF-8 and decoding it gives: U+FFFD in place of every lone surrogate. */
  function ThroughUtf8(s: Text): Text {
    if s == [] then []
    else if StartsWithPair(s) then [s[0], s[1]] + ThroughUtf8(s[2..])
    else [if IsSurrogate(s[0]) then 0xFFFD else s[0]] + ThroughUtf8(s[1..])
  }

  /** The result is well-formed, and exactly the well-formed texts pass unchanged. */
  lemma {:induction false} ThroughUtf8Exactly(s: Text)
    ensures WellFormed(ThroughUtf8(s)) && |ThroughUtf8(s)| == |s|
    ensures ThroughUtf8(s) == s <==> WellFormed(s)
    ensures forall i :: 0 <= i < |s| ==> ThroughUtf8(s)[i] == s[i] || (IsSurrogate(s[i]) && ThroughUtf8(s)[i] == 0xFFFD)
  {
    if s == [] {
    } else if StartsWithPair(s) {
      ThroughUtf8Exactly(s[2..]);
      var rest := ThroughUtf8(s[2..]);
      assert ([s[0], s[1]] + rest)[2..] == rest;
    } else {
      ThroughUtf8Exactly(s[1..]);
      var rest := ThroughUtf8(s[1..]);
      var u := if IsSurrogate(s[0]) then 0xFFFD else s[0];
      assert ([u] + rest)[1..] == rest;
    }
  }

  lemma {:induction false} ThroughUtf8After(plain: Text, s: Text)
    requires forall i :: 0 <= i < |plain| ==> !IsSurrogate(plain[i])
    ensures ThroughUtf8(plain + s) == plain + ThroughUtf8(s)
  {
    if plain == [] {
      assert plain + s == s;
    } else {
      ThroughUtf8After(plain[1..], s);
      assert (plain + s)[1..] == plain[1..] + s;
      assert plain == [plain[0]] + plain[1..];
    }
  }

  // ---------------------------------------------------------------------------
  // The order of the `<` operator
  // ---------------------------------------------------------------------------

  /** `a < b` on JavaScript strings: lexicographic by code unit. */
  predicate Less(a: Text, b: Text) {
    if b == [] then false
    else if a == [] then true
    else if a[0] != b[0] then a[0] < b[0]
    else Less(a[1..], b[1..])
  }

  lemma {:induction false} LessTotal(a: Text, b: Text)
    ensures a == b || Less(a, b) || Less(b, a)
  {
    if a != [] && b != [] && a[0] == b[0] {
      LessTotal(a[1..], b[1..]);
      assert a == [a[0]] + a[1..] && b == [b[0]] + b[1..];
    }
  }

  lemma {:induction false} LessAsymmetric(a: Text, b: Text)
    requires Less(a, b)
    ensures a != b && !Less(b, a)
  {
    if a != [] && a[0] == b[0] {
      LessAsymmetric(a[1..], b[1..]);
    }
  }

  lemma {:induction false} LessTransitive(a: Text, b: Text, c: Text)
    requires Less(a, b) && Less(b, c)
    ensures Less(a, c)
  {
    if a != [] && a[0] == b[0] == c[0] {
      LessTransitive(a[1..], b[1..], c[1..]);
    }
  }

  /** A proper prefix, or the smaller code unit at the first place where the two texts differ. */
  ghost predicate Before(a: Text, b: Text) {
    a < b || exists k: nat :: k < |a| && k < |b| && a[..k] == b[..k] && a[k] as int < b[k] as int
  }

  /** The order of `<` is that of the code units as numbers. */
  lemma {:induction false} LessExactly(a: Text, b: Text)
    ensures Less(a, b) <==> Before(a, b)
  {
    if a == [] || b == [] || a[0] != b[0] {
      BeforeAtOnce(a, b);
    } else {
      LessExactly(a[1..], b[1..]);
      BeforeLater(a, b);
    }
  }

  lemma BeforeAtOnce(a: Text, b: Text)
    requires a == [] || b == [] || a[0] != b[0]
    ensures Before(a, b) <==> b != [] && (a == [] || a[0] < b[0])
  {
    if a != [] && b != [] {
      assert a[..0] == b[..0];
      if k: nat :| k < |a| && k < |b| && a[..k] == b[..k] && a[k] as int < b[k] as int {
        assert k > 0 ==> a[..k][0] == b[..k][0];
      }
    }
  }

  lemma BeforeLater(a: Text, b: Text)
    requires a != [] && b != [] && a[0] == b[0]
    ensures Before(a, b) <==> Before(a[1..], b[1..])
  {
    var x, y := a[1..], b[1..];
    assert a == [a[0]] + x && b == [b[0]] + y;
    if k: nat :| k < |a| && k < |b| && a[..k] == b[..k] && a[k] as int < b[k] as int {
      assert k > 0;
      assert x[..k - 1] == a[..k][1..] && y[..k - 1] == b[..k][1..];
      assert x[k - 1] == a[k] && y[k - 1] == b[k];
    }
    if k: nat :| k < |x| && k < |y| && x[..k] == y[..k] && x[k] as int < y[k] as int {
      assert a[..k + 1] == [a[0]] + x[..k] && b[..k + 1] == [b[0]] + y[..k];
      assert a[k + 1] == x[k] && b[k + 1] == y[k];
    }
  }

  // ---------------------------------------------------------------------------
  // Sorting keyed entries
  // ---------------------------------------------------------------------------

  /** `([a], [b]) => (a < b ? -1 : 1)`, as far as which of two entries goes first. */
  function ByKey<T>(key: T -> Text): (T, T) -> bool {
    (a: T, b: T) => Less(key(a), key(b))
  }

  /** `entries.sort(([a], [b]) => (a < b ? -1 : 1))`. */
  function SortByKey<T>(s: seq<T>, key: T -> Text): seq<T> {
    Sort(s, ByKey(key))
  }

  lemma InsertByKey<T>(p: T, s: seq<T>, key: T -> Text)
    ensures Insert(p, s, ByKey(key)) ==
            if s == [] || Less(key(p), key(s[0])) then [p] + s else [s[0]] + Insert(p, s[1..], ByKey(key))
  {
  }

  predicate UniqueKeys<T>(s: seq<T>, key: T -> Text) {
    forall i, j :: 0 <= i < j < |s| ==> key(s[i]) != key(s[j])
  }

  predicate Ascending<T>(s: seq<T>, key: T -> Text) {
    forall i, j :: 0 <= i < j < |s| ==> Less(key(s[i]), key(s[j]))
  }

  lemma SortMember<T>(s: seq<T>, q: T, key: T -> Text)
    ensures q in SortByKey(s, key) <==> q in s
  {
    SortMembers(s, ByKey(key));
    assert q in SortByKey(s, key) <==> q in multiset(SortByKey(s, key));
    assert q in s <==> q in multiset(s);
  }

  lemma {:induction false} InsertAscending<T>(p: T, s: seq<T>, key: T -> Text)
    requires Ascending(s, key)
    requires forall q: T :: q in s ==> key(q) != key(p)
    ensures Ascending(Insert(p, s, ByKey(key)), key)
  {
    if s == [] {
    } else if Less(key(p), key(s[0])) {
      forall i | 0 < i < |s| ensures Less(key(p), key(s[i])) {
        LessTransitive(key(p), key(s[0]), key(s[i]));
      }
    } else {
      assert s[0] in s;
      LessTotal(key(p), key(s[0]));
      InsertAscending(p, s[1..], key);
      InsertMembers(p, s[1..], ByKey(key));
      var r := Insert(p, s[1..], ByKey(key));
      forall i | 0 <= i < |r| ensures Less(key(s[0]), key(r[i])) {
        assert r[i] in r;
        if r[i] != p {
          assert r[i] in multiset(r);
          var k :| 0 <= k < |s[1..]| && s[1..][k] == r[i];
          assert s[k + 1] == r[i];
        }
      }
    }
  }

  lemma {:induction false} SortAscending<T>(s: seq<T>, key: T -> Text)
    requires UniqueKeys(s, key)
    ensures Ascending(SortByKey(s, key), key)
  {
    if s == [] {
    } else {
      SortAscending(s[1..], key);
      SortMembers(s[1..], ByKey(key));
      forall q: T | q in SortByKey(s[1..], key) ensures key(q) != key(s[0]) {
        assert q in multiset(SortByKey(s[1..], key));
        var k :| 0 <= k < |s[1..]| && s[1..][k] == q;
        assert s[k + 1] == q;
      }
      InsertAscending(s[0], SortByKey(s[1..], key), key);
    }
  }

  /** Two ascending lists with the same members are the same list. */
  lemma {:induction false} AscendingDetermined<T>(a: seq<T>, b: seq<T>, key: T -> Text)
    requires Ascending(a, key) && Ascending(b, key)
    requires forall q: T :: q in a <==> q in b
    ensures a == b
  {
    assert |a| > 0 ==> a[0] in b;
    assert |b| > 0 ==> b[0] in a;
    if a == [] {
    } else {
      var i :| 0 <= i < |b| && b[i] == a[0];
      var j :| 0 <= j < |a| && a[j] == b[0];
      if i != 0 && j != 0 { LessAsymmetric(key(a[0]), key(b[0])); }
      assert a[0] == b[0];
      assert a == [a[0]] + a[1..] && b == [b[0]] + b[1..];
      forall q: T ensures q in a[1..] <==> q in b[1..] {
        AscendingTail(a, q, key);
        AscendingTail(b, q, key);
      }
      AscendingDetermined(a[1..], b[1..], key);
    }
  }

  lemma AscendingTail<T>(a: seq<T>, q: T, key: T -> Text)
    requires Ascending(a, key) && a != []
    ensures q in a[1..] <==> q in a && q != a[0]
  {
    assert a == [a[0]] + a[1..];
    if q in a[1..] {
      var k :| 0 <= k < |a[1..]| && a[1..][k] == q;
      LessAsymmetric(key(a[0]), key(a[k + 1]));
    }
  }

  /** Sorting forgets the order the entries were listed in. */
  lemma SortForgetsOrder<T>(a: seq<T>, b: seq<T>, key: T -> Text)
    requires UniqueKeys(a, key) && UniqueKeys(b, key)
    requires forall q: T :: q in a <==> q in b
    ensures SortByKey(a, key) == SortByKey(b, key)
  {
    forall q: T ensures q in SortByKey(a, key) <==> q in SortByKey(b, key) {
      SortMember(a, q, key);
      SortMember(b, q, key);
    }
    SortAscending(a, key);
    SortAscending(b, key);
    AscendingDetermined(SortByKey(a, key), SortByKey(b, key), key);
  }

  // ---------------------------------------------------------------------------
  // White space
  // ---------------------------------------------------------------------------

  /** White space and line terminators, which `trim` removes. */
  predicate IsSpace(u: CodeUnit) {
    0x09 <= u <= 0x0D || u == 0x20 || u == 0xA0 || u == 0x1680 || 0x2000 <= u <= 0x200A
    || u == 0x2028 || u == 0x2029 || u == 0x202F || u == 0x205F || u == 0x3000 || u == 0xFEFF
  }

  lemma SpacesSpelled(u: CodeUnit)
    ensures IsSpace(u) <==>
            || u in {0x09, 0x0A, 0x0B, 0x0C, 0x0D, 0x2028, 0x2029}
            || u in {0x20, 0xA0, 0x1680, 0x202F, 0x205F, 0x3000, 0xFEFF}
            || u in {0x2000, 0x2001, 0x2002, 0x2003, 0x2004, 0x2005, 0x2006, 0x2007, 0x2008, 0x2009, 0x200A}
  {
  }

  function Trim(s: Text): Text {
    if s != [] && IsSpace(s[0]) then Trim(s[1..])
    else if s != [] && IsSpace(s[|s| - 1]) then Trim(s[..|s| - 1])
    else s
  }

  /** The ends of a text from `lo` to `hi` are white space, and what is left between starts and ends otherwise. */
  predicate TrimsTo(s: Text, lo: nat, hi: nat) {
    && lo <= hi <= |s|
    && (forall k :: 0 <= k < |s| && (k < lo || hi <= k) ==> IsSpace(s[k]))
    && (lo < hi ==> !IsSpace(s[lo]) && !IsSpace(s[hi - 1]))
  }

  /** Trimming cuts white space off both ends, all of it and nothing else. */
  lemma {:induction false} TrimExactly(s: Text)
    ensures exists lo: nat, hi: nat :: TrimsTo(s, lo, hi) && Trim(s) == s[lo..hi]
    ensures Trim(s) != [] <==> exists k :: 0 <= k < |s| && !IsSpace(s[k])
  {
    var lo, hi := Trimmed(s);
    assert TrimsTo(s, lo, hi);
    if lo < hi {
      assert !IsSpace(s[lo]);
    }
  }

  lemma {:induction false} Trimmed(s: Text) returns (lo: nat, hi: nat)
    ensures TrimsTo(s, lo, hi) && Trim(s) == s[lo..hi]
  {
    if s != [] && IsSpace(s[0]) {
      lo, hi := Trimmed(s[1..]);
      lo, hi := lo + 1, hi + 1;
    } else if s != [] && IsSpace(s[|s| - 1]) {
      lo, hi := Trimmed(s[..|s| - 1]);
    } else {
      lo, hi := 0, |s|;
    }
  }

  // ---------------------------------------------------------------------------
  // Decimal text
  // ---------------------------------------------------------------------------

  function Digit(d: nat): (u: CodeUnit)
    requires d < 10
  {
    0x30 + d as CodeUnit
  }

  function Decimal(n: nat): Text {
    if n < 10 then [Digit(n)] else Decimal(n / 10) + [Digit(n % 10)]
  }

  predicate IsDigit(u: CodeUnit) {
    0x30 <= u <= 0x39
  }

  predicate AllDigits(t: Text) {
    forall i :: 0 <= i < |t| ==> IsDigit(t[i])
  }

  function DecimalValue(t: Text): nat
    requires AllDigits(t)
  {
    if t == [] then 0 else DecimalValue(t[..|t| - 1]) * 10 + (t[|t| - 1] - 0x30) as nat
  }

  /** The digits are those of ASCII. */
  lemma DigitsSpelled(d: nat)
    requires d < 10
    ensures Decimal(d) == [Ascii("0123456789")[d]]
  {
    var digits := "0123456789";
    assert Ascii(digits)[d] == digits[d] as CodeUnit;
  }

  lemma {:induction false} DecimalReads(n: nat)
    ensures AllDigits(Decimal(n)) && Decimal(n) != []
    ensures DecimalValue(Decimal(n)) == n
    ensures Decimal(n)[0] == Ascii("0")[0] ==> n == 0
  {
    if n >= 10 {
      DecimalReads(n / 10);
      assert Decimal(n)[..|Decimal(n)| - 1] == Decimal(n / 10);
    } else {
      assert Decimal(n)[..0] == [];
    }
  }
}
