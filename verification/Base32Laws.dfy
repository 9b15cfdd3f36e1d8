/** The laws of the base32 codec: lossless on bytes, and an exact description of its image. */
module Base32Laws {
  import opened Base32
  import opened Powers
  import opened Sequences

  // ---------------------------------------------------------------------------
  // Symbols and bits
  // ---------------------------------------------------------------------------

  lemma SymbolsSnoc(a: string, x: string, c: char)
    requires IsAlphabet(a) && AllIn(a, x) && c in a
    ensures AllIn(a, x + [c])
    ensures SymbolsToBits(a, x + [c]) == SymbolsToBits(a, x) + SymbolBits(a, c)
  {
    SnocParts(x, c);
  }

  lemma BytesSnoc(x: seq<Byte>, b: Byte)
    ensures BytesToBits(x + [b]) == BytesToBits(x) + Low(b, 8)
  {
    SnocParts(x, b);
  }

  lemma {:induction false} SymbolsConcat(a: string, x: string, y: string)
    requires IsAlphabet(a) && AllIn(a, x) && AllIn(a, y)
    ensures AllIn(a, x + y)
    ensures SymbolsToBits(a, x + y) == SymbolsToBits(a, x) + SymbolsToBits(a, y)
    decreases |y|
  {
    if y == [] {
      assert x + y == x;
    } else {
      var z, c := y[..|y| - 1], y[|y| - 1];
      SymbolsConcat(a, x, z);
      SymbolsSnoc(a, x + z, c);
      ConcatSnoc(x, y);
      Regroup(SymbolsToBits(a, x), SymbolsToBits(a, z), SymbolBits(a, c));
    }
  }

  lemma {:induction false} BytesConcat(x: seq<Byte>, y: seq<Byte>)
    ensures BytesToBits(x + y) == BytesToBits(x) + BytesToBits(y)
    decreases |y|
  {
    if y == [] {
      assert x + y == x;
    } else {
      var z, b := y[..|y| - 1], y[|y| - 1];
      BytesConcat(x, z);
      BytesSnoc(x + z, b);
      ConcatSnoc(x, y);
      Regroup(BytesToBits(x), BytesToBits(z), Low(b, 8));
    }
  }

  lemma {:induction false} FirstIndex(a: string, k: nat)
    requires Distinct(a) && k < |a|
    ensures IndexOf(a, a[k]) == k
  {
    if k == 0 {
    } else {
      assert a[1..][k - 1] == a[k];
      FirstIndex(a[1..], k - 1);
    }
  }

  lemma {:induction false} DistinctByIndex(a: string)
    requires forall i, j :: 0 <= i < j < |a| ==> a[i] != a[j]
    ensures Distinct(a)
  {
    if a == [] {
    } else {
      DistinctByIndex(a[1..]);
    }
  }

  lemma SymbolBack(a: string, g: seq<bool>)
    requires IsAlphabet(a) && |g| == 5
    ensures SymbolOf(a, g) in a
    ensures SymbolsToBits(a, [SymbolOf(a, g)]) == g
  {
    var c := SymbolOf(a, g);
    LowOfValue(g);
    PowersUsed();
    FirstIndex(a, Value(g));
    assert SymbolsToBits(a, [c]) == SymbolsToBits(a, []) + SymbolBits(a, c) by { assert [c][..0] == []; }
  }

  lemma SymbolForth(a: string, c: char)
    requires IsAlphabet(a) && c in a
    ensures SymbolOf(a, SymbolBits(a, c)) == c
  {
    PowersUsed();
    ValueOfLow(IndexOf(a, c), 5);
  }

  /** The stream filled up to whole groups of five. */
  function Filled(s: seq<bool>): seq<bool>
    decreases |s|
  {
    if s == [] then [] else if |s| < 5 then s + Zeros(5 - |s|) else s[..5] + Filled(s[5..])
  }

  lemma {:induction false} FilledIsPadded(s: seq<bool>)
    ensures |s| <= |Filled(s)| < |s| + 5
    ensures Filled(s) == s + Zeros(|Filled(s)| - |s|)
    decreases |s|
  {
    if |s| >= 5 {
      FilledIsPadded(s[5..]);
      Regroup(s[..5], s[5..], Zeros(|Filled(s[5..])| - |s[5..]|));
      Halves(s, 5);
    } else if s == [] {
      assert s + Zeros(0) == s;
    }
  }

  lemma EncodeHead(a: string, s: seq<bool>)
    requires IsAlphabet(a) && |s| >= 5
    ensures EncodeBits(a, s) == [SymbolOf(a, s[..5])] + EncodeBits(a, s[5..])
  {
  }

  /** What encoding a bit stream keeps: the stream, filled up. */
  lemma {:induction false} EncodedBits(a: string, s: seq<bool>)
    requires IsAlphabet(a)
    ensures AllIn(a, EncodeBits(a, s))
    ensures SymbolsToBits(a, EncodeBits(a, s)) == Filled(s)
    decreases |s|
  {
    if s == [] {
      assert EncodeBits(a, s) == [];
    } else if |s| < 5 {
      var g := s + Zeros(5 - |s|);
      assert EncodeBits(a, s) == [SymbolOf(a, g)];
      SymbolBack(a, g);
    } else {
      EncodedBits(a, s[5..]);
      SymbolBack(a, s[..5]);
      EncodeHead(a, s);
      SymbolsConcat(a, [SymbolOf(a, s[..5])], EncodeBits(a, s[5..]));
    }
  }

  lemma {:induction false} EncodedLength(s: seq<bool>)
    ensures |Quintets(s)| == (|s| + 4) / 5
    decreases |s|
  {
    if |s| >= 5 {
      EncodedLength(s[5..]);
    }
  }

  lemma OneByteBack(x: Byte)
    ensures DecodeBits(Low(x, 8)) == [x]
  {
    OneOctet(Low(x, 8));
    PowersUsed();
    ValueOfLow(x, 8);
  }

  /** Whole bytes in, the same bytes out. */
  predicate ComesBack(x: seq<Byte>) {
    Whole(BytesToBits(x), 8) && DecodeBits(BytesToBits(x)) == x
  }

  lemma BytesBackSnoc(x: seq<Byte>, b: Byte)
    ensures ComesBack(x) ==> ComesBack(x + [b])
  {
    if ComesBack(x) {
      BytesSnoc(x, b);
      WholeExtends(BytesToBits(x), Low(b, 8), 8);
      DecodeConcat(BytesToBits(x), Low(b, 8));
      OneByteBack(b);
    }
  }

  lemma {:induction false} BytesBack(data: seq<Byte>)
    ensures Whole(BytesToBits(data), 8)
    ensures DecodeBits(BytesToBits(data)) == data
  {
    if data == [] {
    } else {
      BytesBack(data[..|data| - 1]);
      BytesBackSnoc(data[..|data| - 1], data[|data| - 1]);
      Snoc(data);
    }
  }

  /** Encoding loses nothing, whatever the bytes. */
  lemma DecodeEncoded(a: string, data: seq<Byte>)
    requires IsAlphabet(a)
    ensures DecodeSpec(a, EncodeBits(a, BytesToBits(data))) == Decoded(data)
    ensures |EncodeBits(a, BytesToBits(data))| == (8 * |data| + 4) / 5
  {
    var s := BytesToBits(data);
    EncodedBits(a, s);
    EncodedLength(s);
    FilledIsPadded(s);
    BytesBack(data);
    DropRest(s, Zeros(|Filled(s)| - |s|));
  }

  // ---------------------------------------------------------------------------
  // The alphabet, case and padding
  // ---------------------------------------------------------------------------

  lemma AlphabetOrder()
    ensures |BASE32_ALPHABET| == 32
    ensures forall i :: 0 <= i < 32 ==> BASE32_ALPHABET[i] as int == if i < 26 then 65 + i else 24 + i
  {
  }

  lemma AlphabetIsAlphabet()
    ensures IsAlphabet(BASE32_ALPHABET)
    ensures forall c :: c in BASE32_ALPHABET ==> c as int < 97 && c != '='
  {
    AlphabetOrder();
    forall i, j | 0 <= i < j < 32 ensures BASE32_ALPHABET[i] != BASE32_ALPHABET[j] {
      assert BASE32_ALPHABET[i] as int != BASE32_ALPHABET[j] as int;
    }
    DistinctByIndex(BASE32_ALPHABET);
    forall c | c in BASE32_ALPHABET ensures c as int < 97 && c != '=' {
      var i :| 0 <= i < 32 && BASE32_ALPHABET[i] == c;
      assert BASE32_ALPHABET[i] as int == if i < 26 then 65 + i else 24 + i;
    }
  }

  lemma {:induction false} UpperFixed(fold: char -> string, s: string)
    requires forall i :: 0 <= i < |s| ==> s[i] as int < 97
    ensures UpperText(fold, s) == s
  {
    if s == [] {
    } else {
      UpperFixed(fold, s[1..]);
      Cons(s);
    }
  }

  lemma CleanFixed(fold: char -> string, s: string)
    requires AllIn(BASE32_ALPHABET, s)
    ensures Clean(fold, s) == s
  {
    AlphabetIsAlphabet();
    forall i | 0 <= i < |s| ensures s[i] as int < 97 && s[i] != '=' {
      assert s[i] in BASE32_ALPHABET;
    }
    UpperFixed(fold, s);
    PaddingStripped(s);
  }

  lemma PaddingStripped(s: string)
    requires forall i :: 0 <= i < |s| ==> s[i] != '='
    ensures StripPadding(s) == s
  {
  }

  /** `base32Decode(base32Encode(data))` is `data`, for every byte string. */
  lemma Base32RoundTrip(fold: char -> string, data: seq<Byte>)
    ensures IsAlphabet(BASE32_ALPHABET)
    ensures DecodeSpec(BASE32_ALPHABET, Clean(fold, EncodeBits(BASE32_ALPHABET, BytesToBits(data)))) == Decoded(data)
  {
    AlphabetIsAlphabet();
    EncodedBits(BASE32_ALPHABET, BytesToBits(data));
    CleanFixed(fold, EncodeBits(BASE32_ALPHABET, BytesToBits(data)));
    DecodeEncoded(BASE32_ALPHABET, data);
  }

  lemma {:induction false} UpperConcat(fold: char -> string, s: string, t: string)
    ensures UpperText(fold, s + t) == UpperText(fold, s) + UpperText(fold, t)
  {
    if s == [] {
      assert s + t == t;
    } else {
      UpperConcat(fold, s[1..], t);
      DropConcat(s, t, 1);
      assert UpperText(fold, s + t) == Upper(fold, s[0]) + UpperText(fold, s[1..] + t);
    }
  }

  /** Padding at the end is ignored, however much of it there is. */
  lemma {:induction false} PaddingIgnored(fold: char -> string, s: string, padding: string)
    requires forall i :: 0 <= i < |padding| ==> padding[i] == '='
    ensures Clean(fold, s + padding) == Clean(fold, s)
    decreases |padding|
  {
    if padding == [] {
      assert s + padding == s;
    } else {
      var n := |padding| - 1;
      PaddingIgnored(fold, s, padding[..n]);
      assert s + padding == (s + padding[..n]) + "=";
      UpperConcat(fold, s + padding[..n], "=");
      assert UpperText(fold, "=") == "=" + UpperText(fold, "=="[2..]);
      var u := UpperText(fold, s + padding[..n]);
      assert UpperText(fold, s + padding) == u + "=";
      assert (u + "=")[..|u|] == u;
    }
  }

  /** What is stripped is the signs `=` at the end, all of them and nothing else. */
  lemma {:induction false} PaddingExactly(s: string)
    ensures StripPadding(s) <= s && (StripPadding(s) == [] || StripPadding(s)[|StripPadding(s)| - 1] != '=')
    ensures forall i :: |StripPadding(s)| <= i < |s| ==> s[i] == '='
  {
    if s != [] && s[|s| - 1] == '=' {
      PaddingExactly(s[..|s| - 1]);
    }
  }

  predicate SameLetter(c: char, d: char) {
    c == d || ('a' <= c <= 'z' && d as int == c as int - 32) || ('a' <= d <= 'z' && c as int == d as int - 32)
  }

  /** ASCII case is ignored. */
  lemma {:induction false} CaseIgnored(fold: char -> string, s: string, t: string)
    requires |s| == |t| && forall i :: 0 <= i < |s| ==> SameLetter(s[i], t[i])
    ensures Clean(fold, s) == Clean(fold, t)
  {
    SameUpper(fold, s, t);
  }

  lemma {:induction false} SameUpper(fold: char -> string, s: string, t: string)
    requires |s| == |t| && forall i :: 0 <= i < |s| ==> SameLetter(s[i], t[i])
    ensures UpperText(fold, s) == UpperText(fold, t)
  {
    if s == [] {
    } else {
      assert SameLetter(s[0], t[0]);
      SameUpper(fold, s[1..], t[1..]);
    }
  }

  // ---------------------------------------------------------------------------
  // The exact image
  // ---------------------------------------------------------------------------

  /** Bits left over after the last whole byte of a decoded text. */
  function Leftover(t: seq<bool>): seq<bool>
    decreases |t|
  {
    if |t| < 8 then t else Leftover(t[8..])
  }

  lemma DecodeHead(t: seq<bool>)
    requires |t| >= 8
    ensures DecodeBits(t) == [ByteOf(t[..8])] + DecodeBits(t[8..])
  {
  }

  lemma ByteForth(g: seq<bool>)
    requires |g| == 8
    ensures BytesToBits([ByteOf(g)]) == g
  {
    LowOfValue(g);
    assert [ByteOf(g)][..0] == [];
  }

  lemma {:induction false} LeftoverSplits(t: seq<bool>)
    ensures t == BytesToBits(DecodeBits(t)) + Leftover(t)
    decreases |t|
  {
    if |t| < 8 {
      assert DecodeBits(t) == [];
    } else {
      LeftoverSplits(t[8..]);
      WholeBytesFirst(t);
      Halves(t, 8);
      Glue(t, t[..8], BytesToBits(DecodeBits(t[8..])), Leftover(t));
    }
  }

  lemma {:induction false} LeftoverCount(t: seq<bool>)
    ensures |Leftover(t)| == |t| % 8
    decreases |t|
  {
    if |t| >= 8 {
      LeftoverCount(t[8..]);
      assert |t| % 8 == (|t| - 8) % 8;
    }
  }

  lemma WholeBytesFirst(t: seq<bool>)
    requires |t| >= 8
    ensures BytesToBits(DecodeBits(t)) == t[..8] + BytesToBits(DecodeBits(t[8..]))
  {
    DecodeHead(t);
    ByteForth(t[..8]);
    BytesConcat([ByteOf(t[..8])], DecodeBits(t[8..]));
  }

  lemma TextBackSnoc(a: string, x: string, c: char)
    requires IsAlphabet(a) && AllIn(a, x) && c in a
    requires Whole(SymbolsToBits(a, x), 5) && EncodeBits(a, SymbolsToBits(a, x)) == x
    ensures AllIn(a, x + [c]) && Whole(SymbolsToBits(a, x + [c]), 5)
    ensures EncodeBits(a, SymbolsToBits(a, x + [c])) == x + [c]
  {
    SymbolsSnoc(a, x, c);
    var g := SymbolBits(a, c);
    WholeExtends(SymbolsToBits(a, x), g, 5);
    EncodeConcat(a, SymbolsToBits(a, x), g);
    OneQuintet(g);
    SymbolForth(a, c);
    assert EncodeBits(a, g) == [c];
  }

  /** The bits of a text determine it. */
  lemma {:induction false} TextBack(a: string, x: string)
    requires IsAlphabet(a) && AllIn(a, x)
    ensures Whole(SymbolsToBits(a, x), 5) && EncodeBits(a, SymbolsToBits(a, x)) == x
  {
    if x == [] {
      assert EncodeBits(a, []) == [];
    } else {
      TextBack(a, x[..|x| - 1]);
      TextBackSnoc(a, x[..|x| - 1], x[|x| - 1]);
      Snoc(x);
    }
  }

  /** Re-encoding what a text decodes to gives the text back exactly when few, zero bits are left over. */
  lemma ReencodeExactly(a: string, text: string)
    requires IsAlphabet(a) && AllIn(a, text)
    ensures var bits := SymbolsToBits(a, text);
            EncodeBits(a, BytesToBits(DecodeBits(bits))) == text <==>
            |Leftover(bits)| < 5 && Leftover(bits) == Zeros(|Leftover(bits)|)
  {
    var bits := SymbolsToBits(a, text);
    var rest := Leftover(bits);
    var whole := BytesToBits(DecodeBits(bits));
    var again := EncodeBits(a, whole);
    LeftoverSplits(bits);
    EncodedBits(a, whole);
    FilledIsPadded(whole);
    var fill := |Filled(whole)| - |whole|;
    if again == text {
      Cancel(whole, rest, Zeros(fill));
    }
    if |rest| < 5 && rest == Zeros(|rest|) {
      assert 5 * |again| == |whole| + fill && 5 * |text| == |whole| + |rest|;
      assert fill == |rest|;
      TextBack(a, again);
      TextBack(a, text);
    }
  }

  lemma WholeEights(k: nat, x: nat)
    ensures (8 * k + x) % 8 == x % 8
  {
  }

  lemma LeftoverLength(n: nat)
    ensures 5 * n % 8 < 5 <==> n % 8 in {0, 2, 4, 5, 7}
  {
    var q, r := n / 8, n % 8;
    assert 5 * n == 8 * (5 * q) + 5 * r;
    WholeEights(5 * q, 5 * r);
    SmallLeftover(r);
  }

  lemma SmallLeftover(r: nat)
    requires r < 8
    ensures 5 * r % 8 < 5 <==> r in {0, 2, 4, 5, 7}
  {
  }

  /**
   * For an accepted text, encoding the decoded bytes restores it if and only if it is upper-case and
   * unpadded, its length is one an encoder produces, and its leftover bits are zero.
   */
  lemma Base32Image(fold: char -> string, s: string)
    requires AllIn(BASE32_ALPHABET, Clean(fold, s))
    ensures IsAlphabet(BASE32_ALPHABET)
    ensures var bits := SymbolsToBits(BASE32_ALPHABET, Clean(fold, s));
            && DecodeSpec(BASE32_ALPHABET, Clean(fold, s)) == Decoded(DecodeBits(bits))
            && (EncodeBits(BASE32_ALPHABET, BytesToBits(DecodeBits(bits))) == s <==>
                && AllIn(BASE32_ALPHABET, s)
                && |s| % 8 in {0, 2, 4, 5, 7}
                && Leftover(bits) == Zeros(|Leftover(bits)|))
  {
    AlphabetIsAlphabet();
    var a := BASE32_ALPHABET;
    var clean := Clean(fold, s);
    var bits := SymbolsToBits(a, clean);
    EncodedBits(a, BytesToBits(DecodeBits(bits)));
    if AllIn(a, s) {
      CleanFixed(fold, s);
      ReencodeExactly(a, s);
      LeftoverCount(bits);
      LeftoverLength(|s|);
    }
  }

  // ---------------------------------------------------------------------------
  // As numerals
  // ---------------------------------------------------------------------------

  /** The bytes as a numeral to the base 256. */
  function BytesNumber(data: seq<Byte>): nat {
    if data == [] then 0 else 256 * BytesNumber(data[..|data| - 1]) + data[|data| - 1]
  }

  /** The text as a numeral to the base 32; the digits are the places of the symbols in the alphabet. */
  function TextNumber(a: string, text: string): nat
    requires AllIn(a, text)
  {
    if text == [] then 0 else 32 * TextNumber(a, text[..|text| - 1]) + IndexOf(a, text[|text| - 1])
  }

  lemma {:induction false} ValueConcat(s: seq<bool>, t: seq<bool>)
    ensures Value(s + t) == Value(s) * Pow2(|t|) + Value(t)
    decreases |t|
  {
    if t == [] {
      assert s + t == s;
    } else {
      var init, last := t[..|t| - 1], t[|t| - 1];
      ValueConcat(s, init);
      ConcatSnoc(s, t);
      SnocParts(s + init, last);
      Doubling(Value(s), Pow2(|init|));
    }
  }

  lemma Doubling(x: nat, p: nat)
    ensures 2 * (x * p) == x * (2 * p)
  {
  }

  lemma {:induction false} ZerosWeighNothing(n: nat)
    ensures Value(Zeros(n)) == 0
  {
    if n == 0 {
    } else {
      ZerosWeighNothing(n - 1);
      SnocParts(Zeros(n - 1), false);
    }
  }

  /** A group of bits behind others. */
  lemma ValueBehind(s: seq<bool>, v: nat, n: nat)
    requires v < Pow2(n)
    ensures Value(s + Low(v, n)) == Value(s) * Pow2(n) + v
  {
    ValueConcat(s, Low(v, n));
    ValueOfLow(v, n);
  }

  lemma {:induction false} BytesValue(data: seq<Byte>)
    ensures Value(BytesToBits(data)) == BytesNumber(data)
  {
    if data == [] {
    } else {
      var n := |data| - 1;
      BytesValue(data[..n]);
      OneByteBehind(BytesToBits(data[..n]), data[n]);
    }
  }

  lemma OneByteBehind(s: seq<bool>, x: Byte)
    ensures Value(s + Low(x, 8)) == 256 * Value(s) + x
  {
    PowersUsed();
    ValueBehind(s, x, 8);
  }

  lemma OneSymbolBehind(s: seq<bool>, index: nat)
    requires index < 32
    ensures Value(s + Low(index, 5)) == 32 * Value(s) + index
  {
    PowersUsed();
    ValueBehind(s, index, 5);
  }

  lemma {:induction false} TextValue(a: string, text: string)
    requires IsAlphabet(a) && AllIn(a, text)
    ensures Value(SymbolsToBits(a, text)) == TextNumber(a, text)
  {
    if text == [] {
    } else {
      var n := |text| - 1;
      TextValue(a, text[..n]);
      OneSymbolBehind(SymbolsToBits(a, text[..n]), IndexOf(a, text[n]));
    }
  }

  /** Encoding multiplies the number the bytes stand for by what fills the last symbol, and changes the base. */
  lemma EncodedNumber(a: string, data: seq<Byte>)
    requires IsAlphabet(a)
    ensures var text := EncodeBits(a, BytesToBits(data));
            && |text| == (8 * |data| + 4) / 5 && AllIn(a, text)
            && TextNumber(a, text) == BytesNumber(data) * Pow2(5 * |text| - 8 * |data|)
  {
    var s := BytesToBits(data);
    var text := EncodeBits(a, s);
    EncodedBits(a, s);
    EncodedLength(s);
    FilledIsPadded(s);
    BytesValue(data);
    TextValue(a, text);
    assert |Filled(s)| == 5 * |text|;
    ValueConcat(s, Zeros(5 * |text| - |s|));
    ZerosWeighNothing(5 * |text| - |s|);
  }

  /** Decoding divides by what the leftover bits make, and changes the base. */
  lemma DecodedNumber(a: string, text: string)
    requires IsAlphabet(a) && AllIn(a, text)
    ensures var bytes := DecodeBits(SymbolsToBits(a, text));
            && DecodeSpec(a, text) == Decoded(bytes)
            && |bytes| == 5 * |text| / 8
            && BytesNumber(bytes) == TextNumber(a, text) / Pow2(5 * |text| % 8)
  {
    var bits := SymbolsToBits(a, text);
    var bytes, rest := DecodeBits(bits), Leftover(bits);
    LeftoverSplits(bits);
    LeftoverCount(bits);
    TextValue(a, text);
    BytesValue(bytes);
    ValueConcat(BytesToBits(bytes), rest);
    ValueBelow(rest);
    assert 8 * |bytes| + |rest| == 5 * |text|;
    DivUnique(TextNumber(a, text), Pow2(|rest|), BytesNumber(bytes), Value(rest));
  }

  lemma {:induction false} ValueBelow(s: seq<bool>)
    ensures Value(s) < Pow2(|s|)
  {
    if s == [] {
    } else {
      ValueBelow(s[..|s| - 1]);
    }
  }
}
