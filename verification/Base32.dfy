/**
 * The base32 codec of the TOTP secrets (section 6 of RFC 4648, unpadded as section 3.2 allows).
 * Both loops push bits through a 32-bit accumulator that is never masked, so its oldest bits keep
 * falling off; the specification is a plain regrouping of one stream of bits.
 */
module Base32 {
  import opened Powers
  import opened Sequences

  const BASE32_ALPHABET: string := "ABCDEFGHIJKLMNOPQRSTUVWXYZ234567"
  const TWO32: int := 0x1_0000_0000

  /** An accumulator value; JavaScript's signed reading of the same 32 bits makes no difference here. */
  type Word = n: int | 0 <= n < TWO32
  type Byte = n: int | 0 <= n < 256

  /** Thirty-two different symbols; the loops work for any such alphabet. */
  predicate IsAlphabet(a: string) {
    |a| == 32 && Distinct(a)
  }

  predicate Distinct(a: string) {
    a == [] || (a[0] !in a[1..] && Distinct(a[1..]))
  }

  datatype Result = Decoded(bytes: seq<Byte>) | InvalidCharacter

  // ---------------------------------------------------------------------------
  // 32-bit arithmetic
  // ---------------------------------------------------------------------------

  /** `(v << 8) | byte`: the top eight bits are lost, the lowest eight are free. */
  function PushByte(v: Word, byte: Byte): Word {
    v * 256 % TWO32 + byte
  }

  /** `(v << 5) | index`. */
  function PushSymbol(v: Word, index: int): Word
    requires 0 <= index < 32
  {
    v * 32 % TWO32 + index
  }

  /** `v << s`, one place at a time. */
  function ShiftLeft(v: Word, s: nat): Word
    decreases s
  {
    if s == 0 then v else ShiftLeft(v * 2 % TWO32, s - 1)
  }

  /** `v >>> s`, one place at a time. */
  function ShiftRight(v: nat, s: nat): nat
    decreases s
  {
    if s == 0 then v else ShiftRight(v / 2, s - 1)
  }

  // ---------------------------------------------------------------------------
  // Numbers and their bits
  // ---------------------------------------------------------------------------

  /** The lowest `n` bits, highest first. */
  function Low(v: nat, n: nat): (s: seq<bool>)
    ensures |s| == n
    decreases n
  {
    if n == 0 then [] else Low(v / 2, n - 1) + [v % 2 == 1]
  }

  /** The number a group of bits stands for, first bit highest. */
  function Value(g: seq<bool>): nat {
    if g == [] then 0 else 2 * Value(g[..|g| - 1]) + if g[|g| - 1] then 1 else 0
  }

  lemma PowersUsed()
    ensures Pow2(5) == 32 && Pow2(8) == 256
    ensures Pow2(24) == 0x100_0000 && Pow2(27) == 0x800_0000 && Pow2(31) == 0x8000_0000
  {
    assert Pow2(10) == 1024;
    assert Pow2(20) == 0x10_0000;
  }

  lemma {:induction false} ValueOfLow(v: nat, n: nat)
    requires v < Pow2(n)
    ensures Value(Low(v, n)) == v
    decreases n
  {
    if n == 0 {
    } else {
      ValueOfLow(v / 2, n - 1);
      assert Low(v, n)[..n - 1] == Low(v / 2, n - 1);
    }
  }

  lemma {:induction false} LowOfValue(g: seq<bool>)
    ensures Value(g) < Pow2(|g|)
    ensures Low(Value(g), |g|) == g
  {
    if g == [] {
    } else {
      LowOfValue(g[..|g| - 1]);
      assert g == g[..|g| - 1] + [g[|g| - 1]];
    }
  }

  /** Adding multiples of a power of two leaves the bits below it alone. */
  lemma {:induction false} LowIgnores(v: nat, k: nat, n: nat)
    ensures Low(v + k * Pow2(n), n) == Low(v, n)
    decreases n
  {
    if n == 0 {
    } else {
      var t := k * Pow2(n - 1);
      assert k * Pow2(n) == 2 * t;
      assert (v + 2 * t) / 2 == v / 2 + t && (v + 2 * t) % 2 == v % 2;
      LowIgnores(v / 2, k, n - 1);
    }
  }

  lemma {:induction false} LowSplit(v: nat, n: nat, s: nat)
    ensures Low(v, n + s) == Low(ShiftRight(v, s), n) + Low(v, s)
    decreases s
  {
    if s > 0 {
      LowSplit(v / 2, n, s - 1);
      Regroup(Low(ShiftRight(v, s), n), Low(v / 2, s - 1), [v % 2 == 1]);
    } else {
      assert Low(v, n) + [] == Low(v, n);
    }
  }

  lemma {:induction false} LowDrop(v: nat, n: nat, k: nat)
    requires k <= n
    ensures Low(v, n)[k..] == Low(v, n - k)
    decreases n
  {
    if k < n {
      LowDrop(v / 2, n - 1, k);
      assert Low(v, n)[k..] == Low(v / 2, n - 1)[k..] + [v % 2 == 1];
    }
  }

  /** Numbers that differ by a multiple of `2^m` share their low bits below `m`. */
  lemma LowAgree(v: nat, w: nat, k: nat, m: nat, n: nat)
    requires v == w + k * Pow2(m) && n <= m
    ensures Low(v, n) == Low(w, n)
  {
    LowIgnores(w, k, m);
    LowDrop(v, m, m - n);
    LowDrop(w, m, m - n);
  }

  lemma {:induction false} ShiftRightDivides(v: nat, s: nat)
    ensures ShiftRight(v, s) == v / Pow2(s)
    decreases s
  {
    if s == 0 {
    } else {
      ShiftRightDivides(v / 2, s - 1);
      HalfThenDivide(v, Pow2(s - 1));
    }
  }

  lemma HalfThenDivide(v: nat, p: nat)
    requires p > 0
    ensures v / 2 / p == v / (2 * p)
  {
    var q, r := v / 2 / p, v / 2 % p;
    assert v / 2 == q * p + r;
    assert v == q * (2 * p) + (2 * r + v % 2);
    DivUnique(v, 2 * p, q, 2 * r + v % 2);
  }

  lemma DivUnique(v: nat, d: nat, q: nat, r: nat)
    requires v == q * d + r && r < d
    ensures v / d == q
  {
    var q', r' := v / d, v % d;
    assert (q - q') * d == r' - r && (q' - q) * d == r - r';
    if q > q' {
      Stretch(q - q', d);
    }
    if q < q' {
      Stretch(q' - q, d);
    }
  }

  lemma {:induction false} Stretch(k: nat, d: nat)
    requires k > 0
    ensures k * d >= d
  {
    if k > 1 {
      Stretch(k - 1, d);
      assert k * d == (k - 1) * d + d;
    }
  }

  // ---------------------------------------------------------------------------
  // The specification: one stream of bits, regrouped
  // ---------------------------------------------------------------------------

  function BytesToBits(data: seq<Byte>): (s: seq<bool>)
    ensures |s| == 8 * |data|
  {
    if data == [] then [] else BytesToBits(data[..|data| - 1]) + Low(data[|data| - 1], 8)
  }

  function Zeros(n: nat): (s: seq<bool>)
    ensures |s| == n
  {
    if n == 0 then [] else Zeros(n - 1) + [false]
  }

  function SymbolOf(a: string, g: seq<bool>): char
    requires IsAlphabet(a) && |g| == 5
  {
    LowOfValue(g);
    PowersUsed();
    a[Value(g)]
  }

  /** Groups of five bits, the last one filled up with zeros. */
  function Quintets(s: seq<bool>): (gs: seq<seq<bool>>)
    ensures forall i :: 0 <= i < |gs| ==> |gs[i]| == 5
    decreases |s|
  {
    if s == [] then []
    else if |s| < 5 then [s + Zeros(5 - |s|)]
    else [s[..5]] + Quintets(s[5..])
  }

  /** Groups of eight bits; what is left over is dropped. */
  function Octets(s: seq<bool>): (gs: seq<seq<bool>>)
    ensures forall i :: 0 <= i < |gs| ==> |gs[i]| == 8
    decreases |s|
  {
    if |s| < 8 then [] else [s[..8]] + Octets(s[8..])
  }

  function EncodeBits(a: string, s: seq<bool>): (text: string)
    requires IsAlphabet(a)
    ensures |text| == |Quintets(s)|
    ensures forall i :: 0 <= i < |text| ==> text[i] == SymbolOf(a, Quintets(s)[i])
  {
    var gs := Quintets(s);
    seq(|gs|, i requires 0 <= i < |gs| => SymbolOf(a, gs[i]))
  }

  predicate AllIn(a: string, text: string) {
    forall i :: 0 <= i < |text| ==> text[i] in a
  }

  /** `text.indexOf(c)`. */
  function IndexOf(text: string, c: char): (i: int)
    ensures -1 <= i < |text|
    ensures i == -1 <==> c !in text
    ensures i >= 0 ==> text[i] == c
  {
    if text == [] then -1
    else if text[0] == c then 0
    else
      var r := IndexOf(text[1..], c);
      if r < 0 then -1 else r + 1
  }

  function SymbolBits(a: string, c: char): (s: seq<bool>)
    requires IsAlphabet(a) && c in a
    ensures |s| == 5
  {
    Low(IndexOf(a, c), 5)
  }

  function SymbolsToBits(a: string, text: string): (s: seq<bool>)
    requires IsAlphabet(a) && AllIn(a, text)
    ensures |s| == 5 * |text|
    decreases |text|
  {
    if text == [] then [] else SymbolsToBits(a, text[..|text| - 1]) + SymbolBits(a, text[|text| - 1])
  }

  function ByteOf(g: seq<bool>): Byte
    requires |g| == 8
  {
    LowOfValue(g);
    PowersUsed();
    Value(g)
  }

  function DecodeBits(s: seq<bool>): (bytes: seq<Byte>)
    ensures |bytes| == |Octets(s)|
    ensures forall i :: 0 <= i < |bytes| ==> bytes[i] == ByteOf(Octets(s)[i])
  {
    var gs := Octets(s);
    seq(|gs|, i requires 0 <= i < |gs| => ByteOf(gs[i]))
  }

  // ---------------------------------------------------------------------------
  // Case and padding
  // ---------------------------------------------------------------------------

  /** `toUpperCase` on one character; `fold` says what it does outside ASCII, where it may even lengthen. */
  function Upper(fold: char -> string, c: char): string {
    if 'a' <= c <= 'z' then [(c as int - 32) as char] else if c < 128 as char then [c] else fold(c)
  }

  function UpperText(fold: char -> string, s: string): string {
    if s == [] then [] else Upper(fold, s[0]) + UpperText(fold, s[1..])
  }

  /** `replace(/=+$/u, "")`. */
  function StripPadding(s: string): string {
    if s != [] && s[|s| - 1] == '=' then StripPadding(s[..|s| - 1]) else s
  }

  function Clean(fold: char -> string, encoded: string): string {
    StripPadding(UpperText(fold, encoded))
  }

  function DecodeSpec(a: string, clean: string): Result
    requires IsAlphabet(a)
  {
    if AllIn(a, clean) then Decoded(DecodeBits(SymbolsToBits(a, clean))) else InvalidCharacter
  }

  // ---------------------------------------------------------------------------
  // Steps of the accumulator
  // ---------------------------------------------------------------------------

  lemma PushedByte(v: Word, byte: Byte)
    ensures PushByte(v, byte) == byte + PushByte(v, byte) / 256 * 256
    ensures v == PushByte(v, byte) / 256 + v * 256 / TWO32 * 0x100_0000
  {
  }

  lemma PushedSymbol(v: Word, index: int)
    requires 0 <= index < 32
    ensures PushSymbol(v, index) == index + PushSymbol(v, index) / 32 * 32
    ensures v == PushSymbol(v, index) / 32 + v * 32 / TWO32 * 0x800_0000
  {
  }

  lemma AfterPushByte(v: Word, byte: Byte, n: nat)
    requires n <= 24
    ensures Low(PushByte(v, byte), n + 8) == Low(v, n) + Low(byte, 8)
  {
    var w := PushByte(v, byte);
    PowersUsed();
    LowSplit(w, n, 8);
    ShiftRightDivides(w, 8);
    PushedByte(v, byte);
    LowAgree(w, byte, w / 256, 8, 8);
    LowAgree(v, w / 256, v * 256 / TWO32, 24, n);
  }

  lemma AfterPushSymbol(v: Word, index: int, n: nat)
    requires 0 <= index < 32 && n <= 27
    ensures Low(PushSymbol(v, index), n + 5) == Low(v, n) + Low(index, 5)
  {
    var w := PushSymbol(v, index);
    PowersUsed();
    LowSplit(w, n, 5);
    ShiftRightDivides(w, 5);
    PushedSymbol(v, index);
    LowAgree(w, index, w / 32, 5, 5);
    LowAgree(v, w / 32, v * 32 / TWO32, 27, n);
  }

  /** The highest `k` of the low `n` bits, and the others. */
  lemma TakeHigh(v: nat, n: nat, k: nat)
    requires k <= n
    ensures Low(ShiftRight(v, n - k), k) == Low(v, n)[..k]
    ensures Low(v, n - k) == Low(v, n)[k..]
    ensures Low(v, n) == Low(v, n)[..k] + Low(v, n - k)
  {
    LowSplit(v, k, n - k);
    LowDrop(v, n, k);
  }

  lemma MaskedValue(x: nat)
    ensures Value(Low(x, 5)) == x % 32
    ensures Value(Low(x, 8)) == x % 256
  {
    PowersUsed();
    LowAgree(x, x % 32, x / 32, 5, 5);
    LowAgree(x, x % 256, x / 256, 8, 8);
    ValueOfLow(x % 32, 5);
    ValueOfLow(x % 256, 8);
  }

  lemma {:induction false} AfterShiftLeft(v: Word, n: nat, s: nat)
    requires n + s <= 31
    ensures Low(ShiftLeft(v, s), n + s) == Low(v, n) + Zeros(s)
    decreases s
  {
    if s == 0 {
      assert Low(v, n) + Zeros(0) == Low(v, n);
    } else {
      var w := v * 2 % TWO32;
      AfterShiftLeft(w, n + 1, s - 1);
      LowOfDoubled(v, n);
      ZerosInFront(s);
      Regroup(Low(v, n), [false], Zeros(s - 1));
    }
  }

  lemma Doubled(v: Word)
    ensures v * 2 % TWO32 % 2 == 0
    ensures v == v * 2 % TWO32 / 2 + v * 2 / TWO32 * 0x8000_0000
  {
  }

  lemma LowOfDoubled(v: Word, n: nat)
    requires n <= 31
    ensures Low(v * 2 % TWO32, n + 1) == Low(v, n) + [false]
  {
    PowersUsed();
    Doubled(v);
    LowAgree(v, v * 2 % TWO32 / 2, v * 2 / TWO32, 31, n);
  }

  lemma {:induction false} ZerosInFront(s: nat)
    requires s > 0
    ensures [false] + Zeros(s - 1) == Zeros(s)
  {
    if s > 1 {
      ZerosInFront(s - 1);
    }
  }

  // ---------------------------------------------------------------------------
  // Regrouping distributes over whole groups
  // ---------------------------------------------------------------------------

  /** The stream consists of whole groups of `n`. */
  predicate Whole(s: seq<bool>, n: nat)
    requires n > 0
    decreases |s|
  {
    s == [] || (|s| >= n && Whole(s[n..], n))
  }

  lemma {:induction false} WholeExtends(s: seq<bool>, g: seq<bool>, n: nat)
    requires n > 0 && Whole(s, n) && |g| == n
    ensures Whole(s + g, n)
    decreases |s|
  {
    if s == [] {
      assert s + g == g && g[n..] == [];
    } else {
      WholeExtends(s[n..], g, n);
      DropConcat(s, g, n);
    }
  }

  lemma {:induction false} QuintetsConcat(s: seq<bool>, t: seq<bool>)
    requires Whole(s, 5)
    ensures Quintets(s + t) == Quintets(s) + Quintets(t)
    decreases |s|
  {
    if s == [] {
      assert s + t == t;
    } else {
      DropConcat(s, t, 5);
      QuintetsConcat(s[5..], t);
    }
  }

  lemma {:induction false} OctetsConcat(s: seq<bool>, t: seq<bool>)
    requires Whole(s, 8)
    ensures Octets(s + t) == Octets(s) + Octets(t)
    decreases |s|
  {
    if s == [] {
      assert s + t == t;
    } else {
      DropConcat(s, t, 8);
      OctetsConcat(s[8..], t);
    }
  }

  lemma EncodeConcat(a: string, s: seq<bool>, t: seq<bool>)
    requires IsAlphabet(a) && Whole(s, 5)
    ensures EncodeBits(a, s + t) == EncodeBits(a, s) + EncodeBits(a, t)
  {
    QuintetsConcat(s, t);
  }

  lemma DecodeConcat(s: seq<bool>, t: seq<bool>)
    requires Whole(s, 8)
    ensures DecodeBits(s + t) == DecodeBits(s) + DecodeBits(t)
  {
    OctetsConcat(s, t);
  }

  lemma OneQuintet(g: seq<bool>)
    requires |g| == 5
    ensures Quintets(g) == [g]
  {
    assert g[..5] == g && g[5..] == [];
  }

  lemma OneOctet(g: seq<bool>)
    requires |g| == 8
    ensures Octets(g) == [g]
  {
    assert g[..8] == g && g[8..] == [];
  }

  // ---------------------------------------------------------------------------
  // The two loops
  // ---------------------------------------------------------------------------

  lemma NextByteBits(data: seq<Byte>, i: nat)
    requires i < |data|
    ensures BytesToBits(data[..i + 1]) == BytesToBits(data[..i]) + Low(data[i], 8)
  {
    TakeNext(data, i);
  }

  /** Shifting the next byte in. */
  lemma AbsorbByte(stream: seq<bool>, done: seq<bool>, pending: seq<bool>, value: Word, n: nat, byte: Byte)
    returns (pending': seq<bool>)
    requires stream == done + pending && pending == Low(value, n) && n <= 4
    ensures stream + Low(byte, 8) == done + pending'
    ensures pending' == Low(PushByte(value, byte), n + 8)
  {
    AfterPushByte(value, byte, n);
    pending' := pending + Low(byte, 8);
    Regroup(done, pending, Low(byte, 8));
  }

  /** Emitting the five oldest pending bits. */
  lemma EmitSymbol(a: string, stream: seq<bool>, done: seq<bool>, pending: seq<bool>, value: nat, n: nat)
    returns (done': seq<bool>, pending': seq<bool>)
    requires IsAlphabet(a) && stream == done + pending && pending == Low(value, n) && Whole(done, 5) && n >= 5
    ensures Whole(done', 5) && stream == done' + pending' && pending' == Low(value, n - 5)
    ensures EncodeBits(a, done') == EncodeBits(a, done) + [a[ShiftRight(value, n - 5) % 32]]
  {
    var group := pending[..5];
    done', pending' := done + group, pending[5..];
    TakeHigh(value, n, 5);
    MaskedValue(ShiftRight(value, n - 5));
    Halves(pending, 5);
    Regroup(done, group, pending');
    EncodeConcat(a, done, group);
    OneQuintet(group);
    WholeExtends(done, group, 5);
  }

  lemma FilledValue(value: Word, n: nat)
    requires n < 5
    ensures Value(Low(value, n) + Zeros(5 - n)) == ShiftLeft(value, 5 - n) % 32
  {
    AfterShiftLeft(value, n, 5 - n);
    MaskedValue(ShiftLeft(value, 5 - n));
  }

  /** Emitting the last bits, filled up. */
  lemma EmitRest(a: string, stream: seq<bool>, done: seq<bool>, pending: seq<bool>, value: Word, n: nat)
    requires IsAlphabet(a) && stream == done + pending && pending == Low(value, n) && Whole(done, 5) && 0 < n < 5
    ensures EncodeBits(a, stream) == EncodeBits(a, done) + [a[ShiftLeft(value, 5 - n) % 32]]
  {
    var group := Low(value, n) + Zeros(5 - n);
    EncodeConcat(a, done, Low(value, n));
    assert Quintets(Low(value, n)) == [group];
    FilledValue(value, n);
    assert EncodeBits(a, Low(value, n)) == [SymbolOf(a, group)];
  }

  method Base32Encode(a: string, data: seq<Byte>) returns (output: string)
    requires IsAlphabet(a)
    ensures output == EncodeBits(a, BytesToBits(data))
  {
    var bits: nat, value: Word := 0, 0;
    output := "";
    ghost var done: seq<bool>, pending: seq<bool>, stream: seq<bool> := [], [], [];
    for i := 0 to |data|
      invariant bits < 5 && Whole(done, 5)
      invariant stream == BytesToBits(data[..i])
      invariant stream == done + pending && pending == Low(value, bits)
      invariant output == EncodeBits(a, done)
    {
      NextByteBits(data, i);
      pending := AbsorbByte(stream, done, pending, value, bits, data[i]);
      stream := stream + Low(data[i], 8);
      value := PushByte(value, data[i]);
      bits := bits + 8;
      while bits >= 5
        invariant bits <= 12 && Whole(done, 5)
        invariant stream == done + pending && pending == Low(value, bits)
        invariant output == EncodeBits(a, done)
      {
        done, pending := EmitSymbol(a, stream, done, pending, value, bits);
        output := output + [a[ShiftRight(value, bits - 5) % 32]];
        bits := bits - 5;
      }
    }
    TakeAll(data);
    if bits > 0 {
      EmitRest(a, stream, done, pending, value, bits);
      output := output + [a[ShiftLeft(value, 5 - bits) % 32]];
    } else {
      assert done + [] == done;
    }
  }

  lemma NextSymbolBits(a: string, text: string, i: nat)
    requires i < |text| && IsAlphabet(a) && AllIn(a, text[..i]) && text[i] in a
    ensures AllIn(a, text[..i + 1])
    ensures SymbolsToBits(a, text[..i + 1]) == SymbolsToBits(a, text[..i]) + Low(IndexOf(a, text[i]), 5)
  {
    TakeNext(text, i);
  }

  /** Shifting the next symbol in. */
  lemma AbsorbSymbol(stream: seq<bool>, done: seq<bool>, pending: seq<bool>, value: Word, n: nat, index: int)
    returns (pending': seq<bool>)
    requires stream == done + pending && pending == Low(value, n) && n <= 7 && 0 <= index < 32
    ensures stream + Low(index, 5) == done + pending'
    ensures pending' == Low(PushSymbol(value, index), n + 5)
  {
    AfterPushSymbol(value, index, n);
    pending' := pending + Low(index, 5);
    Regroup(done, pending, Low(index, 5));
  }

  /** Pushing the eight oldest pending bits out as a byte. */
  lemma EmitByte(stream: seq<bool>, done: seq<bool>, pending: seq<bool>, value: nat, n: nat)
    returns (done': seq<bool>, pending': seq<bool>)
    requires stream == done + pending && pending == Low(value, n) && Whole(done, 8) && n >= 8
    ensures Whole(done', 8) && stream == done' + pending' && pending' == Low(value, n - 8)
    ensures DecodeBits(done') == DecodeBits(done) + [ShiftRight(value, n - 8) % 256]
  {
    var group := pending[..8];
    done', pending' := done + group, pending[8..];
    TakeHigh(value, n, 8);
    MaskedValue(ShiftRight(value, n - 8));
    Halves(pending, 8);
    Regroup(done, group, pending');
    DecodeConcat(done, group);
    OneOctet(group);
    WholeExtends(done, group, 8);
  }

  lemma DropRest(done: seq<bool>, rest: seq<bool>)
    requires Whole(done, 8) && |rest| < 8
    ensures DecodeBits(done + rest) == DecodeBits(done)
  {
    DecodeConcat(done, rest);
    assert Octets(rest) == [];
    assert DecodeBits(rest) == [];
  }

  /** A text is read up to `i` as the given stream. */
  predicate ReadSoFar(a: string, text: string, i: nat, stream: seq<bool>)
    requires IsAlphabet(a) && i <= |text|
  {
    AllIn(a, text[..i]) && SymbolsToBits(a, text[..i]) == stream
  }

  lemma ReadNext(a: string, text: string, i: nat, stream: seq<bool>)
    requires i < |text| && IsAlphabet(a) && ReadSoFar(a, text, i, stream) && text[i] in a
    ensures ReadSoFar(a, text, i + 1, stream + Low(IndexOf(a, text[i]), 5))
  {
    NextSymbolBits(a, text, i);
  }

  /** Reading the next symbol and shifting it in. */
  lemma AbsorbNext(a: string, text: string, i: nat, stream: seq<bool>, done: seq<bool>, pending: seq<bool>, value: Word,
                   n: nat) returns (stream': seq<bool>, pending': seq<bool>)
    requires i < |text| && IsAlphabet(a) && ReadSoFar(a, text, i, stream) && text[i] in a
    requires stream == done + pending && pending == Low(value, n) && n <= 7
    ensures ReadSoFar(a, text, i + 1, stream') && stream' == done + pending'
    ensures pending' == Low(PushSymbol(value, IndexOf(a, text[i])), n + 5)
  {
    ReadNext(a, text, i, stream);
    pending' := AbsorbSymbol(stream, done, pending, value, n, IndexOf(a, text[i]));
    stream' := stream + Low(IndexOf(a, text[i]), 5);
  }

  lemma Accepted(a: string, text: string, stream: seq<bool>, done: seq<bool>, pending: seq<bool>)
    requires IsAlphabet(a) && ReadSoFar(a, text, |text|, stream)
    requires stream == done + pending && Whole(done, 8) && |pending| < 8
    ensures DecodeSpec(a, text) == Decoded(DecodeBits(done))
  {
    TakeAll(text);
    DropRest(done, pending);
  }

  lemma Rejected(a: string, text: string, i: nat)
    requires IsAlphabet(a) && i < |text| && text[i] !in a
    ensures DecodeSpec(a, text) == InvalidCharacter
  {
  }

  method Base32Decode(a: string, fold: char -> string, encoded: string) returns (r: Result)
    requires IsAlphabet(a)
    ensures r == DecodeSpec(a, Clean(fold, encoded))
  {
    var clean := Clean(fold, encoded);
    var bits: nat, value: Word := 0, 0;
    var bytes: seq<Byte> := [];
    ghost var done: seq<bool>, pending: seq<bool>, stream: seq<bool> := [], [], [];
    for i := 0 to |clean|
      invariant bits < 8 && Whole(done, 8)
      invariant ReadSoFar(a, clean, i, stream)
      invariant stream == done + pending && pending == Low(value, bits)
      invariant bytes == DecodeBits(done)
    {
      var index := IndexOf(a, clean[i]);
      if index == -1 {
        Rejected(a, clean, i);
        return InvalidCharacter;
      }
      stream, pending := AbsorbNext(a, clean, i, stream, done, pending, value, bits);
      value := PushSymbol(value, index);
      bits := bits + 5;
      if bits >= 8 {
        done, pending := EmitByte(stream, done, pending, value, bits);
        bytes := bytes + [ShiftRight(value, bits - 8) % 256];
        bits := bits - 8;
      }
    }
    Accepted(a, clean, stream, done, pending);
    r := Decoded(bytes);
  }
}
