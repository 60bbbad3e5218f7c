/** Ten-bit fields in 32-bit words: what or-ing a shifted declet into two neighbouring words does, and
    what reading it back gives. */
module BitFields {
  import opened Arith
  import opened Words
  import opened Gf2Poly

  /** The last k bits of a. */
  function LowBits(a: nat, k: nat): nat
    decreases k, a
  {
    if k == 0 then 0 else 2 * LowBits(a / 2, k - 1) + a % 2
  }

  lemma {:induction false} SplitBits(a: nat, k: nat)
    ensures a == Shl(Shr(a, k), k) + LowBits(a, k) && LowBits(a, k) < Pow2(k)
  {
    if k > 0 {
      SplitBits(a / 2, k - 1);
    }
  }

  lemma {:induction false} UniqueBits(a: nat, k: nat, h: nat, l: nat)
    requires a == Shl(h, k) + l && l < Pow2(k)
    ensures Shr(a, k) == h && LowBits(a, k) == l
  {
    if k > 0 {
      Halves(Shl(h, k - 1), l);
      UniqueBits(a / 2, k - 1, h, l / 2);
    }
  }

  lemma Halves(x: nat, l: nat)
    ensures (2 * x + l) / 2 == x + l / 2 && (2 * x + l) % 2 == l % 2
  {
  }

  lemma {:induction false} ShlSum(a: nat, b: nat, k: nat)
    ensures Shl(a + b, k) == Shl(a, k) + Shl(b, k)
  {
    if k > 0 {
      ShlSum(a, b, k - 1);
    }
  }

  lemma {:induction false} ShlAdd(a: nat, j: nat, k: nat)
    ensures Shl(a, j + k) == Shl(Shl(a, j), k)
  {
    if k > 0 {
      ShlAdd(a, j, k - 1);
    }
  }

  lemma {:induction false} ShlMono(a: nat, b: nat, k: nat)
    ensures a < b <==> Shl(a, k) < Shl(b, k)
  {
    if k > 0 {
      ShlMono(a, b, k - 1);
    }
  }

  lemma {:induction false} ShlOne(k: nat)
    ensures Shl(1, k) == Pow2(k)
  {
    if k > 0 {
      ShlOne(k - 1);
    }
  }

  /** Or-ing bits in above those that are there is adding. */
  lemma {:induction false} OrDisjoint(a: nat, b: nat, k: nat)
    requires a < Pow2(k)
    ensures Or(a, Shl(b, k)) == a + Shl(b, k)
  {
    if k == 0 {
      OrComm(a, b);
      OrZero(b);
    } else {
      OrDisjoint(a / 2, b, k - 1);
      OrStep(a, Shl(b, k));
      Halves(Shl(b, k - 1), a);
    }
  }

  lemma OrStep(a: nat, b: nat)
    ensures Or(a, b) == 2 * Or(a / 2, b / 2) + (if a % 2 == 1 || b % 2 == 1 then 1 else 0)
  {
  }

  lemma {:induction false} OrComm(a: nat, b: nat)
    ensures Or(a, b) == Or(b, a)
    decreases a + b
  {
    if a != 0 || b != 0 {
      OrComm(a / 2, b / 2);
    }
  }

  lemma TenBits()
    ensures Pow2(10) == 1024 && Pow2(32) == 0x1_0000_0000
  {
    assert Pow2(8) == 256;
    assert Pow2(16) == 0x1_0000;
    Pow2Add(16, 16);
  }

  // ---- words and fields ----

  /** A number from its 32-bit words, least significant first. */
  function WordsVal(w: seq<nat>): nat {
    if |w| == 0 then 0 else w[0] + 0x1_0000_0000 * WordsVal(w[1..])
  }

  predicate Words32(w: seq<nat>) {
    forall k: nat :: k < |w| ==> w[k] < 0x1_0000_0000
  }

  /** Adding to word k. */
  lemma {:induction false} WordsAddAt(w: seq<nat>, k: nat, x: nat)
    requires k < |w|
    ensures WordsVal(w[k := w[k] + x]) == WordsVal(w) + Shl(x, 32 * k)
  {
    var t := w[k := w[k] + x];
    if k == 0 {
      assert t[1..] == w[1..];
    } else {
      assert t[1..] == w[1..][k - 1 := w[1..][k - 1] + x];
      WordsAddAt(w[1..], k - 1, x);
      Word32Shift(x, 32 * (k - 1));
    }
  }

  lemma Word32Shift(x: nat, n: nat)
    ensures Shl(x, n + 32) == 0x1_0000_0000 * Shl(x, n)
  {
    ByteShift(x, n);
    ByteShift(x, n + 8);
    ByteShift(x, n + 16);
    ByteShift(x, n + 24);
  }

  lemma ByteShift(x: nat, n: nat)
    ensures Shl(x, n + 8) == 0x100 * Shl(x, n)
  {
    NibbleShift(x, n);
    NibbleShift(x, n + 4);
  }

  lemma NibbleShift(x: nat, n: nat)
    ensures Shl(x, n + 4) == 0x10 * Shl(x, n)
  {
    assert Shl(x, n + 1) == 2 * Shl(x, n) && Shl(x, n + 2) == 2 * Shl(x, n + 1) && Shl(x, n + 3) == 2 * Shl(x, n + 2);
  }

  /** A field shifted inside a word: what stays in it, and what belongs to the next one. */
  lemma FieldSplit(d: nat, off: nat)
    requires d < 1024 && off < 32
    ensures Shl(d, off) == Low32(Shl(d, off)) + 0x1_0000_0000 * Shr(d, 32 - off)
    ensures off + 10 <= 32 ==> Shr(d, 32 - off) == 0
  {
    hide Shl, Shr, LowBits;
    var n := 32 - off;
    SplitBits(d, n);
    ShlSum(Shl(Shr(d, n), n), LowBits(d, n), off);
    ShlAdd(Shr(d, n), n, off);
    Word32Shift(Shr(d, n), 0);
    ShlMono(LowBits(d, n), Pow2(n), off);
    ShlOne(n);
    ShlOne(32);
    ShlAdd(1, n, off);
    TenBits();
    ZeroShift(Shr(d, n));
    LowOf(Shl(LowBits(d, n), off), Shr(d, n));
    if off + 10 <= 32 {
      SmallField(d, n);
    }
  }

  lemma ZeroShift(a: nat)
    ensures Shl(a, 0) == a
  {
  }

  lemma LowOf(l: nat, h: nat)
    requires l < 0x1_0000_0000
    ensures Low32(l + 0x1_0000_0000 * h) == l
  {
    DivModUnique(l + 0x1_0000_0000 * h, 0x1_0000_0000, h, l);
  }

  lemma SmallField(d: nat, n: nat)
    requires d < 1024 && n >= 10
    ensures Shr(d, n) == 0
  {
    TenBits();
    Pow2Monotone(10, n);
    hide Shl, Shr, Pow2;
    ShlZero(n);
    UniqueBits(d, n, 0, d);
  }

  /** Puts a field at bit position 32 * wi + off, where nothing is yet at or above that position. */
  method PutField(w: array<nat>, wi: nat, off: nat, d: nat) returns (wi': nat, off': nat)
    requires wi < w.Length && off < 32 && d < 1024 && Words32(w[..])
    requires w[wi] < Pow2(off) && forall k: nat :: wi < k < w.Length ==> w[k] == 0
    requires off + 10 >= 32 ==> wi + 1 < w.Length
    modifies w
    ensures Words32(w[..]) && WordsVal(w[..]) == old(WordsVal(w[..])) + Shl(d, 32 * wi + off)
    ensures 32 * wi' + off' == 32 * wi + off + 10 && off' < 32 && wi <= wi' <= wi + 1 && wi' < w.Length
    ensures w[wi'] < Pow2(off') && forall k: nat :: wi' < k < w.Length ==> w[k] == 0
  {
    hide Shl, Shr, WordsVal, Pow2, Or;
    ghost var s := w[..];
    FieldSplit(d, off);
    ghost var low := Low32(Shl(d, off));
    FieldLow(w[wi], d, off);
    w[wi] := Or(w[wi], Low32(Shl(d, off)));
    assert w[..] == s[wi := s[wi] + low];
    WordsAddAt(s, wi, low);
    ghost var s1 := w[..];
    off', wi' := off + 10, wi;
    if off' < 32 {
      FieldTop(s[wi], d, off);
      FieldInside(low, Shl(d, off), d, wi, off);
      return;
    }
    wi', off' := wi + 1, off' - 32;
    HighPart(d, off);
    w[wi'] := Or(w[wi'], Shr(d, 10 - off'));
    ZeroOr(Shr(d, 10 - off'));
    assert w[..] == s1[wi' := s1[wi'] + Shr(d, 32 - off)];
    WordsAddAt(s1, wi', Shr(d, 32 - off));
    FieldAcross(low, Shr(d, 32 - off), d, wi, off);
  }

  lemma ZeroOr(b: nat)
    ensures Or(0, b) == b
  {
    OrComm(0, b);
    OrZero(b);
  }

  /** Or-ing the low part in is adding it, and stays inside the word. */
  lemma FieldLow(v: nat, d: nat, off: nat)
    requires v < Pow2(off) && d < 1024 && off < 32
    ensures var l := Low32(Shl(d, off)); Or(v, l) == v + l < 0x1_0000_0000
  {
    hide Shl, Shr, Pow2, Or, LowBits;
    var n := 32 - off;
    SplitBits(d, n);
    FieldSplit(d, off);
    ShlSum(Shl(Shr(d, n), n), LowBits(d, n), off);
    ShlAdd(Shr(d, n), n, off);
    Word32Shift(Shr(d, n), 0);
    ZeroShift(Shr(d, n));
    assert Low32(Shl(d, off)) == Shl(LowBits(d, n), off);
    OrDisjoint(v, LowBits(d, n), off);
    ShlMono(LowBits(d, n), Pow2(n) - 1, off);
    ShlMono(Pow2(n) - 1, LowBits(d, n), off);
    ShlSum(Pow2(n) - 1, 1, off);
    ShlOne(off);
    ShlOne(n);
    ShlAdd(1, n, off);
    ShlOne(32);
    TenBits();
  }

  /** A field that fits leaves room above it. */
  lemma FieldTop(v: nat, d: nat, off: nat)
    requires v < Pow2(off) && d < 1024 && off + 10 < 32
    ensures v + Shl(d, off) < Pow2(off + 10) && Low32(Shl(d, off)) == Shl(d, off)
  {
    hide Shl, Shr, Pow2;
    FieldSplit(d, off);
    TenBits();
    ShlMono(d, 1023, off);
    ShlMono(1023, d, off);
    ShlSum(1023, 1, off);
    ShlOne(off);
    ShlOne(10);
    ShlOne(10 + off);
    ShlAdd(1, 10, off);
  }

  lemma FieldInside(low: nat, x: nat, d: nat, wi: nat, off: nat)
    requires low == x == Shl(d, off)
    ensures Shl(low, 32 * wi) == Shl(d, 32 * wi + off)
  {
    hide Shl;
    ShlAdd(d, off, 32 * wi);
  }

  /** The part for the next word. */
  lemma HighPart(d: nat, off: nat)
    requires d < 1024 && off < 32 && off + 10 >= 32
    ensures 10 - (off + 10 - 32) == 32 - off && Shr(d, 32 - off) < Pow2(off + 10 - 32)
    ensures Pow2(off + 10 - 32) <= 0x1_0000_0000
  {
    hide Shl, Shr, Pow2;
    var (n, m) := (32 - off, off + 10 - 32);
    TenBits();
    Pow2Monotone(m, 32);
    SplitBits(d, n);
    ShlOne(m);
    ShlOne(10);
    ShlAdd(1, m, n);
    ShlMono(Shr(d, n), Pow2(m), n);
  }

  lemma FieldAcross(low: nat, high: nat, d: nat, wi: nat, off: nat)
    requires Shl(d, off) == low + 0x1_0000_0000 * high
    ensures Shl(low, 32 * wi) + Shl(high, 32 * (wi + 1)) == Shl(d, 32 * wi + off)
  {
    hide Shl;
    ShlAdd(d, off, 32 * wi);
    ShlSum(low, 0x1_0000_0000 * high, 32 * wi);
    Word32Shift(high, 0);
    ZeroShift(high);
    ShlAdd(high, 32, 32 * wi);
  }

  // ---- reading fields ----

  /** The field at bit position p. */
  function FieldAt(v: nat, p: nat): nat {
    Shr(v, p) % 1024
  }

  lemma {:induction false} ShrAdd(a: nat, j: nat, k: nat)
    ensures Shr(a, j + k) == Shr(Shr(a, j), k)
  {
    if j > 0 {
      ShrAdd(a / 2, j - 1, k);
    }
  }

  /** Whole words shifted out. */
  lemma {:induction false} ShrWords(w: seq<nat>, i: nat)
    requires i <= |w| && Words32(w)
    ensures Shr(WordsVal(w), 32 * i) == WordsVal(w[i..])
  {
    if i == 0 {
      assert w[0..] == w;
    } else {
      ShrWords(w[1..], i - 1);
      assert w[1..][i - 1..] == w[i..];
      ShrAdd(WordsVal(w), 32, 32 * (i - 1));
      WordOut(w[0], WordsVal(w[1..]));
    }
  }

  lemma WordOut(a: nat, r: nat)
    requires a < 0x1_0000_0000
    ensures Shr(a + 0x1_0000_0000 * r, 32) == r
  {
    hide Shl, Shr, Pow2;
    TenBits();
    Word32Shift(r, 0);
    ZeroShift(r);
    UniqueBits(a + 0x1_0000_0000 * r, 32, r, a);
  }

  /** Shifting across a word boundary. */
  lemma ShrAcross(a: nat, r: nat, off: nat)
    requires off < 32
    ensures Shr(a + 0x1_0000_0000 * r, off) == Shr(a, off) + Shl(r, 32 - off)
  {
    hide Shl, Shr, Pow2, LowBits;
    SplitBits(a, off);
    ShlSum(Shr(a, off), Shl(r, 32 - off), off);
    ShlAdd(r, 32 - off, off);
    Word32Shift(r, 0);
    ZeroShift(r);
    UniqueBits(a + 0x1_0000_0000 * r, off, Shr(a, off) + Shl(r, 32 - off), LowBits(a, off));
  }

  /** Ten zero bits at the end. */
  lemma TenZeroBits(r: nat, n: nat)
    requires n >= 10
    ensures Shl(r, n) % 1024 == 0
  {
    hide Shl;
    ShlAdd(r, n - 10, 10);
    ByteShift(Shl(r, n - 10), 2);
    assert Shl(Shl(r, n - 10), 2) == 4 * Shl(r, n - 10) by { TwoBits(Shl(r, n - 10)); }
  }

  lemma TwoBits(a: nat)
    ensures Shl(a, 2) == 4 * a
  {
    assert Shl(a, 1) == 2 * Shl(a, 0);
  }

  lemma SumMod(h: nat, x: nat)
    requires x % 1024 == 0
    ensures (h + x) % 1024 == h % 1024
  {
  }

  /** Reads the field at bit position 32 * wi + off. */
  method GetField(w: array<nat>, wi: nat, off: nat) returns (d: nat, wi': nat, off': nat)
    requires wi < w.Length && off < 32 && Words32(w[..]) && (off + 10 > 32 ==> wi + 1 < w.Length)
    ensures d == FieldAt(WordsVal(w[..]), 32 * wi + off)
    ensures 32 * wi' + off' == 32 * wi + off + 10 && off' <= 32 && wi <= wi' <= wi + 1 && (off' == 32 ==> wi' == wi)
  {
    hide Shl, Shr, WordsVal, Pow2, Or, FieldAt;
    d := Shr(w[wi], off);
    wi', off' := wi, off + 10;
    if off' > 32 {
      wi', off' := wi + 1, off' - 32;
      FieldAcrossWords(w[..], wi, off);
      d := Or(d, Low32(Shl(w[wi'], 10 - off')));
    } else {
      FieldInWord(w[..], wi, off);
    }
    d := d % 1024;
  }

  /** A field inside a word. */
  lemma FieldInWord(s: seq<nat>, wi: nat, off: nat)
    requires wi < |s| && off + 10 <= 32 && Words32(s)
    ensures Shr(s[wi], off) % 1024 == FieldAt(WordsVal(s), 32 * wi + off)
  {
    hide Shl, Shr, WordsVal, Pow2;
    var r := WordsVal(s[wi + 1..]);
    ShrAdd(WordsVal(s), 32 * wi, off);
    ShrWords(s, wi);
    HeadWord(s, wi);
    ShrAcross(s[wi], r, off);
    TenZeroBits(r, 32 - off);
    SumMod(Shr(s[wi], off), Shl(r, 32 - off));
  }

  /** A field at the end of one word and the start of the next. */
  lemma FieldAcrossWords(s: seq<nat>, wi: nat, off: nat)
    requires wi + 1 < |s| && off < 32 && off + 10 > 32 && Words32(s)
    ensures 10 - (off + 10 - 32) == 32 - off
    ensures Or(Shr(s[wi], off), Low32(Shl(s[wi + 1], 32 - off))) % 1024 == FieldAt(WordsVal(s), 32 * wi + off)
  {
    hide Shl, Shr, WordsVal, Pow2, Or;
    ShrAdd(WordsVal(s), 32 * wi, off);
    ShrWords(s, wi);
    HeadWord(s, wi);
    ShrAcross(s[wi], WordsVal(s[wi + 1..]), off);
    HeadWord(s, wi + 1);
    FieldFromTwo(s[wi], s[wi + 1], WordsVal(s[wi + 2..]), off);
  }

  lemma HeadWord(s: seq<nat>, i: nat)
    requires i < |s|
    ensures WordsVal(s[i..]) == s[i] + 0x1_0000_0000 * WordsVal(s[i + 1..])
  {
    assert s[i..][1..] == s[i + 1..];
  }

  /** A field that straddles two words. */
  lemma FieldFromTwo(a: nat, b: nat, r: nat, off: nat)
    requires a < 0x1_0000_0000 && b < 0x1_0000_0000 && off < 32 && off + 10 > 32
    ensures 10 - (off + 10 - 32) == 32 - off
    ensures Or(Shr(a, off), Low32(Shl(b, 32 - off))) % 1024 == (Shr(a, off) + Shl(b + 0x1_0000_0000 * r, 32 - off)) % 1024
  {
    hide Shl, Shr, Pow2, Or, LowBits;
    var (n, m) := (32 - off, off);
    var (h, low) := (Shr(a, off), LowBits(b, m));
    TenBits();
    TopOfWord(a, off);
    SplitBits(b, m);
    ShlSum(Shl(Shr(b, m), m), low, n);
    ShlAdd(Shr(b, m), m, n);
    Word32Shift(Shr(b, m), 0);
    ZeroShift(Shr(b, m));
    ShlMono(low, Pow2(m), n);
    ShlOne(m);
    ShlOne(32);
    ShlAdd(1, m, n);
    LowOf(Shl(low, n), Shr(b, m));
    OrDisjoint(h, low, n);
    ShlSum(b, 0x1_0000_0000 * r, n);
    Word32Shift(r, 0);
    ZeroShift(r);
    ShlAdd(r, 32, n);
    TenZeroBits(r, 32 + n);
    BigMod(h + Shl(low, n), Shr(b, m), Shl(0x1_0000_0000 * r, n));
  }

  lemma TopOfWord(a: nat, off: nat)
    requires a < 0x1_0000_0000 && off < 32
    ensures Shr(a, off) < Pow2(32 - off)
  {
    hide Shl, Shr, Pow2, LowBits;
    TenBits();
    SplitBits(a, off);
    ShlOne(32 - off);
    ShlOne(32);
    ShlAdd(1, 32 - off, off);
    ShlMono(Shr(a, off), Pow2(32 - off), off);
  }

  lemma BigMod(x: nat, q: nat, y: nat)
    requires y % 1024 == 0
    ensures x % 1024 == (x + 0x1_0000_0000 * q + y) % 1024
  {
    SumMod(x, 0x1_0000_0000 * q);
    SumMod(x + 0x1_0000_0000 * q, y);
  }

  // ---- sequences of fields ----

  /** Ten-bit fields, the first one lowest. */
  function Packed(d: seq<nat>): nat {
    if |d| == 0 then 0 else d[0] + 1024 * Packed(d[1..])
  }

  lemma {:induction false} PackedAppend(d: seq<nat>, x: nat)
    ensures Packed(d + [x]) == Packed(d) + Shl(x, 10 * |d|)
  {
    if |d| == 0 {
      assert Packed([x]) == x + 1024 * Packed([]);
      assert d + [x] == [x];
    } else {
      assert (d + [x])[1..] == d[1..] + [x];
      PackedAppend(d[1..], x);
      FieldShift(x, 10 * (|d| - 1));
    }
  }

  lemma FieldShift(x: nat, n: nat)
    ensures Shl(x, n + 10) == 1024 * Shl(x, n)
  {
    ByteShift(x, n + 2);
    assert Shl(x, n + 2) == 2 * Shl(x, n + 1) == 4 * Shl(x, n);
  }

  /** Field k of packed fields. */
  lemma {:induction false} FieldOfPacked(d: seq<nat>, k: nat)
    requires k < |d| && forall i: nat :: i < |d| ==> d[i] < 1024
    ensures FieldAt(Packed(d), 10 * k) == d[k]
  {
    var r := Packed(d[1..]);
    if k == 0 {
      assert (d[0] + 1024 * r) % 1024 == d[0];
    } else {
      FieldOfPacked(d[1..], k - 1);
      ShrAdd(d[0] + 1024 * r, 10, 10 * (k - 1));
      FieldOut(d[0], r);
    }
  }

  lemma FieldOut(a: nat, r: nat)
    requires a < 1024
    ensures Shr(a + 1024 * r, 10) == r
  {
    hide Shl, Shr, Pow2;
    TenBits();
    FieldShift(r, 0);
    ZeroShift(r);
    UniqueBits(a + 1024 * r, 10, r, a);
  }
}
