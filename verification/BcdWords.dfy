/** Four BCD digits at a time: the word arithmetic of decFloatAdd on a little-endian machine
    (decBasic.c:1472-1502). A word holds the most significant of its four digits in its lowest byte. */
module BcdWords {
  import opened Arith

  /** The word at four cells. */
  function Word(b0: nat, b1: nat, b2: nat, b3: nat): nat {
    b0 + 0x100 * (b1 + 0x100 * (b2 + 0x100 * b3))
  }

  function Byte0(w: nat): nat { w % 0x100 }

  function Byte1(w: nat): nat { w / 0x100 % 0x100 }

  function Byte2(w: nat): nat { w / 0x100 / 0x100 % 0x100 }

  function Byte3(w: nat): nat { w / 0x100 / 0x100 / 0x100 }

  lemma BytesOfWord(b0: nat, b1: nat, b2: nat, b3: nat)
    requires b0 < 0x100 && b1 < 0x100 && b2 < 0x100
    ensures var w := Word(b0, b1, b2, b3);
            Byte0(w) == b0 && Byte1(w) == b1 && Byte2(w) == b2 && Byte3(w) == b3
  {
    var r2 := b2 + 0x100 * b3;
    var r1 := b1 + 0x100 * r2;
    DivModUnique(b0 + 0x100 * r1, 0x100, r1, b0);
    DivModUnique(r1, 0x100, r2, b1);
    DivModUnique(r2, 0x100, b3, b2);
  }

  /** The top bit of a byte. */
  function TopBit(b: nat): nat {
    if b >= 0x80 then 1 else 0
  }

  /** (b & 0x60) >> 4 for a byte. */
  function Six(b: nat): nat {
    b / 0x20 % 4 * 2
  }

  /** (w & 0x60606060) >> 4 */
  function Sixes(w: nat): nat {
    Word(Six(Byte0(w)), Six(Byte1(w)), Six(Byte2(w)), Six(Byte3(w)))
  }

  /** A sum of two digits and a carry, biased by 0x76. */
  predicate Biased(x: nat) {
    0x76 <= x <= 0x89
  }

  /** A biased byte: its top bit is the decimal carry, and taking off the bias leaves the digit. */
  lemma Unbiased(x: nat)
    requires Biased(x)
    ensures 0 <= x - Six(x) < 0x100 && (x - Six(x)) % 0x10 == x - 0x76 - 10 * TopBit(x)
    ensures TopBit(x - Six(x)) == TopBit(x)
  {
  }

  /** Four digits as a number. */
  function Fours(d: (nat, nat, nat, nat)): nat {
    1000 * d.0 + 100 * d.1 + 10 * d.2 + d.3
  }

  predicate FourDigits(d: (nat, nat, nat, nat)) {
    d.0 <= 9 && d.1 <= 9 && d.2 <= 9 && d.3 <= 9
  }

  /** Adds two words of four digits; carry is 0 or 0x01000000, the pattern of one in the last digit,
      on entry and on return. */
  method AddWord(s: (nat, nat, nat, nat), t: (nat, nat, nat, nat), carry0: nat)
    returns (d: (nat, nat, nat, nat), carry: nat)
    requires FourDigits(s) && FourDigits(t) && (carry0 == 0 || carry0 == 0x100_0000)
    ensures FourDigits(d) && (carry == 0 || carry == 0x100_0000)
    ensures Fours(d) + (if carry == 0 then 0 else 10_000) == Fours(s) + Fours(t) + (if carry0 == 0 then 0 else 1)
  {
    hide Word, Byte0, Byte1, Byte2, Byte3, Six, Sixes;
    carry := carry0 + Word(s.0, s.1, s.2, s.3);
    if carry == 0 {
      ZeroWord(s);
      return t, 0;
    }
    carry := carry + Word(t.0, t.1, t.2, t.3) + 0x7676_7676;
    ghost var c3 := if carry0 == 0 then 0 else 1;
    ghost var (x0, x1, x2, x3) := (0x76 + s.0 + t.0, 0x76 + s.1 + t.1, 0x76 + s.2 + t.2, 0x76 + s.3 + t.3 + c3);
    SumWord(s, t, c3);
    BytesOfWord(x0, x1, x2, x3);
    carry := carry + TopBit(Byte3(carry)) * 0x1_0000;
    ghost var y2 := x2 + TopBit(x3);
    CarryIntoByte2(x0, x1, x2, x3, TopBit(x3));
    BytesOfWord(x0, x1, y2, x3);
    carry := carry + TopBit(Byte2(carry)) * 0x100;
    ghost var y1 := x1 + TopBit(y2);
    CarryIntoByte1(x0, x1, y2, x3, TopBit(y2));
    BytesOfWord(x0, y1, y2, x3);
    carry := carry + TopBit(Byte1(carry));
    ghost var y0 := x0 + TopBit(y1);
    CarryIntoByte0(x0, y1, y2, x3, TopBit(y1));
    d, carry := Adjust(carry, y0, y1, y2, x3);
  }

  lemma ZeroWord(s: (nat, nat, nat, nat))
    requires Word(s.0, s.1, s.2, s.3) == 0
    ensures Fours(s) == 0
  {
  }

  lemma SumWord(s: (nat, nat, nat, nat), t: (nat, nat, nat, nat), c: nat)
    ensures 0x100_0000 * c + Word(s.0, s.1, s.2, s.3) + Word(t.0, t.1, t.2, t.3) + 0x7676_7676
         == Word(0x76 + s.0 + t.0, 0x76 + s.1 + t.1, 0x76 + s.2 + t.2, 0x76 + s.3 + t.3 + c)
  {
  }

  lemma CarryIntoByte2(b0: nat, b1: nat, b2: nat, b3: nat, c: nat)
    ensures Word(b0, b1, b2, b3) + c * 0x1_0000 == Word(b0, b1, b2 + c, b3)
  {
  }

  lemma CarryIntoByte1(b0: nat, b1: nat, b2: nat, b3: nat, c: nat)
    ensures Word(b0, b1, b2, b3) + c * 0x100 == Word(b0, b1 + c, b2, b3)
  {
  }

  lemma CarryIntoByte0(b0: nat, b1: nat, b2: nat, b3: nat, c: nat)
    ensures Word(b0, b1, b2, b3) + c == Word(b0 + c, b1, b2, b3)
  {
  }

  lemma LessSixes(b0: nat, b1: nat, b2: nat, b3: nat)
    requires Biased(b0) && Biased(b1) && Biased(b2) && Biased(b3)
    ensures var w := Word(b0, b1, b2, b3);
            w - Sixes(w) == Word(b0 - Six(b0), b1 - Six(b1), b2 - Six(b2), b3 - Six(b3))
  {
    Unbiased(b0);
    Unbiased(b1);
    Unbiased(b2);
    Unbiased(b3);
    BytesOfWord(b0, b1, b2, b3);
    hide Six, Byte0, Byte1, Byte2, Byte3;
  }

  /** Takes the bias off, clears the debris, and moves the carry to the next word. */
  method Adjust(w: nat, ghost b0: nat, ghost b1: nat, ghost b2: nat, ghost b3: nat)
    returns (d: (nat, nat, nat, nat), carry: nat)
    requires Biased(b0) && Biased(b1) && Biased(b2) && Biased(b3) && w == Word(b0, b1, b2, b3)
    ensures d.3 == b3 - 0x76 - 10 * TopBit(b3) && d.2 == b2 - 0x76 - 10 * TopBit(b2)
    ensures d.1 == b1 - 0x76 - 10 * TopBit(b1) && d.0 == b0 - 0x76 - 10 * TopBit(b0)
    ensures carry == TopBit(b0) * 0x100_0000
  {
    hide Word, Byte0, Byte1, Byte2, Byte3, Six, Sixes, TopBit;
    Unbiased(b0);
    Unbiased(b1);
    Unbiased(b2);
    Unbiased(b3);
    LessSixes(b0, b1, b2, b3);
    BytesOfWord(b0 - Six(b0), b1 - Six(b1), b2 - Six(b2), b3 - Six(b3));
    var v := w - Sixes(w);
    d := (Byte0(v) % 0x10, Byte1(v) % 0x10, Byte2(v) % 0x10, Byte3(v) % 0x10);
    carry := TopBit(Byte0(v)) * 0x100_0000;
  }
}
