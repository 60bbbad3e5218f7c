/** The addition inside decFloatFMA (decBasic.c:2068-2262), digit by digit from the right, built at the
    end of the very accumulator that holds the product: cells are overwritten only after they have
    been read. */
module FmaDigits {
  import opened Arith
  import opened Bcd
  import opened Finalize
  import opened BcdCells
  import opened AddDigits

  /** What has been added: the digits r so far and the carry, against the consumed parts hv of the high
      and lv of the low operand; pad is how far the high one stands to the left, carry0 what went in at
      its last digit. */
  predicate AddState(r: seq<nat>, carry: nat, hv: nat, lv: nat, pad: nat, carry0: nat) {
    && Digits(r) && carry <= 1 && carry0 <= 1 && pad <= |r|
    && Val(r) + Shift(carry, |r|) == Shift(hv, pad) + lv + Shift(carry0, pad)
  }

  /** One more digit on the left. */
  lemma AddStateStep(r: seq<nat>, carry: nat, hv: nat, lv: nat, pad: nat, carry0: nat, a: nat, b: nat, d: nat, carry': nat)
    requires AddState(r, carry, hv, lv, pad, carry0)
    requires a <= 9 && b <= 9 && d <= 9 && carry' <= 1 && d + 10 * carry' == carry + a + b
    ensures AddState([d] + r, carry', Shift(a, |r| - pad) + hv, Shift(b, |r|) + lv, pad, carry0)
  {
    hide Val, Shift;
    var n := |r|;
    ValConcat([d], r);
    ValSingle(d);
    ShiftOne(carry', n + 1);
    TenUp(carry', n);
    ShiftSum(d, 10 * carry', n);
    ShiftSum(carry + a, b, n);
    ShiftSum(carry, a, n);
    ShiftAdd(a, n - pad, pad);
    ShiftSum(Shift(a, n - pad), hv, pad);
  }

  lemma TenUp(c: nat, n: nat)
    ensures Shift(10 * c, n) == 10 * Shift(c, n)
  {
    hide Shift;
    ShiftAdd(c, 1, n);
    ShiftOne(c, 1);
    ShiftOne(c, n + 1);
    ShiftZero(c);
  }

  lemma ValCons(d: nat, s: seq<nat>)
    ensures Val([d] + s) == Shift(d, |s|) + Val(s)
  {
    hide Val, Shift;
    ValConcat([d], s);
    ValSingle(d);
  }

  /** Consuming one more digit from the right end of what is left of s. */
  lemma Consume(s: seq<nat>, i: nat)
    requires 1 <= i <= |s|
    ensures Val(s[i - 1..]) == Shift(s[i - 1], |s| - i) + Val(s[i..])
  {
    assert s[i - 1..] == [s[i - 1]] + s[i..];
    ValCons(s[i - 1], s[i..]);
  }

  /** Puts one digit of the sum in place. */
  method PutDigit(acc: array<nat>, ub: nat, sum: nat) returns (carry: nat)
    requires ub < acc.Length && sum <= 19
    modifies acc
    ensures carry <= 1 && acc[ub] + 10 * carry == sum && acc[ub] <= 9
    ensures acc[..] == old(acc[..])[ub := acc[ub]]
  {
    acc[ub] := sum;
    carry := 0;
    if acc[ub] >= 10 {
      acc[ub] := acc[ub] - 10;
      carry := 1;
    }
  }

  /** The digits of an operand not yet read, in cells msd..at, are still those of s. */
  ghost predicate Unread(buf: array<nat>, msd: nat, at: int, s: seq<nat>)
    reads buf
  {
    msd - 1 <= at < buf.Length && at + 1 - msd <= |s| && buf[msd..at + 1] == s[..at + 1 - msd]
  }

  lemma ZeroLeft(r: seq<nat>)
    ensures Val([0] + r) == Val(r)
  {
    hide Val, Shift;
    ValCons(0, r);
    ShiftZero(|r|);
  }

  lemma NextGroup(s: seq<nat>, j: nat, n: nat)
    requires n <= j <= |s|
    ensures s[j - n..] == s[..j][j - n..] + s[j..]
    ensures s[..j][..j - n] == s[..j - n]
  {
  }

  /** The digits of s from place ul on have been copied to the end of acc; a is what acc was. */
  ghost predicate Copied(acc: array<nat>, ub: int, lo: array<nat>, lmsd: nat, ul: int, s: seq<nat>, a: seq<nat>)
    reads acc, lo
  {
    && lmsd - 1 <= ul < lo.Length && ul + 1 - lmsd <= |s| && -1 <= ub < acc.Length && |a| == acc.Length
    && (lo == acc ==> ul <= ub)
    && acc[..ub + 1] == a[..ub + 1] && lo[lmsd..ul + 1] == s[..ul + 1 - lmsd] && acc[ub + 1..] == s[ul + 1 - lmsd..]
  }

  lemma SliceStart(s: seq<nat>, lo: nat, hi: nat, k: nat)
    requires lo <= hi <= |s| && lo + k <= hi
    ensures s[lo..hi][..k] == s[lo..lo + k]
  {
  }

  lemma SliceOfPrefix(s: seq<nat>, n: nat, lo: nat, hi: nat)
    requires lo <= hi <= n <= |s|
    ensures s[..n][lo..hi] == s[lo..hi]
  {
  }

  /** A zero put before digits. */
  lemma ZeroCell(s: seq<nat>, a: seq<nat>, ub: nat, t: seq<nat>)
    requires ub < |s| == |a| && s[..ub + 1] == a[..ub + 1] && Digits(s[ub + 1..]) && Val(s[ub + 1..]) == Val(t)
    ensures s[ub := 0][..ub] == a[..ub] && Digits(s[ub := 0][ub..]) && Val(s[ub := 0][ub..]) == Val(t)
  {
    hide Val, Digits;
    var r := s[ub + 1..];
    SliceOfPrefix(s, ub + 1, 0, ub);
    SliceOfPrefix(a, ub + 1, 0, ub);
    assert s[ub := 0][ub..] == [0] + r;
    ZeroLeft(r);
    DigitLeft(0, r);
  }

  /** What a move of the last n unread digits of s makes of the cells, as sequences: a0 and b0 are the
      accumulator and the source before, a1 and b1 after. */
  lemma GroupMoved(a0: seq<nat>, a1: seq<nat>, b0: seq<nat>, b1: seq<nat>, alias: bool, ub: nat, lmsd: nat, ul: nat,
                   s: seq<nat>, n: nat)
    requires ub < |a0| == |a1| && lmsd <= ul < |b0| == |b1| && 1 <= n <= ul + 1 - lmsd <= |s| && n <= ub + 1
    requires b0[lmsd..ul + 1] == s[..ul + 1 - lmsd] && a0[ub + 1..] == s[ul + 1 - lmsd..]
    requires a1 == a0[..ub + 1 - n] + b0[ul + 1 - n..ul + 1] + a0[ub + 1..]
    requires if alias then a0 == b0 && a1 == b1 && ul <= ub else b0 == b1
    ensures a1[..ub + 1 - n] == a0[..ub + 1 - n]
    ensures b1[lmsd..ul + 1 - n] == s[..ul + 1 - n - lmsd] && a1[ub + 1 - n..] == s[ul + 1 - n - lmsd..]
  {
    var j := ul + 1 - lmsd;
    NextGroup(s, j, n);
    assert b0[ul + 1 - n..ul + 1] == b0[lmsd..ul + 1][j - n..];
    assert a1[ub + 1 - n..] == b0[ul + 1 - n..ul + 1] + a0[ub + 1..];
    SliceStart(b0, lmsd, ul + 1, j - n);
    assert b1[lmsd..ul + 1 - n] == b0[lmsd..ul + 1 - n] by {
      if alias {
        SliceOfPrefix(a1, ub + 1 - n, lmsd, ul + 1 - n);
        SliceOfPrefix(a0, ub + 1 - n, lmsd, ul + 1 - n);
      }
    }
  }

  lemma CopiedAgain(acc: array<nat>, ub: int, lo: array<nat>, lmsd: nat, ul: int, s: seq<nat>, a: seq<nat>, a0: seq<nat>, ub0: int)
    requires lmsd - 1 <= ul < lo.Length && ul + 1 - lmsd <= |s| && -1 <= ub <= ub0 < acc.Length && |a| == acc.Length == |a0|
    requires lo == acc ==> ul <= ub
    requires a0[..ub0 + 1] == a[..ub0 + 1] && acc[..][..ub + 1] == a0[..ub + 1]
    requires lo[..][lmsd..ul + 1] == s[..ul + 1 - lmsd] && acc[..][ub + 1..] == s[ul + 1 - lmsd..]
    ensures Copied(acc, ub, lo, lmsd, ul, s, a)
  {
    assert acc[..ub + 1] == a0[..ub0 + 1][..ub + 1] == a[..ub + 1];
    assert lo[lmsd..ul + 1] == lo[..][lmsd..ul + 1];
    assert acc[ub + 1..] == acc[..][ub + 1..];
  }

  /** Moves four cells at once. */
  method MoveFour(acc: array<nat>, ub: nat, lo: array<nat>, lmsd: nat, ul: nat, ghost s: seq<nat>, ghost a: seq<nat>)
    requires Copied(acc, ub, lo, lmsd, ul, s, a) && 3 <= ub && lmsd + 3 <= ul
    modifies acc
    ensures Copied(acc, ub - 4, lo, lmsd, ul - 4, s, a)
  {
    ghost var a0, b0 := acc[..], lo[..];
    hide Copied;
    CopiedFacts(acc, ub, lo, lmsd, ul, s, a);
    StoreFour(acc, ub - 3, lo[ul - 3..ul + 1]);
    GroupMoved(a0, acc[..], b0, lo[..], lo == acc, ub, lmsd, ul, s, 4);
    CopiedAgain(acc, ub - 4, lo, lmsd, ul - 4, s, a, a0, ub);
  }

  method StoreFour(acc: array<nat>, at: nat, four: seq<nat>)
    requires |four| == 4 && at + 4 <= acc.Length
    modifies acc
    ensures acc[..] == old(acc[..at]) + four + old(acc[at + 4..])
  {
    acc[at], acc[at + 1], acc[at + 2], acc[at + 3] := four[0], four[1], four[2], four[3];
  }

  lemma CopiedFacts(acc: array<nat>, ub: int, lo: array<nat>, lmsd: nat, ul: int, s: seq<nat>, a: seq<nat>)
    requires Copied(acc, ub, lo, lmsd, ul, s, a)
    ensures lmsd - 1 <= ul < lo.Length && ul + 1 - lmsd <= |s| && -1 <= ub < acc.Length && |a| == acc.Length
    ensures lo == acc ==> ul <= ub
    ensures acc[..][..ub + 1] == a[..ub + 1]
    ensures lo[..][lmsd..ul + 1] == s[..ul + 1 - lmsd] && acc[..][ub + 1..] == s[ul + 1 - lmsd..]
  {
    assert acc[..][..ub + 1] == acc[..ub + 1];
    assert lo[..][lmsd..ul + 1] == lo[lmsd..ul + 1];
    assert acc[..][ub + 1..] == acc[ub + 1..];
  }

  /** The same with a single cell. */
  method MoveOne(acc: array<nat>, ub: nat, lo: array<nat>, lmsd: nat, ul: nat, ghost s: seq<nat>, ghost a: seq<nat>)
    requires Copied(acc, ub, lo, lmsd, ul, s, a) && lmsd <= ul
    modifies acc
    ensures Copied(acc, ub - 1, lo, lmsd, ul - 1, s, a)
  {
    ghost var a0, b0 := acc[..], lo[..];
    hide Copied;
    CopiedFacts(acc, ub, lo, lmsd, ul, s, a);
    acc[ub] := lo[ul];
    assert b0[ul + 1 - 1..ul + 1] == [b0[ul]];
    GroupMoved(a0, acc[..], b0, lo[..], lo == acc, ub, lmsd, ul, s, 1);
    CopiedAgain(acc, ub - 1, lo, lmsd, ul - 1, s, a, a0, ub);
  }

  /** Copies digits to the end of acc, four at a time. */
  method CopyFours(acc: array<nat>, lo: array<nat>, lmsd: nat, ul0: nat, padding0: nat, ghost s: seq<nat>, ghost a: seq<nat>)
    returns (padding: nat, ub: int, ul: int)
    requires padding0 < acc.Length && Copied(acc, acc.Length - 1, lo, lmsd, ul0, s, a)
    modifies acc
    ensures lmsd - 1 <= ul <= ul0 && padding0 - padding == ul0 - ul && ub == acc.Length - 1 - (ul0 - ul)
    ensures Copied(acc, ub, lo, lmsd, ul, s, a)
  {
    padding, ub, ul := padding0, acc.Length - 1, ul0;
    assert lmsd - 1 <= ul;
    hide Copied;
    while ul - 3 >= lmsd && padding > 3
      invariant lmsd - 1 <= ul <= ul0
      invariant padding0 - padding == ul0 - ul && ub == acc.Length - 1 - (ul0 - ul)
      invariant Copied(acc, ub, lo, lmsd, ul, s, a)
    {
      MoveFour(acc, ub, lo, lmsd, ul, s, a);
      padding, ul, ub := padding - 4, ul - 4, ub - 4;
    }
  }

  /** Copies the low operand's last digits to the end of acc, four at a time, then singly. */
  method CopyRight(acc: array<nat>, lo: array<nat>, lmsd: nat, llsd: nat, padding0: nat)
    returns (padding: nat, ub: int, ul: int)
    requires lmsd <= llsd < lo.Length && padding0 < acc.Length
    modifies acc
    ensures lmsd - 1 <= ul <= llsd && padding0 - padding == llsd - ul && ub == acc.Length - 1 - (llsd - ul)
    ensures padding == 0 || ul < lmsd
    ensures Copied(acc, ub, lo, lmsd, ul, old(lo[lmsd..llsd + 1]), old(acc[..]))
  {
    ghost var s, a := lo[lmsd..llsd + 1], acc[..];
    assert Copied(acc, acc.Length - 1, lo, lmsd, llsd, s, a);
    hide Copied;
    padding, ub, ul := CopyFours(acc, lo, lmsd, llsd, padding0, s, a);
    while ul >= lmsd && padding > 0
      invariant lmsd - 1 <= ul <= llsd
      invariant padding0 - padding == llsd - ul && ub == acc.Length - 1 - (llsd - ul)
      invariant Copied(acc, ub, lo, lmsd, ul, s, a)
    {
      MoveOne(acc, ub, lo, lmsd, ul, s, a);
      padding, ul, ub := padding - 1, ul - 1, ub - 1;
    }
  }

  /** To the right of the high operand: digits of the low one, or zeros. */
  method PadRight(acc: array<nat>, lo: array<nat>, lmsd: nat, llsd: nat, padding0: nat) returns (ub: int, ul: int)
    requires lmsd <= llsd < lo.Length && Digits(lo[lmsd..llsd + 1]) && padding0 < acc.Length
    modifies acc
    ensures ub == acc.Length - 1 - padding0
    ensures ul == if llsd - padding0 >= lmsd then llsd - padding0 else lmsd - 1
    ensures acc[..ub + 1] == old(acc[..ub + 1])
    ensures var s := old(lo[lmsd..llsd + 1]);
            Digits(acc[ub + 1..]) && Val(acc[ub + 1..]) == Val(s[ul + 1 - lmsd..])
  {
    ghost var s, a := lo[lmsd..llsd + 1], acc[..];
    var padding;
    padding, ub, ul := CopyRight(acc, lo, lmsd, llsd, padding0);
    CopiedEnd(acc, ub, lo, lmsd, ul, s, a);
    hide Val, Copied, Digits;
    ghost var j := ul + 1 - lmsd;
    DigitsSuffix(s, j);
    while padding > 0
      invariant ub == acc.Length - 1 - (padding0 - padding)
      invariant acc[..][..ub + 1] == a[..ub + 1]
      invariant Digits(acc[..][ub + 1..]) && Val(acc[..][ub + 1..]) == Val(s[j..])
    {
      ghost var a0 := acc[..];
      ZeroCell(a0, a, ub, s[j..]);
      acc[ub] := 0;
      assert acc[..] == a0[ub := 0];
      ub := ub - 1;
      padding := padding - 1;
    }
  }

  lemma CopiedEnd(acc: array<nat>, ub: int, lo: array<nat>, lmsd: nat, ul: int, s: seq<nat>, a: seq<nat>)
    requires Copied(acc, ub, lo, lmsd, ul, s, a)
    ensures -1 <= ub < acc.Length == |a| && lmsd - 1 <= ul && ul + 1 - lmsd <= |s|
    ensures acc[..ub + 1] == a[..ub + 1] && acc[ub + 1..] == s[ul + 1 - lmsd..]
  {
  }

  lemma DigitLeft(d: nat, r: seq<nat>)
    requires d <= 9 && Digits(r)
    ensures Digits([d] + r)
  {
  }

  lemma DigitsSuffix(s: seq<nat>, j: nat)
    requires Digits(s) && j <= |s|
    ensures Digits(s[j..])
  {
  }

  // ---- the addition itself ----

  /** The state between two digits: cells behind ub hold the sum so far; uh and ul are the next digits to
      read, ext the pad digits used to the left of the high operand. */
  ghost predicate Adding(acc: array<nat>, ub: int, hi: array<nat>, hmsd: nat, uh: int, hs: seq<nat>,
                         lo: array<nat>, lmsd: nat, ul: int, ls: seq<nat>, ext: seq<nat>, carry: nat, pad: nat, carry0: nat)
    reads acc, hi, lo
  {
    && -1 <= ub < acc.Length && Unread(hi, hmsd, uh, hs) && Unread(lo, lmsd, ul, ls)
    && (hi == acc && uh >= hmsd ==> uh <= ub) && (lo == acc && ul >= lmsd ==> ul <= ub)
    && Digits(hs) && Digits(ls) && Digits(ext) && (|ext| > 0 ==> uh == hmsd - 1)
    && acc.Length - 1 - ub == pad + |ext| + |hs| - (uh + 1 - hmsd)
    && (ul >= lmsd ==> acc.Length - 1 - ub == |ls| - (ul + 1 - lmsd))
    && AddState(acc[ub + 1..], carry, Val(ext + hs[uh + 1 - hmsd..]), Val(ls[ul + 1 - lmsd..]), pad, carry0)
  }

  /** What is unread in buf stays so when cell ub of acc is written. */
  lemma UnreadKept(b: seq<nat>, b': seq<nat>, ub: nat, msd: nat, at: int, s: seq<nat>)
    requires ub < |b| == |b'| && b' == b[ub := b'[ub]] && msd - 1 <= at < ub && at + 1 - msd <= |s|
    requires b[msd..at + 1] == s[..at + 1 - msd]
    ensures b'[msd..at + 1] == s[..at + 1 - msd]
  {
    assert b'[msd..at + 1] == b[msd..at + 1];
  }

  lemma UnreadLess(b: seq<nat>, msd: nat, at: nat, s: seq<nat>)
    requires msd <= at < |b| && at + 1 - msd <= |s| && b[msd..at + 1] == s[..at + 1 - msd]
    ensures b[at] == s[at - msd] && b[msd..at] == s[..at - msd]
  {
    var t := b[msd..at + 1];
    assert t[at - msd] == b[at] && t[..at - msd] == b[msd..at];
    assert s[..at + 1 - msd][..at - msd] == s[..at - msd];
  }

  /** One more place where both operands have a digit. */
  method StepBoth(acc: array<nat>, ub: nat, hi: array<nat>, hmsd: nat, uh: nat, ghost hs: seq<nat>,
                  lo: array<nat>, lmsd: nat, ul: nat, ghost ls: seq<nat>, carry0: nat, ghost pad: nat, ghost c: nat)
    returns (carry: nat)
    requires Adding(acc, ub, hi, hmsd, uh, hs, lo, lmsd, ul, ls, [], carry0, pad, c) && hmsd <= uh && lmsd <= ul
    modifies acc
    ensures Adding(acc, ub - 1, hi, hmsd, uh - 1, hs, lo, lmsd, ul - 1, ls, [], carry, pad, c)
  {
    hide Val, Shift, AddState;
    ghost var (i, j) := (uh + 1 - hmsd, ul + 1 - lmsd);
    ghost var (r, a, h, l) := (acc[ub + 1..], acc[..], hi[..], lo[..]);
    UnreadLess(h, hmsd, uh, hs);
    UnreadLess(l, lmsd, ul, ls);
    Consume(hs, i);
    Consume(ls, j);
    assert [] + hs[i..] == hs[i..] && [] + hs[i - 1..] == hs[i - 1..];
    CarryIsSmall(r, carry0, Val(hs[i..]), Val(ls[j..]), pad, c);
    carry := PutDigit(acc, ub, carry0 + hi[uh] + lo[ul]);
    AddStateStep(r, carry0, Val(hs[i..]), Val(ls[j..]), pad, c, hs[i - 1], ls[j - 1], acc[ub], carry);
    assert acc[ub..] == [acc[ub]] + r;
    StillUnread(acc, a, ub, hi, h, hmsd, uh - 1, hs);
    StillUnread(acc, a, ub, lo, l, lmsd, ul - 1, ls);
  }

  lemma CarryIsSmall(r: seq<nat>, carry: nat, hv: nat, lv: nat, pad: nat, carry0: nat)
    requires AddState(r, carry, hv, lv, pad, carry0)
    ensures carry <= 1 && pad <= |r|
  {
  }

  /** The same as a fact about arrays: a and b are what acc and buf held before. */
  lemma StillUnread(acc: array<nat>, a: seq<nat>, ub: nat, buf: array<nat>, b: seq<nat>, msd: nat, at: int, s: seq<nat>)
    requires ub < acc.Length == |a| && acc[..] == a[ub := acc[ub]] && (buf != acc ==> buf[..] == b) && (buf == acc ==> b == a && at < ub)
    requires msd - 1 <= at < |b| && at + 1 - msd <= |s| && b[msd..at + 1] == s[..at + 1 - msd]
    ensures Unread(buf, msd, at, s)
  {
    if buf == acc {
      UnreadKept(a, acc[..], ub, msd, at, s);
      assert acc[msd..at + 1] == acc[..][msd..at + 1];
    } else {
      assert buf[msd..at + 1] == b[msd..at + 1];
    }
  }

  /** To the left of the low operand. */
  method StepHigh(acc: array<nat>, ub: nat, hi: array<nat>, hmsd: nat, uh: nat, ghost hs: seq<nat>,
                  ghost lo: array<nat>, ghost lmsd: nat, ghost ul: int, ghost ls: seq<nat>, carry0: nat, ghost pad: nat, ghost c: nat)
    returns (carry: nat)
    requires Adding(acc, ub, hi, hmsd, uh, hs, lo, lmsd, ul, ls, [], carry0, pad, c) && hmsd <= uh && ul == lmsd - 1
    modifies acc
    ensures Adding(acc, ub - 1, hi, hmsd, uh - 1, hs, lo, lmsd, ul, ls, [], carry, pad, c)
  {
    hide Val, Shift, AddState;
    ghost var i := uh + 1 - hmsd;
    ghost var (r, a, h, l) := (acc[ub + 1..], acc[..], hi[..], lo[..]);
    UnreadLess(h, hmsd, uh, hs);
    Consume(hs, i);
    assert [] + hs[i..] == hs[i..] && [] + hs[i - 1..] == hs[i - 1..];
    CarryIsSmall(r, carry0, Val(hs[i..]), Val(ls[0..]), pad, c);
    ShiftZero(|r|);
    carry := PutDigit(acc, ub, carry0 + hi[uh]);
    AddStateStep(r, carry0, Val(hs[i..]), Val(ls[0..]), pad, c, hs[i - 1], 0, acc[ub], carry);
    assert acc[ub..] == [acc[ub]] + r;
    StillUnread(acc, a, ub, hi, h, hmsd, uh - 1, hs);
    NothingUnread(lo, lmsd, ls, acc, l);
  }

  lemma NothingUnread(lo: array<nat>, lmsd: nat, ls: seq<nat>, acc: array<nat>, l: seq<nat>)
    requires lmsd - 1 < lo.Length
    ensures Unread(lo, lmsd, lmsd - 1, ls)
  {
    assert lo[lmsd..lmsd] == [] == ls[..0];
  }

  /** To the left of the high operand, where pad digits stand in for it. */
  method StepLow(acc: array<nat>, ub: nat, ghost hi: array<nat>, ghost hmsd: nat, ghost uh: int, ghost hs: seq<nat>, hipad: nat,
                 ghost ext: seq<nat>, lo: array<nat>, lmsd: nat, ul: nat, ghost ls: seq<nat>, carry0: nat,
                 ghost pad: nat, ghost c: nat)
    returns (carry: nat)
    requires Adding(acc, ub, hi, hmsd, uh, hs, lo, lmsd, ul, ls, ext, carry0, pad, c)
    requires lmsd <= ul && hipad <= 9 && uh == hmsd - 1
    modifies acc
    ensures Adding(acc, ub - 1, hi, hmsd, uh, hs, lo, lmsd, ul - 1, ls, [hipad] + ext, carry, pad, c)
  {
    hide Val, Shift, AddState;
    ghost var j := ul + 1 - lmsd;
    ghost var (r, a, h, l) := (acc[ub + 1..], acc[..], hi[..], lo[..]);
    UnreadLess(l, lmsd, ul, ls);
    Consume(ls, j);
    ghost var e := ext + hs[0..];
    assert [hipad] + ext + hs[0..] == [hipad] + e;
    ValCons(hipad, e);
    CarryIsSmall(r, carry0, Val(e), Val(ls[j..]), pad, c);
    carry := PutDigit(acc, ub, carry0 + hipad + lo[ul]);
    AddStateStep(r, carry0, Val(e), Val(ls[j..]), pad, c, hipad, ls[j - 1], acc[ub], carry);
    assert acc[ub..] == [acc[ub]] + r;
    StillUnread(acc, a, ub, lo, l, lmsd, ul - 1, ls);
    NothingUnread(hi, hmsd, hs, acc, h);
  }

  lemma AddingBounds(acc: array<nat>, ub: int, hi: array<nat>, hmsd: nat, uh: int, hs: seq<nat>,
                     lo: array<nat>, lmsd: nat, ul: int, ls: seq<nat>, ext: seq<nat>, carry: nat, pad: nat, carry0: nat)
    requires Adding(acc, ub, hi, hmsd, uh, hs, lo, lmsd, ul, ls, ext, carry, pad, carry0)
    ensures -1 <= ub < acc.Length && hmsd - 1 <= uh && lmsd - 1 <= ul
  {
  }

  /** The places where both operands have digits. */
  method AddBoth(acc: array<nat>, ub0: nat, hi: array<nat>, hmsd: nat, hlsd: nat, ghost hs: seq<nat>,
                 lo: array<nat>, lmsd: nat, ul0: int, ghost ls: seq<nat>, carry0: nat, ghost pad: nat, ghost c: nat)
    returns (ub: int, uh: int, ul: int, carry: nat)
    requires Adding(acc, ub0, hi, hmsd, hlsd, hs, lo, lmsd, ul0, ls, [], carry0, pad, c)
    requires hmsd <= hlsd && hlsd - hmsd < ub0 && ul0 - lmsd < ub0
    modifies acc
    ensures Adding(acc, ub, hi, hmsd, uh, hs, lo, lmsd, ul, ls, [], carry, pad, c)
    ensures hmsd - 1 <= uh <= hlsd && lmsd - 1 <= ul <= ul0 && ub0 - ub == hlsd - uh == ul0 - ul && (uh < hmsd || ul < lmsd)
  {
    hide *;
    AddingBounds(acc, ub0, hi, hmsd, hlsd, hs, lo, lmsd, ul0, ls, [], carry0, pad, c);
    ub, uh, ul, carry := ub0, hlsd, ul0, carry0;
    while uh >= hmsd && ul >= lmsd
      invariant hmsd - 1 <= uh <= hlsd && lmsd - 1 <= ul <= ul0 && ub0 - ub == hlsd - uh == ul0 - ul
      invariant Adding(acc, ub, hi, hmsd, uh, hs, lo, lmsd, ul, ls, [], carry, pad, c)
    {
      carry := StepBoth(acc, ub, hi, hmsd, uh, hs, lo, lmsd, ul, ls, carry, pad, c);
      uh, ul, ub := uh - 1, ul - 1, ub - 1;
    }
  }

  /** The rest of the high operand. */
  method AddHigh(acc: array<nat>, ub0: int, hi: array<nat>, hmsd: nat, uh0: int, ghost hs: seq<nat>, ghost lo: array<nat>,
                 ghost lmsd: nat, ghost ul: int, ghost ls: seq<nat>, carry0: nat, ghost pad: nat, ghost c: nat)
    returns (ub: int, uh: int, carry: nat)
    requires Adding(acc, ub0, hi, hmsd, uh0, hs, lo, lmsd, ul, ls, [], carry0, pad, c) && ul == lmsd - 1
    requires hmsd - 1 <= uh0 && uh0 - hmsd < ub0
    modifies acc
    ensures Adding(acc, ub, hi, hmsd, uh, hs, lo, lmsd, ul, ls, [], carry, pad, c) && uh == hmsd - 1
    ensures ub == ub0 - (uh0 - uh) && (ub0 >= 0 ==> ub >= 0)
  {
    hide *;
    ub, uh, carry := ub0, uh0, carry0;
    while uh >= hmsd
      invariant hmsd - 1 <= uh <= uh0 && ub0 - ub == uh0 - uh
      invariant Adding(acc, ub, hi, hmsd, uh, hs, lo, lmsd, ul, ls, [], carry, pad, c)
    {
      carry := StepHigh(acc, ub, hi, hmsd, uh, hs, lo, lmsd, ul, ls, carry, pad, c);
      uh, ub := uh - 1, ub - 1;
    }
  }

  lemma EmptyIsAll(d: nat)
    ensures AllEqual([], d)
  {
  }

  lemma OneMoreEqual(s: seq<nat>, d: nat)
    requires AllEqual(s, d)
    ensures AllEqual([d] + s, d)
  {
  }

  /** The rest of the low operand. */
  method AddLow(acc: array<nat>, ub0: int, ghost hi: array<nat>, ghost hmsd: nat, ghost uh: int, ghost hs: seq<nat>, hipad: nat,
                lo: array<nat>, lmsd: nat, ul0: int, ghost ls: seq<nat>, carry0: nat, ghost pad: nat, ghost c: nat)
    returns (ub: int, ul: int, carry: nat, ghost ext: seq<nat>)
    requires Adding(acc, ub0, hi, hmsd, uh, hs, lo, lmsd, ul0, ls, [], carry0, pad, c) && uh == hmsd - 1
    requires lmsd - 1 <= ul0 && ul0 - lmsd < ub0 && hipad <= 9
    modifies acc
    ensures Adding(acc, ub, hi, hmsd, uh, hs, lo, lmsd, ul, ls, ext, carry, pad, c) && ul == lmsd - 1
    ensures ub == ub0 - (ul0 - ul) && (ub0 >= 0 ==> ub >= 0) && |ext| == ul0 - ul && AllEqual(ext, hipad)
  {
    hide *;
    EmptyIsAll(hipad);
    ub, ul, carry, ext := ub0, ul0, carry0, [];
    while ul >= lmsd
      invariant lmsd - 1 <= ul <= ul0 && ub0 - ub == ul0 - ul == |ext| && AllEqual(ext, hipad)
      invariant Adding(acc, ub, hi, hmsd, uh, hs, lo, lmsd, ul, ls, ext, carry, pad, c)
    {
      carry := StepLow(acc, ub, hi, hmsd, uh, hs, hipad, ext, lo, lmsd, ul, ls, carry, pad, c);
      OneMoreEqual(ext, hipad);
      ext := [hipad] + ext;
      ul, ub := ul - 1, ub - 1;
    }
  }

  /** The number of digits of the sum, leading carry not included. */
  function SumLength(hlen: nat, padding: nat, llen: nat): nat {
    if hlen + padding >= llen then hlen + padding else llen
  }

  /** Aligns and adds: the high operand with padding places to its right, carry0 put in at its last digit
      and hipad to its left; the low operand as it is. */
  method AddInPlace(acc: array<nat>, hi: array<nat>, hmsd: nat, hlsd: nat, lo: array<nat>, lmsd: nat, llsd: nat,
                    padding: nat, hipad: nat, carry0: nat)
    returns (ub: int, carry: nat, ghost ext: seq<nat>)
    requires hmsd <= hlsd < hi.Length && lmsd <= llsd < lo.Length && hipad <= 9 && carry0 <= 1
    requires Digits(hi[hmsd..hlsd + 1]) && Digits(lo[lmsd..llsd + 1])
    requires SumLength(hlsd + 1 - hmsd, padding, llsd + 1 - lmsd) < acc.Length
    requires hi == acc ==> hlsd + padding < acc.Length
    modifies acc
    ensures var N := SumLength(hlsd + 1 - hmsd, padding, llsd + 1 - lmsd);
            && 0 <= ub == acc.Length - 1 - N && carry <= 1 && AllEqual(ext, hipad)
            && |ext| + (hlsd + 1 - hmsd) + padding == N && Digits(acc[ub + 1..])
            && Val(acc[ub + 1..]) + Shift(carry, N)
               == Shift(Val(ext + old(hi[hmsd..hlsd + 1])), padding) + old(Val(lo[lmsd..llsd + 1])) + Shift(carry0, padding)
  {
    hide Val, Shift, AddState, Digits, AllEqual;
    EmptyIsAll(hipad);
    ghost var hs, ls := hi[hmsd..hlsd + 1], lo[lmsd..llsd + 1];
    ghost var h, a, l := hi[..], acc[..], lo[..];
    assert hs == h[hmsd..hlsd + 1] && ls == l[lmsd..llsd + 1];
    var ul;
    ub, ul := PadRight(acc, lo, lmsd, llsd, padding);
    Start(acc, ub, hi, hmsd, hlsd, hs, lo, lmsd, llsd, ul, ls, carry0, padding, h, a, l);
    LongEnough(hlsd + 1 - hmsd, padding, llsd + 1 - lmsd, acc.Length);
    hide *;
    ghost var uh, ul';
    ub, uh, ul', carry, ext := AddAligned(acc, ub, hi, hmsd, hlsd, hs, hipad, lo, lmsd, ul, ls, padding, carry0);
    ExactLength(hlsd + 1 - hmsd, padding, llsd + 1 - lmsd, acc.Length - 1 - ub);
    ghost var N := SumLength(hlsd + 1 - hmsd, padding, llsd + 1 - lmsd);
    Finished(acc, ub, hi, hmsd, uh, hs, lo, lmsd, ul', ls, ext, carry, padding, carry0, N);
  }

  /** The same, once the places to the right of the high operand are done. */
  method AddAligned(acc: array<nat>, ub0: nat, hi: array<nat>, hmsd: nat, hlsd: nat, ghost hs: seq<nat>, hipad: nat,
                    lo: array<nat>, lmsd: nat, ul0: int, ghost ls: seq<nat>, ghost padding: nat, carry0: nat)
    returns (ub: int, ghost uh: int, ghost ul: int, carry: nat, ghost ext: seq<nat>)
    requires Adding(acc, ub0, hi, hmsd, hlsd, hs, lo, lmsd, ul0, ls, [], carry0, padding, carry0)
    requires hmsd <= hlsd && hipad <= 9 && hlsd - hmsd < ub0 && ul0 - lmsd < ub0 && lmsd - 1 <= ul0
    modifies acc
    ensures Adding(acc, ub, hi, hmsd, uh, hs, lo, lmsd, ul, ls, ext, carry, padding, carry0)
    ensures uh == hmsd - 1 && ul == lmsd - 1 && 0 <= ub && AllEqual(ext, hipad)
    ensures ub0 - ub == hlsd + 1 - hmsd || ub0 - ub == ul0 + 1 - lmsd
    ensures ub0 - ub >= hlsd + 1 - hmsd && ub0 - ub >= ul0 + 1 - lmsd
  {
    hide *;
    var h, l;
    EmptyIsAll(hipad);
    ub, h, l, carry := AddBoth(acc, ub0, hi, hmsd, hlsd, hs, lo, lmsd, ul0, ls, carry0, padding, carry0);
    ext := [];
    if l < lmsd {
      ul := l;
      ub, uh, carry := AddHigh(acc, ub, hi, hmsd, h, hs, lo, lmsd, l, ls, carry, padding, carry0);
    } else {
      uh := h;
      ub, ul, carry, ext := AddLow(acc, ub, hi, hmsd, h, hs, hipad, lo, lmsd, l, ls, carry, padding, carry0);
    }
  }

  lemma LongEnough(hlen: nat, padding: nat, llen: nat, n: nat)
    requires SumLength(hlen, padding, llen) < n
    ensures hlen + padding < n && llen < n
  {
  }

  lemma ExactLength(hlen: nat, padding: nat, llen: nat, n: nat)
    requires n >= hlen + padding && n >= llen && (n == hlen + padding || n == llen)
    ensures SumLength(hlen, padding, llen) == n
  {
  }

  lemma Start(acc: array<nat>, ub: int, hi: array<nat>, hmsd: nat, hlsd: nat, hs: seq<nat>, lo: array<nat>, lmsd: nat,
              llsd: nat, ul: int, ls: seq<nat>, carry0: nat, padding: nat, h: seq<nat>, a: seq<nat>, l: seq<nat>)
    requires hmsd <= hlsd < hi.Length && lmsd <= llsd < lo.Length && carry0 <= 1 && padding < acc.Length == |a|
    requires |h| == hi.Length && |l| == lo.Length && Digits(hs) && Digits(ls)
    requires hs == h[hmsd..hlsd + 1] && ls == l[lmsd..llsd + 1]
    requires if hi == acc then h == a && hlsd + padding < acc.Length else hi[..] == h
    requires if lo == acc then l == a else lo[..] == l
    requires ub == acc.Length - 1 - padding && acc[..ub + 1] == a[..ub + 1]
    requires ul == if llsd - padding >= lmsd then llsd - padding else lmsd - 1
    requires Digits(acc[ub + 1..]) && Val(acc[ub + 1..]) == Val(ls[ul + 1 - lmsd..])
    ensures Adding(acc, ub, hi, hmsd, hlsd, hs, lo, lmsd, ul, ls, [], carry0, padding, carry0)
  {
    hide Val, Shift, Unread, AddState, Digits;
    UnreadAtFirst(acc, a, ub, hi, h, hmsd, hlsd, hs, hlsd);
    UnreadAtFirst(acc, a, ub, lo, l, lmsd, ul, ls, llsd);
    StartState(acc[ub + 1..], hs, ls, hlsd + 1 - hmsd, ul + 1 - lmsd, padding, carry0);
    NoDigits();
  }

  lemma NoDigits()
    ensures Digits([])
  {
  }

  lemma StartState(r: seq<nat>, hs: seq<nat>, ls: seq<nat>, i: nat, j: nat, padding: nat, carry0: nat)
    requires i == |hs| && j <= |ls| && carry0 <= 1 && |r| == padding && Digits(r) && Val(r) == Val(ls[j..])
    ensures AddState(r, carry0, Val([] + hs[i..]), Val(ls[j..]), padding, carry0)
  {
    hide Val, Shift;
    assert [] + hs[i..] == [];
    EmptyShifted(padding);
  }

  lemma EmptyShifted(k: nat)
    ensures Val([]) == 0 && Shift(Val([]), k) == 0
  {
    ShiftZero(k);
  }

  lemma UnreadAtFirst(acc: array<nat>, a: seq<nat>, ub: int, buf: array<nat>, b: seq<nat>, msd: nat, at: int, s: seq<nat>, lsd: nat)
    requires |a| == acc.Length && -1 <= ub < acc.Length && acc[..ub + 1] == a[..ub + 1] && |b| == buf.Length
    requires if buf == acc then b == a && (at >= msd ==> at <= ub) else buf[..] == b
    requires msd - 1 <= at <= lsd < |b| && s == b[msd..lsd + 1]
    ensures Unread(buf, msd, at, s)
  {
    if at < msd {
      assert buf[msd..at + 1] == [];
      assert s[..at + 1 - msd] == [];
    } else if buf == acc {
      SlicesAgree(acc[..ub + 1], a[..ub + 1], a, msd, at, lsd);
      SliceOfPrefix(acc[..], ub + 1, msd, at + 1);
      assert acc[..ub + 1] == acc[..][..ub + 1] && buf[msd..at + 1] == acc[..][msd..at + 1];
    } else {
      assert buf[msd..at + 1] == buf[..][msd..at + 1];
      assert b[msd..at + 1] == s[..at + 1 - msd];
    }
  }

  lemma SlicesAgree(p: seq<nat>, q: seq<nat>, a: seq<nat>, msd: nat, at: nat, lsd: nat)
    requires p == q && q <= a && msd <= at < |q| && at <= lsd < |a|
    ensures p[msd..at + 1] == a[msd..lsd + 1][..at + 1 - msd]
  {
  }

  lemma Finished(acc: array<nat>, ub: int, hi: array<nat>, hmsd: nat, uh: int, hs: seq<nat>, lo: array<nat>, lmsd: nat,
                 ul: int, ls: seq<nat>, ext: seq<nat>, carry: nat, pad: nat, carry0: nat, N: nat)
    requires Adding(acc, ub, hi, hmsd, uh, hs, lo, lmsd, ul, ls, ext, carry, pad, carry0)
    requires uh == hmsd - 1 && ul == lmsd - 1 && acc.Length - 1 - ub == N
    ensures Digits(acc[ub + 1..]) && carry <= 1 && N == pad + |ext| + |hs|
    ensures Val(acc[ub + 1..]) + Shift(carry, N) == Shift(Val(ext + hs), pad) + Val(ls) + Shift(carry0, pad)
  {
    hide Val, Shift, AddState, Digits, Unread;
    var r := acc[ub + 1..];
    assert |r| == N;
    assert hs[uh + 1 - hmsd..] == hs && ls[ul + 1 - lmsd..] == ls;
    AddStateEnd(r, carry, Val(ext + hs), Val(ls), pad, carry0, N);
  }

  lemma AddStateEnd(r: seq<nat>, carry: nat, hv: nat, lv: nat, pad: nat, carry0: nat, N: nat)
    requires AddState(r, carry, hv, lv, pad, carry0) && |r| == N
    ensures Digits(r) && carry <= 1 && Val(r) + Shift(carry, N) == Shift(hv, pad) + lv + Shift(carry0, pad)
  {
  }

  // ---- sign and magnitude ----

  /** Pad digits in front of a complemented or plain high operand. */
  lemma PaddedHigh(hs: seq<nat>, hs': seq<nat>, ext: seq<nat>, diffsign: bool)
    requires if diffsign then Nines(hs, hs') && AllEqual(ext, 9) else hs' == hs && AllEqual(ext, 0)
    ensures if diffsign then Val(ext + hs') + 1 + Val(hs) == Pow10(|ext| + |hs|) else Val(ext + hs') == Val(hs)
  {
    hide *;
    if diffsign {
      var zeros := seq(|ext|, _ => 0);
      ZerosEqual(|ext|);
      NinesPadded(zeros, ext, hs, hs');
      NinesComplement(zeros + hs, ext + hs');
      FrontZeros(zeros, hs);
    } else {
      FrontZeros(ext, hs);
    }
  }

  lemma ZerosEqual(n: nat)
    ensures AllEqual(seq(n, _ => 0), 0)
  {
  }

  lemma NinesPadded(zeros: seq<nat>, ext: seq<nat>, hs: seq<nat>, hs': seq<nat>)
    requires |zeros| == |ext| && AllEqual(zeros, 0) && AllEqual(ext, 9) && Nines(hs, hs')
    ensures Nines(zeros + hs, ext + hs') && |hs| == |hs'|
  {
  }

  lemma FrontZeros(zeros: seq<nat>, s: seq<nat>)
    requires AllEqual(zeros, 0)
    ensures Val(zeros + s) == Val(s)
  {
    hide Val;
    assert (zeros + s)[..|zeros|] == zeros && (zeros + s)[|zeros|..] == s;
    ValSkipZeros(zeros + s, |zeros|);
  }

  lemma SumStateOf(diffsign: bool, x: nat, padding: nat, z: nat, v: nat, carry: nat, m: nat, h: nat)
    requires if diffsign then h + 1 + x == Pow10(m) else h == x
    requires v + Shift(carry, m + padding) == Shift(h, padding) + z + Shift(if diffsign then 1 else 0, padding)
    ensures SumState(diffsign, x, padding, z, v, carry, m + padding)
  {
    hide Pow10, Shift;
    ShiftSum(h, 1, padding);
    ShiftSum(h + 1, x, padding);
    ShiftOfPow10(m, padding);
    ShiftZero(padding);
  }

  /** Complements the high operand when the signs differ, and adds. */
  method AddSigned(acc: array<nat>, hi: array<nat>, hmsd: nat, hlsd: nat, lo: array<nat>, lmsd: nat, llsd: nat,
                   padding: nat, diffsign: bool)
    returns (ub: int, carry: nat)
    requires hi != lo && hmsd <= hlsd < hi.Length && lmsd <= llsd < lo.Length
    requires Digits(hi[hmsd..hlsd + 1]) && Digits(lo[lmsd..llsd + 1])
    requires SumLength(hlsd + 1 - hmsd, padding, llsd + 1 - lmsd) < acc.Length
    requires hi == acc ==> hlsd + padding < acc.Length
    modifies acc, hi
    ensures var N := SumLength(hlsd + 1 - hmsd, padding, llsd + 1 - lmsd);
            && 0 <= ub == acc.Length - 1 - N && carry <= 1 && Digits(acc[ub + 1..])
            && SumState(diffsign, old(Val(hi[hmsd..hlsd + 1])), padding, old(Val(lo[lmsd..llsd + 1])), Val(acc[ub + 1..]), carry, N)
  {
    hide Val, Pow10, Shift, Digits, AllEqual, Nines, SumState;
    ghost var hs, l := hi[hmsd..hlsd + 1], lo[lmsd..llsd + 1];
    if diffsign {
      InvertExact(hi, hmsd, hlsd + 1);
      assert lo[lmsd..llsd + 1] == l;
    }
    ghost var hs' := hi[hmsd..hlsd + 1];
    ghost var ext;
    ub, carry, ext := AddInPlace(acc, hi, hmsd, hlsd, lo, lmsd, llsd, padding, if diffsign then 9 else 0, if diffsign then 1 else 0);
    PaddedHigh(hs, hs', ext, diffsign);
    SumStateOf(diffsign, Val(hs), padding, Val(l), Val(acc[ub + 1..]), carry, |ext| + |hs|, Val(ext + hs'));
  }

  /** The ten's complement of a sum that did not carry. */
  method Recomplement(acc: array<nat>, msd: nat, ghost x: nat, ghost t: nat, ghost z: nat, ghost n: nat)
    requires msd < acc.Length && n == acc.Length - msd && t <= n && Digits(acc[msd..]) && x < Pow10(n - t)
    requires SumState(true, x, t, z, Val(acc[msd..]), 0, n)
    modifies acc
    ensures Digits(acc[msd..]) && z < Shift(x, t) && Val(acc[msd..]) == Shift(x, t) - z
  {
    hide Val, Pow10, Shift, Digits;
    ghost var s := acc[msd..];
    assert acc[msd..acc.Length] == acc[msd..] && |s| == n;
    ValBound(s);
    ShiftZero(n);
    ShiftMono(x, Pow10(n - t), t);
    ShiftOfPow10(n - t, t);
    InvertExact(acc, msd, acc.Length);
    NinesComplement(s, acc[msd..acc.Length]);
    AddOneIn(acc, msd, acc.Length - 1);
    assert acc[msd..acc.Length - 1 + 1] == acc[msd..];
  }

  /** From the cells and the carry to sign and magnitude. */
  method FinishFma(acc: array<nat>, ub: nat, ghost x: nat, ghost t: nat, ghost z: nat, diffsign: bool, signhi: bool, signlo: bool,
                   toFloor: bool, carry: nat, ghost N: nat)
    returns (msd: nat, sign: bool)
    requires ub < acc.Length - 1 && Digits(acc[ub + 1..]) && carry <= 1 && (!diffsign ==> signhi == signlo)
    requires N == acc.Length - 1 - ub && t <= N && x < Pow10(N - t)
    requires SumState(diffsign, x, t, z, Val(acc[ub + 1..]), carry, N)
    modifies acc
    ensures msd < acc.Length && Digits(acc[msd..])
    ensures SumResult(diffsign, signhi, signlo, toFloor, x, t, z, Val(acc[msd..]), sign)
  {
    hide Val, Pow10, Shift, SumState, Digits;
    msd, sign := ub + 1, signlo;
    ghost var s := acc[ub + 1..];
    if !diffsign {
      if carry != 0 {
        acc[ub] := 1;
        msd := msd - 1;
        assert acc[ub..] == [1] + s;
        CarryPrefix(s);
        DigitLeft(1, s);
        SumStateUnfold(x, t, z, Val(s), N);
      } else {
        NoCarry(x, t, z, Val(s), N);
      }
    } else if carry == 0 {
      sign := signhi;
      Recomplement(acc, ub + 1, x, t, z, N);
    } else {
      CarryOut(x, t, z, Val(s), N);
      msd := SkipZeros(acc, ub + 1, acc.Length - 1);
      assert acc[msd..acc.Length - 1 + 1] == acc[msd..] && acc[ub + 1..acc.Length - 1 + 1] == s;
      StrippedValue(acc, ub + 1, acc.Length, msd);
      assert acc[msd..] == s[msd - ub - 1..];
      DigitsSuffix(s, msd - ub - 1);
      if acc[msd] == 0 {
        sign := toFloor;
      }
    }
  }

  lemma CarryOut(x: nat, t: nat, z: nat, v: nat, N: nat)
    requires SumState(true, x, t, z, v, 1, N)
    ensures v + Shift(x, t) == z
  {
    ShiftOne(0, N);
  }
}
