/** decFinalize for a decQuad, down to the words (decCommon.c:231-556): after rounding, a coefficient of full
    length is encoded by decFloatFromBCD, a shorter one by code of its own. */
module FinalizeQuad {
  import opened DecFloats
  import opened RoundingSpec
  import opened Bcd
  import opened Finalize
  import opened BitFields
  import opened Decimal128
  import opened QuadBits

  /** Encodes a coefficient of less than 34 digits, or of none, or an infinity. */
  method EncodeShort(df: array<nat>, digits: seq<nat>, exponent: int, sig: nat)
    requires df.Length == 4 && |digits| < 34 && Digits(digits)
    requires ValidExponent(exponent) && (sig == 0 || sig == DECFLOAT_SIGN)
    modifies df
    ensures Words32(df[..]) && Decode128(WordsVal(df[..])) == DatumOf(exponent, Padded(digits), sig != 0)
    ensures Canonical128(WordsVal(df[..])) <==> (exponent == DECFLOAT_INF ==> Val(digits) == 0)
  {
    hide WordsVal, HighFields, Packed, ElevenDeclets, DatumOf, Canonical128, Decode128, TopWord, Padded, Val;
    PaddedDigits(digits);
    // the sign goes in last here, which makes no difference to the word
    var encode := EncodeTop(exponent, 0, sig);
    ghost var top := TopOf(exponent, Padded(digits), sig);
    PutDeclets(df, encode, digits, top);
    EncodedDatum(exponent, Padded(digits), sig, WordsVal(df[..]));
    ValZeroIff(Padded(digits)[1..]);
  }

  /** Rounds the number sign, buf[msd..lsd], exponent to a decQuad and encodes it: the words are those of the
      number rounded once, and canonical. */
  method DecFinalizeQuad(df: array<nat>, buf: array<nat>, msd: nat, lsd: int, sign: bool, exponent: int, set': DecContext)
    requires df.Length == 4 && df != buf
    requires QUAD.Valid() && msd <= lsd + 1 <= buf.Length && msd < buf.Length && Digits(buf[msd..lsd + 1])
    modifies df, buf, set'
    ensures var o := if lsd < msd then NothingEnd(QUAD, old(set'.round), sign, exponent)
                     else RoundScaled(QUAD, old(set'.round), sign, old(Val(buf[msd..lsd + 1])), exponent);
            && Words32(df[..]) && Decode128(WordsVal(df[..])) == o.value && Canonical128(WordsVal(df[..]))
            && set'.status == old(set'.status) + o.flags
    ensures set'.round == old(set'.round)
  {
    hide Val, RoundScaled, NothingEnd, WordsVal, Decode128, Canonical128, DatumOf, Datum, Encodable;
    var digits, exp, infinite := FinalDigits(QUAD, buf, msd, lsd, sign, exponent, set');
    var sig := if sign then DECFLOAT_SIGN else 0;
    var uexp := if infinite then DECFLOAT_INF else exp;
    QuadDatum(digits, exp, infinite, sign);
    if |digits| == 34 {
      var bcdar := new nat[34](k requires 0 <= k < 34 => digits[k]);
      assert bcdar[..] == digits;
      DecFloatFromBCD(df, uexp, bcdar, sig);
    } else {
      EncodeShort(df, digits, uexp, sig);
    }
  }

  /** The digits to be encoded, as a datum. */
  lemma QuadDatum(digits: seq<nat>, exp: int, infinite: bool, sign: bool)
    requires Encodable(QUAD, digits, exp, infinite)
    ensures |digits| <= 34 && Digits(digits) && ValidExponent(if infinite then DECFLOAT_INF else exp)
    ensures infinite ==> |digits| < 34 && Val(digits) == 0
    ensures DatumOf(if infinite then DECFLOAT_INF else exp, Padded(digits), sign) == Datum(sign, digits, exp, infinite)
    ensures |digits| == 34 ==> Padded(digits) == digits
    ensures !infinite ==> exp != DECFLOAT_INF
  {
    hide Val, Padded;
    FormatsValid();
    PaddedDigits(digits);
    if infinite {
      ValSingle(0);
    }
  }
}
