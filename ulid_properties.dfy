/** What the reference ULID codec guarantees: the fields split and pack
    back without loss, the text denotes the 128-bit value, decoding inverts
    encoding, the text sorts as the values do, and where decoding loses
    information. */
module UlidProperties {
  import opened JavaLong
  import opened Radix32
  import opened Transliteration
  import opened UlidCodec

  // ---------------------------------------------------------------------
  // The two longs and the three fields

  /** Two ULIDs with the same 128-bit value are the same pair of longs. */
  lemma {:induction false} ValueInjective(u: Uuid, v: Uuid)
    requires u.Value() == v.Value()
    ensures u == v
  {
    DivModUnique(u.Value(), TWO_64, u.msb, u.lsb);
    DivModUnique(v.Value(), TWO_64, v.msb, v.lsb);
  }

  /** Two longs hold a 128-bit value. */
  lemma {:induction false} ValueBound(u: Uuid)
    ensures u.Value() < TWO_128
  {
    assert u.msb * 0x1_0000_0000_0000_0000 <= 0xffff_ffff_ffff_ffff * 0x1_0000_0000_0000_0000;
  }

  /** The fields of a pair of longs whose value is time * 2^80 + random1 * 2^40 + random2. */
  lemma {:induction false} FieldsOfValue(u: Uuid, time: nat, random1: nat, random2: nat)
    requires time < 0x1_0000_0000_0000 && random1 < 0x100_0000_0000 && random2 < 0x100_0000_0000
    requires u.Value() == time * 0x1_0000_0000_0000_0000_0000 + random1 * 0x100_0000_0000 + random2
    ensures TimeField(u.msb) == time
    ensures Random1Field(u.msb, u.lsb) == random1
    ensures Random2Field(u.lsb) == random2
  {
    var a, b := random1 / 0x100_0000, random1 % 0x100_0000;
    assert random1 == a * 0x100_0000 + b;
    assert random1 * 0x100_0000_0000 == a * TWO_64 + b * 0x100_0000_0000;
    assert time * 0x1_0000_0000_0000_0000_0000 == (time * 0x1_0000) * TWO_64;
    assert b * 0x100_0000_0000 + random2 < TWO_64;
    DivModUnique(u.Value(), TWO_64, u.msb, u.lsb);
    DivModUnique(u.Value(), TWO_64, time * 0x1_0000 + a, b * 0x100_0000_0000 + random2);
    SplitArithmetic(u.msb, u.lsb);
    DivModUnique(u.msb, 0x1_0000, time, a);
    DivModUnique(u.lsb, 0x100_0000_0000, b, random2);
  }

  /** The fields of msb and lsb, weighted by their positions, add up to msb * 2^64 + lsb. */
  lemma {:induction false} SplitSum(msb: nat, lsb: nat)
    ensures (msb / 0x1_0000) * 0x1_0000_0000_0000_0000_0000
          + ((msb % 0x1_0000) * 0x100_0000 + lsb / 0x100_0000_0000) * 0x100_0000_0000
          + lsb % 0x100_0000_0000
         == msb * TWO_64 + lsb
  {
    var h, l := msb / 0x1_0000, msb % 0x1_0000;
    var p, q := lsb / 0x100_0000_0000, lsb % 0x100_0000_0000;
    assert msb * TWO_64 == h * 0x1_0000_0000_0000_0000_0000 + l * TWO_64;
    assert (l * 0x100_0000 + p) * 0x100_0000_0000 == l * TWO_64 + p * 0x100_0000_0000;
  }

  /** Splitting a pair of longs into the fields and packing them again gives the pair back. */
  lemma {:induction false} SplitThenJoin(msb: Long, lsb: Long)
    ensures HighWord(TimeField(msb), Random1Field(msb, lsb)) == msb
    ensures LowWord(Random1Field(msb, lsb), Random2Field(lsb)) == lsb
  {
    var time, random1, random2 := TimeField(msb), Random1Field(msb, lsb), Random2Field(lsb);
    SplitArithmetic(msb, lsb);
    SplitSum(msb, lsb);
    PackedValue(time, random1, random2);
    ValueInjective(Uuid(HighWord(time, random1), LowWord(random1, random2)), Uuid(msb, lsb));
  }

  /** Packing three fields that fit their widths and splitting the result gives the fields back. */
  lemma {:induction false} JoinThenSplit(time: Long, random1: Long, random2: Long)
    requires time < 0x1_0000_0000_0000 && random1 < 0x100_0000_0000 && random2 < 0x100_0000_0000
    ensures TimeField(HighWord(time, random1)) == time
    ensures Random1Field(HighWord(time, random1), LowWord(random1, random2)) == random1
    ensures Random2Field(LowWord(random1, random2)) == random2
  {
    PackedValue(time, random1, random2);
    FieldsOfValue(Uuid(HighWord(time, random1), LowWord(random1, random2)), time, random1, random2);
  }

  /** toUuid(time, random1, random2) keeps the low 48, 40 and 40 bits of its arguments. */
  lemma {:induction false} ToUuidFields(time: Long, random1: Long, random2: Long)
    ensures TimeField(ToUuid(time, random1, random2).msb) == time % 0x1_0000_0000_0000
    ensures Random1Field(ToUuid(time, random1, random2).msb, ToUuid(time, random1, random2).lsb)
         == random1 % 0x100_0000_0000
    ensures Random2Field(ToUuid(time, random1, random2).lsb) == random2 % 0x100_0000_0000
  {
    var u := ToUuid(time, random1, random2);
    FieldsOfValue(u, time % 0x1_0000_0000_0000, random1 % 0x100_0000_0000, random2 % 0x100_0000_0000);
  }

  // ---------------------------------------------------------------------
  // What the text denotes

  /** The Crockford rendering of x in w characters reads back as x modulo 32^w. */
  lemma {:induction false} CrockfordRendering(x: nat, w: nat)
    ensures var r := Transliterated(FixedDigits(x, w), ALPHABET_JAVA, ALPHABET_CROCKFORD);
      IsCrockford(r) && IsDecodable(r) && TextValue(r) == x % Pow32(w)
  {
    var f := FixedDigits(x, w);
    var r := Transliterated(f, ALPHABET_JAVA, ALPHABET_CROCKFORD);
    CanonicalToCrockford(f);
    CrockfordRoundTrip(f);
    assert forall i :: 0 <= i < |r| ==>
      TransliterateChar(r[i], ALPHABET_CROCKFORD, ALPHABET_JAVA) == f[i];
    FixedDigitsValue(x, w);
  }

  /** The time component reads back as the time it was made from. */
  lemma {:induction false} TimeComponentValue(time: Long)
    requires time < 0x4_0000_0000_0000
    ensures IsDecodable(ToTimeComponent(time)) && TextValue(ToTimeComponent(time)) == time
  {
    Pow32Values();
    PaddedDigits(time, 10);
    assert "0000000000" == Run('0', 10);
    CrockfordRendering(time, 10);
    DivModUnique(time, Pow32(10), 0, time);
  }

  /** The random component reads back as the low 80 bits of the pair of longs. */
  lemma {:induction false} RandomComponentValue(msb: Long, lsb: Long)
    ensures IsDecodable(ToRandomComponent(msb, lsb))
    ensures TextValue(ToRandomComponent(msb, lsb)) == (msb % 0x1_0000) * TWO_64 + lsb
  {
    var random1, random2 := Random1Field(msb, lsb), Random2Field(lsb);
    SplitArithmetic(msb, lsb);
    Pow32Values();
    PaddedDigits(random1, 8);
    PaddedDigits(random2, 8);
    assert "00000000" == Run('0', 8);
    CrockfordRendering(random1, 8);
    CrockfordRendering(random2, 8);
    DivModUnique(random1, Pow32(8), 0, random1);
    DivModUnique(random2, Pow32(8), 0, random2);
    var r1 := Transliterated(FixedDigits(random1, 8), ALPHABET_JAVA, ALPHABET_CROCKFORD);
    var r2 := Transliterated(FixedDigits(random2, 8), ALPHABET_JAVA, ALPHABET_CROCKFORD);
    assert ToRandomComponent(msb, lsb) == r1 + r2;
    DecodableAppend(r1, r2);
    TextValueAppend(r1, r2);
    var l, p := msb % 0x1_0000, lsb / 0x100_0000_0000;
    assert (l * 0x100_0000 + p) * 0x100_0000_0000 == l * TWO_64 + p * 0x100_0000_0000;
  }

  /** toString(msb, lsb) is a 26-character numeral whose value is msb * 2^64 + lsb. */
  lemma {:induction false} ToStringValue(msb: Long, lsb: Long)
    ensures IsDecodable(ToString(msb, lsb))
    ensures TextValue(ToString(msb, lsb)) == Uuid(msb, lsb).Value()
  {
    SplitArithmetic(msb, lsb);
    var t, r := ToTimeComponent(TimeField(msb)), ToRandomComponent(msb, lsb);
    TimeComponentValue(TimeField(msb));
    RandomComponentValue(msb, lsb);
    DecodableAppend(t, r);
    TextValueAppend(t, r);
    Pow32Wide();
    var h, l := msb / 0x1_0000, msb % 0x1_0000;
    assert msb * TWO_64 == h * 0x1_0000_0000_0000_0000_0000 + l * TWO_64;
  }

  // ---------------------------------------------------------------------
  // Crockford text as numerals

  /** Text over ALPHABET_CROCKFORD can be decoded, and decodes to canonical digits. */
  lemma {:induction false} CrockfordDecodable(t: string)
    requires IsCrockford(t)
    ensures IsDecodable(t) && IsCanonical(Transliterated(t, ALPHABET_CROCKFORD, ALPHABET_JAVA))
  {
    CrockfordToCanonical(t);
    assert forall i :: 0 <= i < |t| ==>
      Transliterated(t, ALPHABET_CROCKFORD, ALPHABET_JAVA)[i] == TransliterateChar(t[i], ALPHABET_CROCKFORD, ALPHABET_JAVA);
  }

  /** Crockford text of a fixed length is determined by its value. */
  lemma {:induction false} CrockfordTextInjective(a: string, b: string)
    requires IsCrockford(a) && IsCrockford(b) && |a| == |b|
    ensures IsDecodable(a) && IsDecodable(b)
    ensures TextValue(a) == TextValue(b) ==> a == b
  {
    CrockfordDecodable(a);
    CrockfordDecodable(b);
    var ca := Transliterated(a, ALPHABET_CROCKFORD, ALPHABET_JAVA);
    var cb := Transliterated(b, ALPHABET_CROCKFORD, ALPHABET_JAVA);
    FixedDigitsOfValue(ca);
    FixedDigitsOfValue(cb);
    AlphabetsDistinct();
    AlphabetJavaDigits();
    TransliterateInverse(a, ALPHABET_CROCKFORD, ALPHABET_JAVA);
    TransliterateInverse(b, ALPHABET_CROCKFORD, ALPHABET_JAVA);
  }

  /** The value of Crockford text split at its first symbol, whose weight is
      its index in ALPHABET_CROCKFORD. */
  lemma {:induction false} TextValueHead(a: string)
    requires IsCrockford(a) && |a| >= 1
    ensures FirstIndex(ALPHABET_CROCKFORD, a[0]) < 32
    ensures IsDecodable(a) && IsDecodable(a[1..])
    ensures TextValue(a) == FirstIndex(ALPHABET_CROCKFORD, a[0]) * Pow32(|a| - 1) + TextValue(a[1..])
  {
    var k := FirstIndex(ALPHABET_CROCKFORD, a[0]);
    assert a[0] in ALPHABET_CROCKFORD;
    CrockfordDecodable(a);
    TextValueHeadDigit(a);
    CrockfordToJava(k);
  }

  /** The symbols of ALPHABET_CROCKFORD compare as their indices do. */
  lemma {:induction false} CrockfordIndexOrder(c: char, d: char)
    requires c in ALPHABET_CROCKFORD && d in ALPHABET_CROCKFORD
    ensures c < d <==> FirstIndex(ALPHABET_CROCKFORD, c) < FirstIndex(ALPHABET_CROCKFORD, d)
  {
    CrockfordAscending();
  }

  lemma {:induction false} DigitOrder(i: nat, j: nat, x: nat, y: nat, p: nat)
    requires i < j && x < p
    ensures i * p + x < j * p + y
  {
    var d := j - i;
    assert j * p == i * p + d * p;
    assert d * p == p + (d - 1) * p;
  }

  /** Java's `a.compareTo(b) < 0`: the first differing character decides,
      and a proper prefix comes first. */
  predicate LexLess(a: string, b: string) {
    if a == [] then b != []
    else if b == [] then false
    else if a[0] != b[0] then a[0] < b[0]
    else LexLess(a[1..], b[1..])
  }

  /** Crockford text of one length sorts as the numbers it denotes. */
  lemma {:induction false} CrockfordOrder(a: string, b: string)
    requires IsCrockford(a) && IsCrockford(b) && |a| == |b|
    ensures IsDecodable(a) && IsDecodable(b)
    ensures LexLess(a, b) <==> TextValue(a) < TextValue(b)
    decreases |a|
  {
    CrockfordDecodable(a);
    CrockfordDecodable(b);
    if |a| > 0 {
      TextValueHead(a);
      TextValueHead(b);
      CrockfordOrder(a[1..], b[1..]);
      var ka, kb := FirstIndex(ALPHABET_CROCKFORD, a[0]), FirstIndex(ALPHABET_CROCKFORD, b[0]);
      var p := Pow32(|a| - 1);
      assert a[0] in ALPHABET_CROCKFORD && b[0] in ALPHABET_CROCKFORD;
      CrockfordIndexOrder(a[0], b[0]);
      CrockfordIndexOrder(b[0], a[0]);
      if a[0] < b[0] {
        DigitOrder(ka, kb, TextValue(a[1..]), TextValue(b[1..]), p);
      } else if b[0] < a[0] {
        DigitOrder(kb, ka, TextValue(b[1..]), TextValue(a[1..]), p);
      }
    }
  }

  // ---------------------------------------------------------------------
  // Round trips and order

  /** Decoding the text of a pair of longs gives the pair back. */
  lemma {:induction false} EncodeDecode(msb: Long, lsb: Long)
    ensures IsDecodable(ToString(msb, lsb)[..26])
    ensures FromString(ToString(msb, lsb)) == Uuid(msb, lsb)
  {
    var s := ToString(msb, lsb);
    ToStringValue(msb, lsb);
    assert s[..26] == s;
    var v := Uuid(msb, lsb).Value();
    ValueBound(Uuid(msb, lsb));
    DivModUnique(v, TWO_128, 0, v);
    ValueInjective(FromString(s), Uuid(msb, lsb));
  }

  /** The symbols '0'..'7' are the first eight of ALPHABET_CROCKFORD. */
  lemma {:induction false} LeadingSymbolIndex(c: char)
    requires c in ALPHABET_CROCKFORD
    ensures FirstIndex(ALPHABET_CROCKFORD, c) < 8 <==> '0' <= c <= '7'
  {
    var k := FirstIndex(ALPHABET_CROCKFORD, c);
    CrockfordLiterals();
    CrockfordAscending();
    if k < 8 {
      assert ALPHABET_CROCKFORD[0] <= ALPHABET_CROCKFORD[k] <= ALPHABET_CROCKFORD[7];
    } else {
      assert ALPHABET_CROCKFORD[8] <= ALPHABET_CROCKFORD[k];
    }
  }

  /** The symbols of ALPHABET_CROCKFORD at the indices the lemmas below name. */
  lemma CrockfordLiterals()
    ensures |ALPHABET_CROCKFORD| == 32
    ensures ALPHABET_CROCKFORD[0] == '0' && ALPHABET_CROCKFORD[7] == '7' && ALPHABET_CROCKFORD[8] == '8'
    ensures ALPHABET_CROCKFORD[18] == 'J' && ALPHABET_CROCKFORD[26] == 'T' && ALPHABET_CROCKFORD[27] == 'V'
    ensures ALPHABET_CROCKFORD[30] == 'Y' && ALPHABET_CROCKFORD[31] == 'Z'
  {
  }

  lemma {:induction false} HeadWeightBound(k: nat, rest: nat)
    requires rest < 0x2000_0000_0000_0000_0000_0000_0000_0000
    ensures k * 0x2000_0000_0000_0000_0000_0000_0000_0000 + rest < TWO_128 <==> k < 8
  {
    if k >= 8 {
      assert k * 0x2000_0000_0000_0000_0000_0000_0000_0000
          == 8 * 0x2000_0000_0000_0000_0000_0000_0000_0000 + (k - 8) * 0x2000_0000_0000_0000_0000_0000_0000_0000;
    }
  }

  /** The first symbol of a ULID's text carries its top bits: the texts whose
      value is below 2^128 are exactly those that start with '0'..'7'. */
  lemma {:induction false} LeadingSymbolBound(s: string)
    requires |s| == 26 && IsCrockford(s)
    ensures IsDecodable(s)
    ensures TextValue(s) < TWO_128 <==> '0' <= s[0] <= '7'
  {
    TextValueHead(s);
    Pow32Wide();
    assert s[0] in ALPHABET_CROCKFORD;
    LeadingSymbolIndex(s[0]);
    HeadWeightBound(FirstIndex(ALPHABET_CROCKFORD, s[0]), TextValue(s[1..]));
  }

  /** Encoding the decoded text gives the text back exactly when its first
      symbol is '0'..'7'; from '8' on, the time field's top bits are lost. */
  lemma {:induction false} DecodeEncode(s: string)
    requires |s| == 26 && IsCrockford(s)
    ensures IsDecodable(s[..26])
    ensures ToString(FromString(s).msb, FromString(s).lsb) == s <==> '0' <= s[0] <= '7'
  {
    assert s[..26] == s;
    LeadingSymbolBound(s);
    var u := FromString(s);
    var t := ToString(u.msb, u.lsb);
    ToStringValue(u.msb, u.lsb);
    CrockfordTextInjective(t, s);
    var v := TextValue(s);
    if v < TWO_128 {
      DivModUnique(v, TWO_128, 0, v);
    }
  }

  /** ULID texts sort as the 128-bit values they encode. */
  lemma {:induction false} TextOrder(msb1: Long, lsb1: Long, msb2: Long, lsb2: Long)
    ensures LexLess(ToString(msb1, lsb1), ToString(msb2, lsb2))
        <==> Uuid(msb1, lsb1).Value() < Uuid(msb2, lsb2).Value()
  {
    ToStringValue(msb1, lsb1);
    ToStringValue(msb2, lsb2);
    CrockfordOrder(ToString(msb1, lsb1), ToString(msb2, lsb2));
  }

  /** The first ten characters sort as the time fields do. */
  lemma {:induction false} TimePrefixOrder(msb1: Long, lsb1: Long, msb2: Long, lsb2: Long)
    ensures LexLess(ToString(msb1, lsb1)[..10], ToString(msb2, lsb2)[..10])
        <==> TimeField(msb1) < TimeField(msb2)
  {
    SplitArithmetic(msb1, lsb1);
    SplitArithmetic(msb2, lsb2);
    var t1, t2 := ToTimeComponent(TimeField(msb1)), ToTimeComponent(TimeField(msb2));
    assert ToString(msb1, lsb1)[..10] == t1;
    assert ToString(msb2, lsb2)[..10] == t2;
    TimeComponentValue(TimeField(msb1));
    TimeComponentValue(TimeField(msb2));
    CrockfordOrder(t1, t2);
  }

  // ---------------------------------------------------------------------
  // Particular texts

  /** A run of zeros is Crockford text of value 0. */
  lemma {:induction false} ZerosValue(n: nat)
    ensures IsCrockford(Run('0', n)) && IsDecodable(Run('0', n))
    ensures TextValue(Run('0', n)) == 0
  {
    FixedDigitsZero(n);
    JavaToCrockford('0');
    assert Transliterated(FixedDigits(0, n), ALPHABET_JAVA, ALPHABET_CROCKFORD) == Run('0', n);
    CrockfordRendering(0, n);
  }

  /** The last symbol, 'Z', is Crockford text of value 31. */
  lemma TopSymbolValue()
    ensures 'Z' in ALPHABET_CROCKFORD && IsCrockford(['Z']) && IsDecodable(['Z'])
    ensures TextValue(['Z']) == 31
  {
    CrockfordLiterals();
    assert ['Z'][0] == ALPHABET_CROCKFORD[31];
    CrockfordDecodable(['Z']);
    SymbolTextValue('Z');
    CrockfordToJava(31);
  }

  /** A run of 'Z', the last symbol, is Crockford text of value 32^n - 1. */
  lemma {:induction false} TopSymbolsValue(n: nat)
    ensures IsCrockford(Run('Z', n)) && IsDecodable(Run('Z', n))
    ensures TextValue(Run('Z', n)) == Pow32(n) - 1
  {
    TopSymbolValue();
    RunIsCrockford('Z', 'Z', n);
    CrockfordDecodable(Run('Z', n));
    if n > 0 {
      var p := Run('Z', n - 1);
      TopSymbolsValue(n - 1);
      TextValueAppend(p, ['Z']);
      var v, t := TextValue(p), TextValue(p + ['Z']);
      assert t == v * Pow32(1) + 31;
      AppendTopDigit(v, Pow32(n - 1), t, Pow32(1));
      assert Pow32(n) == 32 * Pow32(n - 1);
      assert t == TextValue(Run('Z', n));
    }
  }

  lemma {:induction false} AppendTopDigit(v: int, p: int, t: int, w: int)
    requires w == 32 && v == p - 1 && t == v * w + 31
    ensures t == 32 * p - 1
  {
  }

  /** The nil ULID is 26 zeros. */
  lemma NilText()
    ensures ToString(0, 0) == Run('0', 26)
  {
    ZerosValue(26);
    ToStringValue(0, 0);
    CrockfordTextInjective(ToString(0, 0), Run('0', 26));
  }

  /** '7' followed by 25 'Z' is Crockford text of value 2^128 - 1. */
  lemma MaxTextValue()
    ensures IsCrockford(['7'] + Run('Z', 25)) && IsDecodable(['7'] + Run('Z', 25))
    ensures TextValue(['7'] + Run('Z', 25)) == TWO_128 - 1
  {
    var m := ['7'] + Run('Z', 25);
    CrockfordLiterals();
    RunIsCrockford('7', 'Z', 25);
    assert m[0] == ALPHABET_CROCKFORD[7] && m[1..] == Run('Z', 25);
    TopSymbolsValue(25);
    AlphabetsDistinct();
    FirstIndexOfDistinct(ALPHABET_CROCKFORD, 7);
    TextValueHead(m);
    Pow32Wide();
  }

  /** The largest ULID, all 128 bits set, is '7' followed by 25 'Z'. */
  lemma MaxText()
    ensures ToString(0xffff_ffff_ffff_ffff, 0xffff_ffff_ffff_ffff) == ['7'] + Run('Z', 25)
  {
    MaxTextValue();
    ToStringValue(0xffff_ffff_ffff_ffff, 0xffff_ffff_ffff_ffff);
    CrockfordTextInjective(ToString(0xffff_ffff_ffff_ffff, 0xffff_ffff_ffff_ffff), ['7'] + Run('Z', 25));
  }

  /** Text whose value is a multiple of 2^128 decodes to the nil ULID. */
  lemma {:induction false} DecodesToNil(s: string)
    requires |s| == 26 && IsDecodable(s) && TextValue(s) % TWO_128 == 0
    ensures IsDecodable(s[..26]) && FromString(s) == Uuid(0, 0)
  {
    assert s[..26] == s;
    ValueInjective(FromString(s), Uuid(0, 0));
  }

  /** Decoding is not one to one: a leading '8' adds 2^128, which the two
      longs cannot hold, so it decodes like a leading '0'. */
  lemma OverflowCollision()
    ensures IsDecodable((['8'] + Run('0', 25))[..26]) && IsDecodable(Run('0', 26)[..26])
    ensures FromString(['8'] + Run('0', 25)) == FromString(Run('0', 26)) == Uuid(0, 0)
  {
    OverflowTextValue();
    ZerosValue(26);
    DivModUnique(TWO_128, TWO_128, 1, 0);
    DecodesToNil(['8'] + Run('0', 25));
    DecodesToNil(Run('0', 26));
  }

  /** '8' followed by 25 zeros is Crockford text of value 2^128. */
  lemma OverflowTextValue()
    ensures IsCrockford(['8'] + Run('0', 25)) && IsDecodable(['8'] + Run('0', 25))
    ensures TextValue(['8'] + Run('0', 25)) == TWO_128
  {
    var e := ['8'] + Run('0', 25);
    CrockfordLiterals();
    RunIsCrockford('8', '0', 25);
    assert e[0] == ALPHABET_CROCKFORD[8] && e[1..] == Run('0', 25);
    ZerosValue(25);
    AlphabetsDistinct();
    FirstIndexOfDistinct(ALPHABET_CROCKFORD, 8);
    TextValueHead(e);
    Pow32Wide();
  }

  /** Characters below '0', between 'T' and 'V', or above 'Z' are not in
      ALPHABET_CROCKFORD and pass through the transliteration unchanged. */
  lemma OutsideCrockford(c: char)
    requires c < '0' || 'T' < c < 'V' || 'Z' < c
    ensures TransliterateChar(c, ALPHABET_CROCKFORD, ALPHABET_JAVA) == c
  {
    CrockfordLiterals();
    CrockfordAscending();
    forall k | 0 <= k < 32
      ensures ALPHABET_CROCKFORD[k] != c
    {
      if k <= 26 {
        assert ALPHABET_CROCKFORD[0] <= ALPHABET_CROCKFORD[k] <= ALPHABET_CROCKFORD[26];
      } else {
        assert ALPHABET_CROCKFORD[27] <= ALPHABET_CROCKFORD[k] <= ALPHABET_CROCKFORD[31];
      }
    }
  }

  /** There is no alphabet check, but a character that passes through the
      transliteration and is no radix-32 digit either, such as 'w' or '!',
      leaves text that Long.parseUnsignedLong rejects. */
  lemma UnreadableCharacters()
    ensures !IsDecodable(['w']) && !IsDecodable(['!'])
  {
    assert !IsDecodable(['w']) by {
      OutsideCrockford('w');
      SingleUndecodable('w');
    }
    assert !IsDecodable(['!']) by {
      OutsideCrockford('!');
      SingleUndecodable('!');
    }
  }

  lemma {:induction false} SingleUndecodable(c: char)
    requires !IsDigit(TransliterateChar(c, ALPHABET_CROCKFORD, ALPHABET_JAVA))
    ensures !IsDecodable([c])
  {
    assert [c][0] == c;
  }

  /** Letters outside ALPHABET_CROCKFORD are not rejected: they pass through
      the transliteration and Character.digit reads them in radix 32, so 'U'
      counts 30 like 'Y', and lower-case 'j' counts 19 where 'J' counts 18. */
  lemma UnlistedLetters()
    ensures IsDecodable(['U']) && IsDecodable(['Y']) && TextValue(['U']) == TextValue(['Y']) == 30
    ensures IsDecodable(['j']) && IsDecodable(['J']) && TextValue(['j']) == 19 && TextValue(['J']) == 18
  {
    CrockfordLiterals();
    OutsideCrockford('U');
    OutsideCrockford('j');
    CrockfordToJava(30);
    CrockfordToJava(18);
    SingleDecodable('U');
    SingleDecodable('Y');
    SingleDecodable('j');
    SingleDecodable('J');
    SymbolTextValue('U');
    SymbolTextValue('Y');
    SymbolTextValue('j');
    SymbolTextValue('J');
  }

  lemma SingleDecodable(c: char)
    requires IsDigit(TransliterateChar(c, ALPHABET_CROCKFORD, ALPHABET_JAVA))
    ensures IsDecodable([c])
  {
    assert [c][0] == c;
  }

  /** A symbol followed by a run of one symbol is Crockford text. */
  lemma {:induction false} RunIsCrockford(c: char, d: char, n: nat)
    requires c in ALPHABET_CROCKFORD && d in ALPHABET_CROCKFORD
    ensures IsCrockford([c] + Run(d, n)) && IsCrockford(Run(d, n))
  {
    var t := [c] + Run(d, n);
    assert forall i :: 1 <= i < |t| ==> t[i] == d;
  }
}
