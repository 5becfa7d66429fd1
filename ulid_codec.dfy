/** The reference ULID codec kept beside the library's tests.

    A ULID is a 128-bit value held as two Java longs, the most and the least
    significant 64 bits, in the layout java.util.UUID uses.  Its text is 26
    characters of Crockford's base-32 alphabet: a 48-bit time field written
    in 10 characters, then two 40-bit random fields of 8 characters each. */
module UlidCodec {
  import opened JavaLong
  import opened Radix32
  import opened Transliteration

  const ALPHABET_CROCKFORD: string := "0123456789ABCDEFGHJKMNPQRSTVWXYZ"
  /** The digits Long.toUnsignedString and Long.parseUnsignedLong use in radix 32. */
  const ALPHABET_JAVA: string := "0123456789abcdefghijklmnopqrstuv"

  const MASK_16: Long := 0xffff
  const MASK_40: Long := 0xff_ffff_ffff
  const MASK_48: Long := 0xffff_ffff_ffff

  const TWO_128: int := 0x1_0000_0000_0000_0000_0000_0000_0000_0000

  /** A 128-bit value as java.util.UUID (and Ulid.of(msb, lsb)) holds it. */
  datatype Uuid = Uuid(msb: Long, lsb: Long) {
    /** The 128-bit number the two halves denote. */
    function Value(): nat {
      msb * TWO_64 + lsb
    }
  }

  predicate IsCrockford(s: string) {
    forall i :: 0 <= i < |s| ==> s[i] in ALPHABET_CROCKFORD
  }

  predicate IsCanonical(s: string) {
    forall i :: 0 <= i < |s| ==> IsCanonicalDigit(s[i])
  }

  // ---------------------------------------------------------------------
  // The two alphabets

  lemma AlphabetJavaDigits()
    ensures |ALPHABET_JAVA| == 32
    ensures forall d :: 0 <= d < 32 ==> ALPHABET_JAVA[d] == DigitChar(d)
  {
  }

  lemma {:induction false} CrockfordStep(i: nat, j: nat)
    requires i < j < 32
    ensures ALPHABET_CROCKFORD[i] < ALPHABET_CROCKFORD[j]
    decreases j - i
  {
    assert forall k :: 0 <= k < 31 ==> ALPHABET_CROCKFORD[k] < ALPHABET_CROCKFORD[k + 1];
    if i + 1 < j {
      CrockfordStep(i + 1, j);
    }
  }

  /** ALPHABET_CROCKFORD lists its 32 symbols in ascending character order. */
  lemma CrockfordAscending()
    ensures |ALPHABET_CROCKFORD| == 32
    ensures forall i, j :: 0 <= i < j < 32 ==> ALPHABET_CROCKFORD[i] < ALPHABET_CROCKFORD[j]
  {
    forall i, j | 0 <= i < j < 32
      ensures ALPHABET_CROCKFORD[i] < ALPHABET_CROCKFORD[j]
    {
      CrockfordStep(i, j);
    }
  }

  lemma AlphabetsDistinct()
    ensures Distinct(ALPHABET_JAVA) && Distinct(ALPHABET_CROCKFORD)
  {
    AlphabetJavaDigits();
    CrockfordAscending();
  }

  /** A canonical digit is sent to the Crockford symbol of the same value. */
  lemma {:induction false} JavaToCrockford(c: char)
    requires IsCanonicalDigit(c)
    ensures TransliterateChar(c, ALPHABET_JAVA, ALPHABET_CROCKFORD) == ALPHABET_CROCKFORD[DigitValue(c)]
  {
    var d := DigitValue(c);
    AlphabetsDistinct();
    AlphabetJavaDigits();
    CanonicalDigitRoundTrip(c);
    assert ALPHABET_JAVA[d] == c;
    FirstIndexOfDistinct(ALPHABET_JAVA, d);
    assert FirstIndex(ALPHABET_JAVA, c) == d;
  }

  /** A Crockford symbol is sent back to the canonical digit of its index. */
  lemma {:induction false} CrockfordToJava(k: nat)
    requires k < 32
    ensures TransliterateChar(ALPHABET_CROCKFORD[k], ALPHABET_CROCKFORD, ALPHABET_JAVA) == DigitChar(k)
  {
    AlphabetsDistinct();
    AlphabetJavaDigits();
    FirstIndexOfDistinct(ALPHABET_CROCKFORD, k);
    assert FirstIndex(ALPHABET_CROCKFORD, ALPHABET_CROCKFORD[k]) == k;
    assert ALPHABET_JAVA[k] == DigitChar(k);
  }

  /** Transliterating a canonical numeral to Crockford symbols keeps each digit's value. */
  lemma {:induction false} CanonicalToCrockford(t: string)
    requires IsCanonical(t)
    ensures IsCrockford(Transliterated(t, ALPHABET_JAVA, ALPHABET_CROCKFORD))
    ensures forall i :: 0 <= i < |t| ==>
      Transliterated(t, ALPHABET_JAVA, ALPHABET_CROCKFORD)[i] == ALPHABET_CROCKFORD[DigitValue(t[i])]
  {
    forall i | 0 <= i < |t|
      ensures Transliterated(t, ALPHABET_JAVA, ALPHABET_CROCKFORD)[i] == ALPHABET_CROCKFORD[DigitValue(t[i])]
    {
      JavaToCrockford(t[i]);
    }
  }

  /** Crockford text and canonical numerals correspond one to one. */
  lemma {:induction false} CrockfordRoundTrip(t: string)
    requires IsCanonical(t)
    ensures Transliterated(Transliterated(t, ALPHABET_JAVA, ALPHABET_CROCKFORD), ALPHABET_CROCKFORD, ALPHABET_JAVA) == t
  {
    AlphabetsDistinct();
    AlphabetJavaDigits();
    forall i | 0 <= i < |t|
      ensures t[i] in ALPHABET_JAVA
    {
      assert ALPHABET_JAVA[DigitValue(t[i])] == t[i];
    }
    TransliterateInverse(t, ALPHABET_JAVA, ALPHABET_CROCKFORD);
  }

  /** Crockford text transliterates to a canonical numeral. */
  lemma {:induction false} CrockfordToCanonical(t: string)
    requires IsCrockford(t)
    ensures IsCanonical(Transliterated(t, ALPHABET_CROCKFORD, ALPHABET_JAVA))
  {
    forall i | 0 <= i < |t|
      ensures IsCanonicalDigit(Transliterated(t, ALPHABET_CROCKFORD, ALPHABET_JAVA)[i])
    {
      AlphabetsDistinct();
      var k := FirstIndex(ALPHABET_CROCKFORD, t[i]);
      CrockfordToJava(k);
    }
  }

  // ---------------------------------------------------------------------
  // Splitting the two longs into the three fields, and packing them back

  /** The 48-bit time field: `msb >>> 16`. */
  function TimeField(msb: Long): Long {
    Ushr(msb, 16)
  }

  /** The first 40-bit random field: `((msb & 0xffffL) << 24) | (lsb >>> 40)`. */
  function Random1Field(msb: Long, lsb: Long): Long {
    Or(Shl(And(msb, MASK_16), 24), Ushr(lsb, 40))
  }

  /** The second 40-bit random field: `lsb & 0xffffffffffL`. */
  function Random2Field(lsb: Long): Long {
    And(lsb, MASK_40)
  }

  /** The most significant long rebuilt from the fields: `(time << 16) | (random1 >>> 24)`. */
  function HighWord(time: Long, random1: Long): Long {
    Or(Shl(time, 16), Ushr(random1, 24))
  }

  /** The least significant long rebuilt from the fields: `(random1 << 40) | (random2 & 0xffffffffffL)`. */
  function LowWord(random1: Long, random2: Long): Long {
    Or(Shl(random1, 40), And(random2, MASK_40))
  }

  /** The shifts the codec uses, in plain arithmetic. */
  lemma {:induction false} ShiftFacts(x: Long)
    ensures Ushr(x, 16) == x / 0x1_0000 && Ushr(x, 24) == x / 0x100_0000
    ensures Ushr(x, 40) == x / 0x100_0000_0000
    ensures Shl(x, 16) == (x % 0x1_0000_0000_0000) * 0x1_0000
    ensures Shl(x, 24) == (x % 0x100_0000_0000) * 0x100_0000
    ensures Shl(x, 40) == (x % 0x100_0000) * 0x100_0000_0000
  {
    Pow2Values();
    DivModUnique(x * 0x1_0000, TWO_64, x / 0x1_0000_0000_0000, (x % 0x1_0000_0000_0000) * 0x1_0000);
    DivModUnique(x * 0x100_0000, TWO_64, x / 0x100_0000_0000, (x % 0x100_0000_0000) * 0x100_0000);
    DivModUnique(x * 0x100_0000_0000, TWO_64, x / 0x100_0000, (x % 0x100_0000) * 0x100_0000_0000);
  }

  /** The masks the codec uses keep the low 16, 40 and 48 bits. */
  lemma {:induction false} MaskFacts(x: Long)
    ensures And(x, MASK_16) == x % 0x1_0000
    ensures And(x, MASK_40) == x % 0x100_0000_0000
    ensures And(x, MASK_48) == x % 0x1_0000_0000_0000
  {
    Pow2Values();
    BitAndLowMask(x, 16);
    BitAndLowMask(x, 40);
    BitAndLowMask(x, 48);
  }

  /** `x | y` adds x and y when the set bits of y all lie below bit k and x has none there. */
  lemma {:induction false} OrDisjoint(x: Long, y: Long, k: nat, scale: nat)
    requires k <= 64 && scale == Pow2(k) && x % scale == 0 && y < scale
    ensures Or(x, y) == x + y
  {
    BitOrDisjoint(x, y, k);
  }

  /** The fields in plain arithmetic: the high 48 bits, the next 40, the low 40. */
  lemma {:induction false} SplitArithmetic(msb: Long, lsb: Long)
    ensures TimeField(msb) == msb / 0x1_0000
    ensures Random1Field(msb, lsb) == (msb % 0x1_0000) * 0x100_0000 + lsb / 0x100_0000_0000
    ensures Random2Field(lsb) == lsb % 0x100_0000_0000
  {
    ShiftFacts(msb);
    ShiftFacts(lsb);
    MaskFacts(msb);
    MaskFacts(lsb);
    var a, h := msb % 0x1_0000, lsb / 0x100_0000_0000;
    ShiftFacts(a);
    DivModUnique(a, 0x100_0000_0000, 0, a);
    DivModUnique(a * 0x100_0000, 0x100_0000, a, 0);
    Pow2Values();
    OrDisjoint(a * 0x100_0000, h, 24, 0x100_0000);
  }

  /** The most significant long in plain arithmetic; `time << 16` keeps only the low 48 bits of time. */
  lemma {:induction false} HighWordArithmetic(time: Long, random1: Long)
    requires random1 < 0x100_0000_0000
    ensures HighWord(time, random1) == (time % 0x1_0000_0000_0000) * 0x1_0000 + random1 / 0x100_0000
  {
    ShiftFacts(time);
    ShiftFacts(random1);
    var t := time % 0x1_0000_0000_0000;
    DivModUnique(t * 0x1_0000, 0x1_0000, t, 0);
    Pow2Values();
    OrDisjoint(t * 0x1_0000, random1 / 0x100_0000, 16, 0x1_0000);
  }

  /** The least significant long in plain arithmetic. */
  lemma {:induction false} LowWordArithmetic(random1: Long, random2: Long)
    ensures LowWord(random1, random2) == (random1 % 0x100_0000) * 0x100_0000_0000 + random2 % 0x100_0000_0000
  {
    ShiftFacts(random1);
    MaskFacts(random2);
    var a := random1 % 0x100_0000;
    DivModUnique(a * 0x100_0000_0000, 0x100_0000_0000, a, 0);
    Pow2Values();
    OrDisjoint(a * 0x100_0000_0000, random2 % 0x100_0000_0000, 40, 0x100_0000_0000);
  }

  /** toUuid(time, random1, random2): masks the fields to 48, 40 and 40 bits
      and packs them into the two longs. */
  function ToUuid(time: Long, random1: Long, random2: Long): (u: Uuid)
    ensures u.Value() == (time % 0x1_0000_0000_0000) * 0x1_0000_0000_0000_0000_0000
                       + (random1 % 0x100_0000_0000) * 0x100_0000_0000
                       + random2 % 0x100_0000_0000
  {
    var tm := And(time, MASK_48);
    var r1 := And(random1, MASK_40);
    var r2 := And(random2, MASK_40);
    var msb := Or(Shl(tm, 16), Ushr(r1, 24));
    var lsb := Or(Shl(r1, 40), r2);
    ToUuidArithmetic(time, random1, random2);
    Uuid(msb, lsb)
  }

  lemma {:induction false} ToUuidArithmetic(time: Long, random1: Long, random2: Long)
    ensures var tm, r1, r2 := And(time, MASK_48), And(random1, MASK_40), And(random2, MASK_40);
      Uuid(Or(Shl(tm, 16), Ushr(r1, 24)), Or(Shl(r1, 40), r2)).Value()
        == (time % 0x1_0000_0000_0000) * 0x1_0000_0000_0000_0000_0000
         + (random1 % 0x100_0000_0000) * 0x100_0000_0000
         + random2 % 0x100_0000_0000
  {
    MaskFacts(time);
    MaskFacts(random1);
    MaskFacts(random2);
    var tm, r1, r2 := And(time, MASK_48), And(random1, MASK_40), And(random2, MASK_40);
    MaskFacts(r2);
    DivModUnique(r2, 0x100_0000_0000, 0, r2);
    assert Or(Shl(r1, 40), r2) == LowWord(r1, r2);
    PackedValue(tm, r1, r2);
  }

  /** The 128-bit value of three fields packed without loss. */
  lemma {:induction false} PackedValue(time: Long, random1: Long, random2: Long)
    requires time < 0x1_0000_0000_0000 && random1 < 0x100_0000_0000 && random2 < 0x100_0000_0000
    ensures Uuid(HighWord(time, random1), LowWord(random1, random2)).Value()
         == time * 0x1_0000_0000_0000_0000_0000 + random1 * 0x100_0000_0000 + random2
  {
    HighWordArithmetic(time, random1);
    LowWordArithmetic(random1, random2);
    var a, b := random1 / 0x100_0000, random1 % 0x100_0000;
    var hw, lw := HighWord(time, random1), LowWord(random1, random2);
    DivModUnique(time, 0x1_0000_0000_0000, 0, time);
    DivModUnique(random2, 0x100_0000_0000, 0, random2);
    assert hw == time * 0x1_0000 + a;
    assert lw == b * 0x100_0000_0000 + random2;
    assert random1 == a * 0x100_0000 + b;
    assert Uuid(hw, lw).Value() == hw * TWO_64 + lw;
    assert hw * TWO_64 == time * 0x1_0000_0000_0000_0000_0000 + a * TWO_64;
    assert a * TWO_64 + b * 0x100_0000_0000 == random1 * 0x100_0000_0000;
  }

  // ---------------------------------------------------------------------
  // Value to text

  /** `zeros.substring(0, zeros.length() - s.length()) + s`: the substring
      call throws unless s is at most as long as zeros. */
  function PadWithZeros(zeros: string, s: string): (r: string)
    requires |s| <= |zeros|
    ensures |r| == |zeros| && r[|zeros| - |s|..] == s
  {
    zeros[..|zeros| - |s|] + s
  }

  /** Left-padding the shortest numeral of x to w digits gives its w-digit rendering. */
  lemma {:induction false} PaddedDigits(x: Long, w: nat)
    requires w >= 1 && x < Pow32(w)
    ensures |ToUnsignedString(x)| <= w
    ensures PadWithZeros(Run('0', w), ToUnsignedString(x)) == FixedDigits(x, w)
    decreases x
  {
    ToUnsignedStringLength(x, w);
    if x < 32 {
      PaddedDigit(x, w);
    } else {
      var s, d := ToUnsignedString(x / 32), DigitChar(x % 32);
      ToUnsignedStringLength(x / 32, w - 1);
      PaddedDigits(x / 32, w - 1);
      assert ToUnsignedString(x) == s + [d];
      PadAppend(s, d, w);
    }
  }

  /** A single digit padded to w characters. */
  lemma {:induction false} PaddedDigit(x: Long, w: nat)
    requires w >= 1 && x < 32
    ensures PadWithZeros(Run('0', w), ToUnsignedString(x)) == FixedDigits(x, w)
  {
    var d := DigitChar(x);
    FixedDigitsZero(w - 1);
    assert FixedDigits(x, w) == Run('0', w - 1) + [d];
    assert ToUnsignedString(x) == [] + [d];
    PadAppend([], d, w);
  }

  /** Padding s followed by c to w characters is padding s to w - 1, then c. */
  lemma {:induction false} PadAppend(s: string, c: char, w: nat)
    requires |s| + 1 <= w
    ensures PadWithZeros(Run('0', w), s + [c]) == PadWithZeros(Run('0', w - 1), s) + [c]
  {
    assert Run('0', w)[..w - |s| - 1] == Run('0', w - 1)[..w - 1 - |s|];
  }

  /** toTimeComponent(time): the time field as 10 Crockford characters.
      Padding throws for a time of more than 10 digits, so time < 2^50. */
  function ToTimeComponent(time: Long): (r: string)
    requires time < 0x4_0000_0000_0000
    ensures |r| == 10 && IsCrockford(r)
  {
    var tzero := "0000000000";
    var tm := ToUnsignedString(time);
    Pow32Values();
    PaddedDigits(time, 10);
    assert tzero == Run('0', 10);
    var tm := PadWithZeros(tzero, tm);
    CanonicalToCrockford(tm);
    Transliterated(tm, ALPHABET_JAVA, ALPHABET_CROCKFORD)
  }

  /** toRandomComponent(msb, lsb): the two random fields as 8 + 8 Crockford characters. */
  function ToRandomComponent(msb: Long, lsb: Long): (r: string)
    ensures |r| == 16 && IsCrockford(r)
  {
    var zeros := "00000000";
    var random1 := Random1Field(msb, lsb);
    var random2 := Random2Field(lsb);
    SplitArithmetic(msb, lsb);
    Pow32Values();
    PaddedDigits(random1, 8);
    PaddedDigits(random2, 8);
    assert zeros == Run('0', 8);
    var r1 := PadWithZeros(zeros, ToUnsignedString(random1));
    var r2 := PadWithZeros(zeros, ToUnsignedString(random2));
    CanonicalToCrockford(r1);
    CanonicalToCrockford(r2);
    var r1 := Transliterated(r1, ALPHABET_JAVA, ALPHABET_CROCKFORD);
    var r2 := Transliterated(r2, ALPHABET_JAVA, ALPHABET_CROCKFORD);
    r1 + r2
  }

  /** toString(msb, lsb): the 26-character text of a ULID. */
  function ToString(msb: Long, lsb: Long): (r: string)
    ensures |r| == 26 && IsCrockford(r)
  {
    SplitArithmetic(msb, lsb);
    ToTimeComponent(TimeField(msb)) + ToRandomComponent(msb, lsb)
  }

  // ---------------------------------------------------------------------
  // Text to value

  /** Every character is read by Long.parseUnsignedLong once transliterated
      (a character outside ALPHABET_CROCKFORD passes through unchanged). */
  predicate IsDecodable(t: string) {
    forall i :: 0 <= i < |t| ==> IsDigit(TransliterateChar(t[i], ALPHABET_CROCKFORD, ALPHABET_JAVA))
  }

  /** The number the decoder reads a piece of text as. */
  function TextValue(t: string): nat
    requires IsDecodable(t)
  {
    DigitsValue(Transliterated(t, ALPHABET_CROCKFORD, ALPHABET_JAVA))
  }

  /** Modulo 2^128, the time field weighted 2^80 keeps only its low 48 bits. */
  lemma {:induction false} TruncateTime(time: nat, random1: nat, random2: nat)
    requires random1 < 0x100_0000_0000 && random2 < 0x100_0000_0000
    ensures (time * 0x1_0000_0000_0000_0000_0000 + random1 * 0x100_0000_0000 + random2) % TWO_128
         == (time % 0x1_0000_0000_0000) * 0x1_0000_0000_0000_0000_0000 + random1 * 0x100_0000_0000 + random2
  {
    var t, q := time % 0x1_0000_0000_0000, time / 0x1_0000_0000_0000;
    var rest := random1 * 0x100_0000_0000 + random2;
    assert random1 * 0x100_0000_0000 <= 0xff_ffff_ffff * 0x100_0000_0000;
    assert time == q * 0x1_0000_0000_0000 + t;
    assert time * 0x1_0000_0000_0000_0000_0000 == q * TWO_128 + t * 0x1_0000_0000_0000_0000_0000;
    DivModUnique(time * 0x1_0000_0000_0000_0000_0000 + rest, TWO_128, q,
                 t * 0x1_0000_0000_0000_0000_0000 + rest);
  }

  /** What decoding computes, in plain arithmetic: the 26 characters denote
      a 130-bit number, and the two bits above bit 127 are lost. */
  lemma {:induction false} DecodeArithmetic(time: Long, random1: Long, random2: Long)
    requires random1 < 0x100_0000_0000 && random2 < 0x100_0000_0000
    ensures Uuid(HighWord(time, random1), LowWord(random1, random2)).Value()
         == (time * 0x1_0000_0000_0000_0000_0000 + random1 * 0x100_0000_0000 + random2) % TWO_128
  {
    var t := time % 0x1_0000_0000_0000;
    HighWordArithmetic(time, random1);
    HighWordArithmetic(t, random1);
    DivModUnique(t, 0x1_0000_0000_0000, 0, t);
    assert HighWord(time, random1) == HighWord(t, random1);
    PackedValue(t, random1, random2);
    TruncateTime(time, random1, random2);
  }

  /** Decodable text transliterates to digits. */
  lemma {:induction false} DecodableDigits(t: string)
    requires IsDecodable(t)
    ensures forall i :: 0 <= i < |t| ==> IsDigit(Transliterated(t, ALPHABET_CROCKFORD, ALPHABET_JAVA)[i])
  {
  }

  /** A piece of decodable text is decodable. */
  lemma {:induction false} DecodableSlice(t: string, i: nat, j: nat)
    requires IsDecodable(t) && i <= j <= |t|
    ensures IsDecodable(t[i..j])
  {
    assert forall k :: 0 <= k < j - i ==> t[i..j][k] == t[i + k];
  }

  lemma {:induction false} DecodableAppend(a: string, b: string)
    requires IsDecodable(a) && IsDecodable(b)
    ensures IsDecodable(a + b)
  {
    forall i | 0 <= i < |a + b|
      ensures IsDigit(TransliterateChar((a + b)[i], ALPHABET_CROCKFORD, ALPHABET_JAVA))
    {
      if i >= |a| {
        assert (a + b)[i] == b[i - |a|];
      }
    }
  }

  /** The value of text split into two pieces. */
  lemma {:induction false} TextValueAppend(a: string, b: string)
    requires IsDecodable(a) && IsDecodable(b) && IsDecodable(a + b)
    ensures TextValue(a + b) == TextValue(a) * Pow32(|b|) + TextValue(b)
  {
    var ta := Transliterated(a, ALPHABET_CROCKFORD, ALPHABET_JAVA);
    var tb := Transliterated(b, ALPHABET_CROCKFORD, ALPHABET_JAVA);
    TransliteratedAppend(a, b, ALPHABET_CROCKFORD, ALPHABET_JAVA);
    DecodableDigits(a);
    DecodableDigits(b);
    DigitsValueAppend(ta, tb);
  }

  /** A string is its two pieces on either side of k. */
  lemma {:induction false} SplitAt(t: string, k: nat)
    requires k <= |t|
    ensures t == t[0..k] + t[k..|t|]
    ensures k == 1 ==> t[0..k] == [t[0]] && t[k..|t|] == t[1..]
  {
  }

  /** The value of a single decodable character. */
  lemma {:induction false} SymbolTextValue(c: char)
    requires IsDecodable([c])
    ensures IsDigit(TransliterateChar(c, ALPHABET_CROCKFORD, ALPHABET_JAVA))
    ensures TextValue([c]) == DigitValue(TransliterateChar(c, ALPHABET_CROCKFORD, ALPHABET_JAVA))
  {
    assert [c][0] == c;
    var ta := Transliterated([c], ALPHABET_CROCKFORD, ALPHABET_JAVA);
    assert ta[..0] == [];
  }

  /** The value of text split at its first character. */
  lemma {:induction false} TextValueHeadDigit(t: string)
    requires |t| >= 1 && IsDecodable(t)
    ensures IsDigit(TransliterateChar(t[0], ALPHABET_CROCKFORD, ALPHABET_JAVA)) && IsDecodable(t[1..])
    ensures TextValue(t) == DigitValue(TransliterateChar(t[0], ALPHABET_CROCKFORD, ALPHABET_JAVA)) * Pow32(|t| - 1)
                          + TextValue(t[1..])
  {
    var a, b := t[0..1], t[1..|t|];
    SplitAt(t, 1);
    DecodableSlice(t, 0, 1);
    DecodableSlice(t, 1, |t|);
    TextValueAppend(a, b);
    SymbolTextValue(t[0]);
  }

  /** The value of three consecutive pieces of 10, 8 and 8 characters. */
  lemma {:induction false} TextValueSplit(s: string)
    requires |s| == 26 && IsDecodable(s)
    ensures IsDecodable(s[0..10]) && IsDecodable(s[10..18]) && IsDecodable(s[18..26])
    ensures TextValue(s) == TextValue(s[0..10]) * 0x1_0000_0000_0000_0000_0000
                          + TextValue(s[10..18]) * 0x100_0000_0000 + TextValue(s[18..26])
  {
    DecodableSlice(s, 0, 10);
    DecodableSlice(s, 10, 18);
    DecodableSlice(s, 18, 26);
    DecodableSlice(s, 0, 18);
    SliceConcat(s, 0, 10, 18);
    TextValueAppend(s[0..10], s[10..18]);
    SliceConcat(s, 0, 18, 26);
    TextValueAppend(s[0..18], s[18..26]);
    Pow32Values();
    FieldWeights(TextValue(s[0..10]), TextValue(s[10..18]), TextValue(s[18..26]), TextValue(s[0..18]), TextValue(s));
  }

  lemma {:induction false} FieldWeights(a: int, b: int, c: int, ab: int, abc: int)
    requires ab == a * 0x100_0000_0000 + b && abc == ab * 0x100_0000_0000 + c
    ensures abc == a * 0x1_0000_0000_0000_0000_0000 + b * 0x100_0000_0000 + c
  {
  }

  lemma {:induction false} SliceConcat(s: string, i: nat, j: nat, k: nat)
    requires i <= j <= k <= |s|
    ensures s[i..k] == s[i..j] + s[j..k]
    ensures i == 0 && k == |s| ==> s == s[i..j] + s[j..k]
  {
  }

  /** The three fields of decodable text can each be read. */
  lemma {:induction false} FieldsDecodable(s: string)
    requires |s| >= 26 && IsDecodable(s[..26])
    ensures IsDecodable(s[0..10]) && IsDecodable(s[10..18]) && IsDecodable(s[18..26])
  {
    DecodableSlice(s[..26], 0, 10);
    DecodableSlice(s[..26], 10, 18);
    DecodableSlice(s[..26], 18, 26);
    assert s[0..10] == s[..26][0..10] && s[10..18] == s[..26][10..18] && s[18..26] == s[..26][18..26];
  }

  /** Packing the values of the three fields gives the value of the whole
      26-character text, less the two bits above bit 127. */
  lemma {:induction false} FieldsPackToValue(t: string, time: Long, random1: Long, random2: Long)
    requires |t| == 26 && IsDecodable(t)
    requires IsDecodable(t[0..10]) && IsDecodable(t[10..18]) && IsDecodable(t[18..26])
    requires time == TextValue(t[0..10])
    requires random1 == TextValue(t[10..18]) && random2 == TextValue(t[18..26])
    ensures Uuid(HighWord(time, random1), LowWord(random1, random2)).Value() == TextValue(t) % TWO_128
  {
    TextValueSplit(t);
    Pow32Values();
    DecodeArithmetic(time, random1, random2);
  }

  /** fromString(string): reads the three fields at [0,10), [10,18) and
      [18,26) and packs them into the two longs.  Characters past the 26th
      are ignored; the time field is not checked to fit in 48 bits. */
  function FromString(s: string): (u: Uuid)
    requires |s| >= 26 && IsDecodable(s[..26])
    ensures u.Value() == TextValue(s[..26]) % TWO_128
  {
    FieldsDecodable(s);
    DecodableDigits(s[0..10]);
    DecodableDigits(s[10..18]);
    DecodableDigits(s[18..26]);
    var tm := Transliterated(s[0..10], ALPHABET_CROCKFORD, ALPHABET_JAVA);
    var r1 := Transliterated(s[10..18], ALPHABET_CROCKFORD, ALPHABET_JAVA);
    var r2 := Transliterated(s[18..26], ALPHABET_CROCKFORD, ALPHABET_JAVA);
    var time := ParseUnsignedLong(tm);
    var random1 := ParseUnsignedLong(r1);
    var random2 := ParseUnsignedLong(r2);
    assert s[0..10] == s[..26][0..10] && s[10..18] == s[..26][10..18] && s[18..26] == s[..26][18..26];
    FieldsPackToValue(s[..26], time, random1, random2);
    Uuid(HighWord(time, random1), LowWord(random1, random2))
  }
}
