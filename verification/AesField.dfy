/** The field and the tables of AES as cr_aes.c computes them (sections 4 and 5 of FIPS 197). */
module AesField {

  /** Entry n of a table row. */
  function Pick(n: bv8, r0: bv8, r1: bv8, r2: bv8, r3: bv8, r4: bv8, r5: bv8, r6: bv8, r7: bv8,
                r8: bv8, r9: bv8, r10: bv8, r11: bv8, r12: bv8, r13: bv8, r14: bv8, r15: bv8): bv8 {
    if n & 8 == 0 then
      if n & 4 == 0 then
        if n & 2 == 0 then (if n & 1 == 0 then r0 else r1) else (if n & 1 == 0 then r2 else r3)
      else
        if n & 2 == 0 then (if n & 1 == 0 then r4 else r5) else (if n & 1 == 0 then r6 else r7)
    else
      if n & 4 == 0 then
        if n & 2 == 0 then (if n & 1 == 0 then r8 else r9) else (if n & 1 == 0 then r10 else r11)
      else
        if n & 2 == 0 then (if n & 1 == 0 then r12 else r13) else (if n & 1 == 0 then r14 else r15)
  }

  /** sbox, first half. */
  function LowerSBox(x: bv8): bv8 {
    var n := x & 0x0F;
    if x >> 4 == 0 then
      Pick(n, 0x63, 0x7c, 0x77, 0x7b, 0xf2, 0x6b, 0x6f, 0xc5,
           0x30, 0x01, 0x67, 0x2b, 0xfe, 0xd7, 0xab, 0x76)
    else if x >> 4 == 1 then
      Pick(n, 0xca, 0x82, 0xc9, 0x7d, 0xfa, 0x59, 0x47, 0xf0,
           0xad, 0xd4, 0xa2, 0xaf, 0x9c, 0xa4, 0x72, 0xc0)
    else if x >> 4 == 2 then
      Pick(n, 0xb7, 0xfd, 0x93, 0x26, 0x36, 0x3f, 0xf7, 0xcc,
           0x34, 0xa5, 0xe5, 0xf1, 0x71, 0xd8, 0x31, 0x15)
    else if x >> 4 == 3 then
      Pick(n, 0x04, 0xc7, 0x23, 0xc3, 0x18, 0x96, 0x05, 0x9a,
           0x07, 0x12, 0x80, 0xe2, 0xeb, 0x27, 0xb2, 0x75)
    else if x >> 4 == 4 then
      Pick(n, 0x09, 0x83, 0x2c, 0x1a, 0x1b, 0x6e, 0x5a, 0xa0,
           0x52, 0x3b, 0xd6, 0xb3, 0x29, 0xe3, 0x2f, 0x84)
    else if x >> 4 == 5 then
      Pick(n, 0x53, 0xd1, 0x00, 0xed, 0x20, 0xfc, 0xb1, 0x5b,
           0x6a, 0xcb, 0xbe, 0x39, 0x4a, 0x4c, 0x58, 0xcf)
    else if x >> 4 == 6 then
      Pick(n, 0xd0, 0xef, 0xaa, 0xfb, 0x43, 0x4d, 0x33, 0x85,
           0x45, 0xf9, 0x02, 0x7f, 0x50, 0x3c, 0x9f, 0xa8)
    else
      Pick(n, 0x51, 0xa3, 0x40, 0x8f, 0x92, 0x9d, 0x38, 0xf5,
           0xbc, 0xb6, 0xda, 0x21, 0x10, 0xff, 0xf3, 0xd2)
  }

  /** sbox, second half. */
  function UpperSBox(x: bv8): bv8 {
    var n := x & 0x0F;
    if x >> 4 == 8 then
      Pick(n, 0xcd, 0x0c, 0x13, 0xec, 0x5f, 0x97, 0x44, 0x17,
           0xc4, 0xa7, 0x7e, 0x3d, 0x64, 0x5d, 0x19, 0x73)
    else if x >> 4 == 9 then
      Pick(n, 0x60, 0x81, 0x4f, 0xdc, 0x22, 0x2a, 0x90, 0x88,
           0x46, 0xee, 0xb8, 0x14, 0xde, 0x5e, 0x0b, 0xdb)
    else if x >> 4 == 10 then
      Pick(n, 0xe0, 0x32, 0x3a, 0x0a, 0x49, 0x06, 0x24, 0x5c,
           0xc2, 0xd3, 0xac, 0x62, 0x91, 0x95, 0xe4, 0x79)
    else if x >> 4 == 11 then
      Pick(n, 0xe7, 0xc8, 0x37, 0x6d, 0x8d, 0xd5, 0x4e, 0xa9,
           0x6c, 0x56, 0xf4, 0xea, 0x65, 0x7a, 0xae, 0x08)
    else if x >> 4 == 12 then
      Pick(n, 0xba, 0x78, 0x25, 0x2e, 0x1c, 0xa6, 0xb4, 0xc6,
           0xe8, 0xdd, 0x74, 0x1f, 0x4b, 0xbd, 0x8b, 0x8a)
    else if x >> 4 == 13 then
      Pick(n, 0x70, 0x3e, 0xb5, 0x66, 0x48, 0x03, 0xf6, 0x0e,
           0x61, 0x35, 0x57, 0xb9, 0x86, 0xc1, 0x1d, 0x9e)
    else if x >> 4 == 14 then
      Pick(n, 0xe1, 0xf8, 0x98, 0x11, 0x69, 0xd9, 0x8e, 0x94,
           0x9b, 0x1e, 0x87, 0xe9, 0xce, 0x55, 0x28, 0xdf)
    else
      Pick(n, 0x8c, 0xa1, 0x89, 0x0d, 0xbf, 0xe6, 0x42, 0x68,
           0x41, 0x99, 0x2d, 0x0f, 0xb0, 0x54, 0xbb, 0x16)
  }

  /** rsbox, first half. */
  function LowerRSBox(x: bv8): bv8 {
    var n := x & 0x0F;
    if x >> 4 == 0 then
      Pick(n, 0x52, 0x09, 0x6a, 0xd5, 0x30, 0x36, 0xa5, 0x38,
           0xbf, 0x40, 0xa3, 0x9e, 0x81, 0xf3, 0xd7, 0xfb)
    else if x >> 4 == 1 then
      Pick(n, 0x7c, 0xe3, 0x39, 0x82, 0x9b, 0x2f, 0xff, 0x87,
           0x34, 0x8e, 0x43, 0x44, 0xc4, 0xde, 0xe9, 0xcb)
    else if x >> 4 == 2 then
      Pick(n, 0x54, 0x7b, 0x94, 0x32, 0xa6, 0xc2, 0x23, 0x3d,
           0xee, 0x4c, 0x95, 0x0b, 0x42, 0xfa, 0xc3, 0x4e)
    else if x >> 4 == 3 then
      Pick(n, 0x08, 0x2e, 0xa1, 0x66, 0x28, 0xd9, 0x24, 0xb2,
           0x76, 0x5b, 0xa2, 0x49, 0x6d, 0x8b, 0xd1, 0x25)
    else if x >> 4 == 4 then
      Pick(n, 0x72, 0xf8, 0xf6, 0x64, 0x86, 0x68, 0x98, 0x16,
           0xd4, 0xa4, 0x5c, 0xcc, 0x5d, 0x65, 0xb6, 0x92)
    else if x >> 4 == 5 then
      Pick(n, 0x6c, 0x70, 0x48, 0x50, 0xfd, 0xed, 0xb9, 0xda,
           0x5e, 0x15, 0x46, 0x57, 0xa7, 0x8d, 0x9d, 0x84)
    else if x >> 4 == 6 then
      Pick(n, 0x90, 0xd8, 0xab, 0x00, 0x8c, 0xbc, 0xd3, 0x0a,
           0xf7, 0xe4, 0x58, 0x05, 0xb8, 0xb3, 0x45, 0x06)
    else
      Pick(n, 0xd0, 0x2c, 0x1e, 0x8f, 0xca, 0x3f, 0x0f, 0x02,
           0xc1, 0xaf, 0xbd, 0x03, 0x01, 0x13, 0x8a, 0x6b)
  }

  /** rsbox, second half. */
  function UpperRSBox(x: bv8): bv8 {
    var n := x & 0x0F;
    if x >> 4 == 8 then
      Pick(n, 0x3a, 0x91, 0x11, 0x41, 0x4f, 0x67, 0xdc, 0xea,
           0x97, 0xf2, 0xcf, 0xce, 0xf0, 0xb4, 0xe6, 0x73)
    else if x >> 4 == 9 then
      Pick(n, 0x96, 0xac, 0x74, 0x22, 0xe7, 0xad, 0x35, 0x85,
           0xe2, 0xf9, 0x37, 0xe8, 0x1c, 0x75, 0xdf, 0x6e)
    else if x >> 4 == 10 then
      Pick(n, 0x47, 0xf1, 0x1a, 0x71, 0x1d, 0x29, 0xc5, 0x89,
           0x6f, 0xb7, 0x62, 0x0e, 0xaa, 0x18, 0xbe, 0x1b)
    else if x >> 4 == 11 then
      Pick(n, 0xfc, 0x56, 0x3e, 0x4b, 0xc6, 0xd2, 0x79, 0x20,
           0x9a, 0xdb, 0xc0, 0xfe, 0x78, 0xcd, 0x5a, 0xf4)
    else if x >> 4 == 12 then
      Pick(n, 0x1f, 0xdd, 0xa8, 0x33, 0x88, 0x07, 0xc7, 0x31,
           0xb1, 0x12, 0x10, 0x59, 0x27, 0x80, 0xec, 0x5f)
    else if x >> 4 == 13 then
      Pick(n, 0x60, 0x51, 0x7f, 0xa9, 0x19, 0xb5, 0x4a, 0x0d,
           0x2d, 0xe5, 0x7a, 0x9f, 0x93, 0xc9, 0x9c, 0xef)
    else if x >> 4 == 14 then
      Pick(n, 0xa0, 0xe0, 0x3b, 0x4d, 0xae, 0x2a, 0xf5, 0xb0,
           0xc8, 0xeb, 0xbb, 0x3c, 0x83, 0x53, 0x99, 0x61)
    else
      Pick(n, 0x17, 0x2b, 0x04, 0x7e, 0xba, 0x77, 0xd6, 0x26,
           0xe1, 0x69, 0x14, 0x63, 0x55, 0x21, 0x0c, 0x7d)
  }

  /** getSBoxValue */
  function SBox(x: bv8): bv8 {
    if x < 0x80 then LowerSBox(x) else UpperSBox(x)
  }

  /** getSBoxInvert */
  function RSBox(x: bv8): bv8 {
    if x < 0x80 then LowerRSBox(x) else UpperRSBox(x)
  }

  lemma LowerToLower(x: bv8)
    requires x < 0x80 && LowerSBox(x) < 0x80
    ensures LowerRSBox(LowerSBox(x)) == x
  {
  }

  lemma LowerToUpper(x: bv8)
    requires x < 0x80 && LowerSBox(x) >= 0x80
    ensures UpperRSBox(LowerSBox(x)) == x
  {
  }

  lemma UpperToLower(x: bv8)
    requires x >= 0x80 && UpperSBox(x) < 0x80
    ensures LowerRSBox(UpperSBox(x)) == x
  {
  }

  lemma UpperToUpper(x: bv8)
    requires x >= 0x80 && UpperSBox(x) >= 0x80
    ensures UpperRSBox(UpperSBox(x)) == x
  {
  }

  /** The inverse table undoes the table for every byte. */
  lemma SubstitutionInverts(x: bv8)
    ensures RSBox(SBox(x)) == x
  {
    hide LowerSBox, UpperSBox, LowerRSBox, UpperRSBox;
    if x < 0x80 {
      if LowerSBox(x) < 0x80 { LowerToLower(x); } else { LowerToUpper(x); }
    } else {
      if UpperSBox(x) < 0x80 { UpperToLower(x); } else { UpperToUpper(x); }
    }
  }

  function XTime(x: bv8): bv8 {
    (x << 1) ^ (((x >> 7) & 1) * 0x1b)
  }

  /** x times the n-th power of the polynomial x of section 4.2 of FIPS 197. */
  function Power(x: bv8, n: nat): bv8 {
    if n == 0 then x else XTime(Power(x, n - 1))
  }

  /** Below the degree of the field polynomial multiplication is a shift. */
  lemma DoublesSmall(x: bv8)
    requires x < 0x80
    ensures XTime(x) == 2 * x
  {
  }

  /** The field polynomial of section 4.2 of FIPS 197: x^8 = x^4 + x^3 + x + 1. */
  lemma FieldPolynomial(x: bv8)
    ensures Power(x, 8) == Plus4(Power(x, 4), Power(x, 3), Power(x, 1), Power(x, 0))
  {
    hide XTime, Plus4;
    PowersAre(x);
    Reduced(x);
  }

  lemma Reduced(x: bv8)
    ensures XTime(XTime(XTime(XTime(XTime(XTime(XTime(XTime(x))))))))
         == Plus4(XTime(XTime(XTime(XTime(x)))), XTime(XTime(XTime(x))), XTime(x), x)
  {
  }

  lemma PowersAre(x: bv8)
    ensures Power(x, 0) == x && Power(x, 1) == XTime(x) && Power(x, 3) == XTime(XTime(XTime(x)))
    ensures Power(x, 4) == XTime(Power(x, 3))
    ensures Power(x, 8) == XTime(XTime(XTime(XTime(Power(x, 4)))))
  {
    assert Power(x, 2) == XTime(Power(x, 1));
    assert Power(x, 6) == XTime(Power(x, 5)) == XTime(XTime(Power(x, 4)));
    assert Power(x, 8) == XTime(Power(x, 7)) == XTime(XTime(Power(x, 6)));
  }

  function Multiply(x: bv8, y: bv8): bv8 {
    ((y & 1) * x) ^
    (((y >> 1) & 1) * XTime(x)) ^
    (((y >> 2) & 1) * XTime(XTime(x))) ^
    (((y >> 3) & 1) * XTime(XTime(XTime(x)))) ^
    (((y >> 4) & 1) * XTime(XTime(XTime(XTime(x)))))
  }

  /** Addition in the field. */
  function Plus(x: bv8, y: bv8): bv8 {
    x ^ y
  }

  function Plus4(w: bv8, x: bv8, y: bv8, z: bv8): bv8 {
    Plus(Plus(w, x), Plus(y, z))
  }

  lemma XTimeIsLinear(x: bv8, y: bv8)
    ensures XTime(Plus(x, y)) == Plus(XTime(x), XTime(y))
  {
  }

  lemma Exchange(w: bv8, x: bv8, y: bv8, z: bv8)
    ensures Plus(Plus(w, x), Plus(y, z)) == Plus(Plus(w, y), Plus(x, z))
  {
    assert (w ^ x) ^ (y ^ z) == (w ^ y) ^ (x ^ z);
  }

  // ---------- what the S-box is (section 5.1.1 of FIPS 197) ----------

  /** The affine step of the S-box taken back. */
  function Unaffine(s: bv8): bv8 {
    ((s << 1) | (s >> 7)) ^ ((s << 3) | (s >> 5)) ^ ((s << 6) | (s >> 2)) ^ 0x05
  }

  /** The affine step of the S-box: the sum of five rotations and 0x63. */
  function Affine(b: bv8): bv8 {
    b ^ ((b << 1) | (b >> 7)) ^ ((b << 2) | (b >> 6)) ^ ((b << 3) | (b >> 5)) ^ ((b << 4) | (b >> 4)) ^ 0x63
  }

  function Triple(x: bv8): bv8 {
    Plus(XTime(x), x)
  }

  lemma LowerThenLower(x: bv8)
    requires x < 0x80 && Triple(x) < 0x80
    ensures Triple(Unaffine(LowerSBox(Triple(x)))) == Unaffine(LowerSBox(x))
  {
    if x < 0x20 {
    } else {
      assert x < 0x40;
    }
  }

  lemma LowerThenUpper(x: bv8)
    requires x < 0x80 && Triple(x) >= 0x80
    ensures Triple(Unaffine(UpperSBox(Triple(x)))) == Unaffine(LowerSBox(x))
  {
  }

  lemma UpperThenLower(x: bv8)
    requires x >= 0x80 && Triple(x) < 0x80
    ensures Triple(Unaffine(LowerSBox(Triple(x)))) == Unaffine(UpperSBox(x))
  {
  }

  lemma UpperThenUpper(x: bv8)
    requires x >= 0x80 && Triple(x) >= 0x80
    ensures Triple(Unaffine(UpperSBox(Triple(x)))) == Unaffine(UpperSBox(x))
  {
    if x < 0xa0 {
    } else {
      assert x < 0xc0;
    }
  }

  lemma AffineIsTakenBack(s: bv8)
    ensures Affine(Unaffine(s)) == s
  {
  }

  /**
    The S-box is the affine step behind a map I with I(0) = 0, I(1) = 1 and 3 I(3x) = I(x). As every byte but 0
    is a power of 3, I is the inverse in the field.
    */
  lemma SubstitutionIsInverse(x: bv8)
    ensures SBox(x) == Affine(Unaffine(SBox(x)))
    ensures Unaffine(SBox(0)) == 0 && Unaffine(SBox(1)) == 1
    ensures Triple(Unaffine(SBox(Triple(x)))) == Unaffine(SBox(x))
  {
    hide LowerSBox, UpperSBox, Affine, Unaffine, Triple;
    AffineIsTakenBack(SBox(x));
    EndsOfInverse();
    if x < 0x80 {
      if Triple(x) < 0x80 { LowerThenLower(x); } else { LowerThenUpper(x); }
    } else {
      if Triple(x) < 0x80 { UpperThenLower(x); } else { UpperThenUpper(x); }
    }
  }

  lemma EndsOfInverse()
    ensures Unaffine(SBox(0)) == 0 && Unaffine(SBox(1)) == 1
  {
  }

  /** The factors of InvMixColumns. */
  predicate IsFactor(k: bv8) {
    k == 0x0e || k == 0x0b || k == 0x0d || k == 0x09
  }

  lemma Multiples(x: bv8)
    ensures Multiply(x, 0x0e) == Plus(Plus(XTime(x), XTime(XTime(x))), XTime(XTime(XTime(x))))
    ensures Multiply(x, 0x0b) == Plus(Plus(x, XTime(x)), XTime(XTime(XTime(x))))
    ensures Multiply(x, 0x0d) == Plus(Plus(x, XTime(XTime(x))), XTime(XTime(XTime(x))))
    ensures Multiply(x, 0x09) == Plus(x, XTime(XTime(XTime(x))))
  {
  }

  lemma MultiplyIsLinear(x: bv8, y: bv8, k: bv8)
    requires IsFactor(k)
    ensures Multiply(Plus(x, y), k) == Plus(Multiply(x, k), Multiply(y, k))
  {
    hide XTime, Plus, Multiply;
    Multiples(x);
    Multiples(y);
    Multiples(Plus(x, y));
    var x2, y2 := XTime(x), XTime(y);
    var x4, y4 := XTime(x2), XTime(y2);
    var x8, y8 := XTime(x4), XTime(y4);
    XTimeIsLinear(x, y);
    XTimeIsLinear(x2, y2);
    XTimeIsLinear(x4, y4);
    Exchange(x2, y2, x4, y4);
    Exchange(x, y, x2, y2);
    Exchange(x, y, x4, y4);
    Exchange(x, y, x8, y8);
    Exchange(Plus(x2, x4), Plus(y2, y4), x8, y8);
    Exchange(Plus(x, x2), Plus(y, y2), x8, y8);
    Exchange(Plus(x, x4), Plus(y, y4), x8, y8);
  }

  lemma MultiplySum(w: bv8, x: bv8, y: bv8, z: bv8, k: bv8)
    requires IsFactor(k)
    ensures Multiply(Plus4(w, x, y, z), k) == Plus4(Multiply(w, k), Multiply(x, k), Multiply(y, k), Multiply(z, k))
  {
    hide Multiply, Plus, IsFactor;
    MultiplyIsLinear(Plus(w, x), Plus(y, z), k);
    MultiplyIsLinear(w, x, k);
    MultiplyIsLinear(y, z, k);
  }

  // ---------- columns ----------

  /** One byte of MixColumns: 2a + 3b + c + d in the field (section 5.1.3 of FIPS 197). */
  function Mix(a: bv8, b: bv8, c: bv8, d: bv8): bv8 {
    Plus4(XTime(a), Triple(b), c, d)
  }

  /** One byte of InvMixColumns: 14a + 11b + 13c + 9d (section 5.3.3 of FIPS 197). */
  function InvMix(a: bv8, b: bv8, c: bv8, d: bv8): bv8 {
    Plus4(Multiply(a, 0x0e), Multiply(b, 0x0b), Multiply(c, 0x0d), Multiply(d, 0x09))
  }

  lemma Rotate(w: bv8, x: bv8, y: bv8, z: bv8)
    ensures Plus4(w, x, y, z) == Plus4(z, w, x, y)
  {
    hide Plus;
    Commute(Plus(w, x), Plus(y, z));
    Commute(y, z);
    Exchange(z, y, w, x);
    Commute(y, x);
  }

  lemma AddRows(x0: bv8, x1: bv8, x2: bv8, x3: bv8, y0: bv8, y1: bv8, y2: bv8, y3: bv8)
    ensures Plus(Plus4(x0, x1, x2, x3), Plus4(y0, y1, y2, y3)) ==
            Plus4(Plus(x0, y0), Plus(x1, y1), Plus(x2, y2), Plus(x3, y3))
  {
    hide Plus;
    Exchange(Plus(x0, x1), Plus(x2, x3), Plus(y0, y1), Plus(y2, y3));
    Exchange(x0, x1, y0, y1);
    Exchange(x2, x3, y2, y3);
  }

  /** A sum over rows is the sum over columns. */
  lemma Transpose(w0: bv8, w1: bv8, w2: bv8, w3: bv8, x0: bv8, x1: bv8, x2: bv8, x3: bv8,
                  y0: bv8, y1: bv8, y2: bv8, y3: bv8, z0: bv8, z1: bv8, z2: bv8, z3: bv8)
    ensures Plus4(Plus4(w0, w1, w2, w3), Plus4(x0, x1, x2, x3), Plus4(y0, y1, y2, y3), Plus4(z0, z1, z2, z3)) ==
            Plus4(Plus4(w0, x0, y0, z0), Plus4(w1, x1, y1, z1), Plus4(w2, x2, y2, z2), Plus4(w3, x3, y3, z3))
  {
    hide Plus;
    AddRows(w0, w1, w2, w3, x0, x1, x2, x3);
    AddRows(y0, y1, y2, y3, z0, z1, z2, z3);
    AddRows(Plus(w0, x0), Plus(w1, x1), Plus(w2, x2), Plus(w3, x3),
            Plus(y0, z0), Plus(y1, z1), Plus(y2, z2), Plus(y3, z3));
  }

  /** Mixing distributes over addition. */
  lemma MixSums(a: bv8, b: bv8, c: bv8, d: bv8, e: bv8, f: bv8, g: bv8, h: bv8)
    ensures Mix(Plus(a, e), Plus(b, f), Plus(c, g), Plus(d, h)) == Plus(Mix(a, b, c, d), Mix(e, f, g, h))
  {
    hide XTime, Plus;
    XTimeIsLinear(a, e);
    XTimeIsLinear(b, f);
    Exchange(XTime(b), XTime(f), b, f);
    AddRows(XTime(a), Triple(b), c, d, XTime(e), Triple(f), g, h);
  }

  lemma MixUnit(x: bv8)
    ensures Mix(x, 0, 0, 0) == XTime(x) && Mix(0, x, 0, 0) == Triple(x)
    ensures Mix(0, 0, x, 0) == x && Mix(0, 0, 0, x) == x
  {
  }

  /** The multiples of 3x in terms of those of x. */
  lemma TripleDoubles(x: bv8)
    ensures XTime(Triple(x)) == Triple(XTime(x))
  {
    hide XTime, Plus;
    XTimeIsLinear(XTime(x), x);
  }

  // What each byte of a column contributes to the first byte of its image under both steps.
  lemma FirstStays(a: bv8)
    ensures Plus4(Multiply(XTime(a), 0x0e), Multiply(a, 0x0b), Multiply(a, 0x0d), Multiply(Triple(a), 0x09)) == a
  {
    hide XTime, Multiply, Plus, Plus4;
    var a2 := XTime(a);
    var a4 := XTime(a2);
    var a8 := XTime(a4);
    Multiples(a2);
    Multiples(a);
    Multiples(Triple(a));
    TripleDoubles(a);
    TripleDoubles(a2);
    TripleDoubles(a4);
    FirstCancels(a, a2, a4, a8, XTime(a8));
  }

  lemma FirstCancels(x: bv8, x2: bv8, x4: bv8, x8: bv8, x16: bv8)
    ensures Plus4(Plus(Plus(x4, x8), x16), Plus(Plus(x, x2), x8),
                  Plus(Plus(x, x4), x8), Plus(Plus(x2, x), Plus(x16, x8))) == x
  {
    assert (((x4 ^ x8) ^ x16) ^ ((x ^ x2) ^ x8)) ^ (((x ^ x4) ^ x8) ^ ((x2 ^ x) ^ (x16 ^ x8))) == x;
  }

  lemma SecondVanishes(b: bv8)
    ensures Plus4(Multiply(Triple(b), 0x0e), Multiply(XTime(b), 0x0b), Multiply(b, 0x0d), Multiply(b, 0x09)) == 0
  {
    hide XTime, Multiply, Plus, Plus4;
    var b2 := XTime(b);
    var b4 := XTime(b2);
    var b8 := XTime(b4);
    Multiples(b2);
    Multiples(b);
    Multiples(Triple(b));
    TripleDoubles(b);
    TripleDoubles(b2);
    TripleDoubles(b4);
    SecondCancels(b, b2, b4, b8, XTime(b8));
  }

  lemma SecondCancels(x: bv8, x2: bv8, x4: bv8, x8: bv8, x16: bv8)
    ensures Plus4(Plus(Plus(Plus(x4, x2), Plus(x8, x4)), Plus(x16, x8)), Plus(Plus(x2, x4), x16),
                  Plus(Plus(x, x4), x8), Plus(x, x8)) == 0
  {
    assert ((((x4 ^ x2) ^ (x8 ^ x4)) ^ (x16 ^ x8)) ^ ((x2 ^ x4) ^ x16)) ^ (((x ^ x4) ^ x8) ^ (x ^ x8)) == 0;
  }

  lemma ThirdVanishes(c: bv8)
    ensures Plus4(Multiply(c, 0x0e), Multiply(Triple(c), 0x0b), Multiply(XTime(c), 0x0d), Multiply(c, 0x09)) == 0
  {
    hide XTime, Multiply, Plus, Plus4;
    var c2 := XTime(c);
    var c4 := XTime(c2);
    var c8 := XTime(c4);
    Multiples(c2);
    Multiples(c);
    Multiples(Triple(c));
    TripleDoubles(c);
    TripleDoubles(c2);
    TripleDoubles(c4);
    ThirdCancels(c, c2, c4, c8, XTime(c8));
  }

  lemma ThirdCancels(x: bv8, x2: bv8, x4: bv8, x8: bv8, x16: bv8)
    ensures Plus4(Plus(Plus(x2, x4), x8), Plus(Plus(Plus(x2, x), Plus(x4, x2)), Plus(x16, x8)),
                  Plus(Plus(x2, x8), x16), Plus(x, x8)) == 0
  {
    assert (((x2 ^ x4) ^ x8) ^ (((x2 ^ x) ^ (x4 ^ x2)) ^ (x16 ^ x8))) ^ (((x2 ^ x8) ^ x16) ^ (x ^ x8)) == 0;
  }

  lemma FourthVanishes(d: bv8)
    ensures Plus4(Multiply(d, 0x0e), Multiply(d, 0x0b), Multiply(Triple(d), 0x0d), Multiply(XTime(d), 0x09)) == 0
  {
    hide XTime, Multiply, Plus, Plus4;
    var d2 := XTime(d);
    var d4 := XTime(d2);
    var d8 := XTime(d4);
    Multiples(d2);
    Multiples(d);
    Multiples(Triple(d));
    TripleDoubles(d);
    TripleDoubles(d2);
    TripleDoubles(d4);
    FourthCancels(d, d2, d4, d8, XTime(d8));
  }

  lemma FourthCancels(x: bv8, x2: bv8, x4: bv8, x8: bv8, x16: bv8)
    ensures Plus4(Plus(Plus(x2, x4), x8), Plus(Plus(x, x2), x8),
                  Plus(Plus(Plus(x2, x), Plus(x8, x4)), Plus(x16, x8)), Plus(x2, x16)) == 0
  {
    assert (((x2 ^ x4) ^ x8) ^ ((x ^ x2) ^ x8)) ^ ((((x2 ^ x) ^ (x8 ^ x4)) ^ (x16 ^ x8)) ^ (x2 ^ x16)) == 0;
  }

  lemma OnlyFirst(a: bv8)
    ensures Plus4(a, 0, 0, 0) == a
  {
  }

  /** InvMixColumns undoes MixColumns, byte by byte. */
  lemma MixInverts(a: bv8, b: bv8, c: bv8, d: bv8)
    ensures InvMix(Mix(a, b, c, d), Mix(b, c, d, a), Mix(c, d, a, b), Mix(d, a, b, c)) == a
  {
    hide XTime, Plus, Plus4, Triple, Multiply;
    Rotate(XTime(b), Triple(c), d, a);
    Rotate(b, XTime(c), Triple(d), a);
    Rotate(XTime(c), Triple(d), a, b);
    Rotate(Triple(a), b, c, XTime(d));
    MultiplySum(XTime(a), Triple(b), c, d, 0x0e);
    MultiplySum(a, XTime(b), Triple(c), d, 0x0b);
    MultiplySum(a, b, XTime(c), Triple(d), 0x0d);
    MultiplySum(Triple(a), b, c, XTime(d), 0x09);
    Transpose(Multiply(XTime(a), 0x0e), Multiply(Triple(b), 0x0e), Multiply(c, 0x0e), Multiply(d, 0x0e),
              Multiply(a, 0x0b), Multiply(XTime(b), 0x0b), Multiply(Triple(c), 0x0b), Multiply(d, 0x0b),
              Multiply(a, 0x0d), Multiply(b, 0x0d), Multiply(XTime(c), 0x0d), Multiply(Triple(d), 0x0d),
              Multiply(Triple(a), 0x09), Multiply(b, 0x09), Multiply(c, 0x09), Multiply(XTime(d), 0x09));
    FirstStays(a);
    SecondVanishes(b);
    ThirdVanishes(c);
    FourthVanishes(d);
    OnlyFirst(a);
  }

  /** The way the code computes the bytes of MixColumns: one doubling each and the sum of the column. */
  lemma MixWithOneDoubling(a: bv8, b: bv8, c: bv8, d: bv8)
    ensures var sum := Plus(Plus(Plus(a, b), c), d);
            && Plus(a, Plus(XTime(Plus(a, b)), sum)) == Mix(a, b, c, d)
            && Plus(b, Plus(XTime(Plus(b, c)), sum)) == Mix(b, c, d, a)
            && Plus(c, Plus(XTime(Plus(c, d)), sum)) == Mix(c, d, a, b)
            && Plus(d, Plus(XTime(Plus(d, a)), sum)) == Mix(d, a, b, c)
  {
    hide XTime, Plus, Plus4, Mix;
    var sum := Plus(Plus(Plus(a, b), c), d);
    SumRotates(a, b, c, d);
    SumRotates(b, c, d, a);
    SumRotates(c, d, a, b);
    OneDoubling(a, b, c, d, sum);
    OneDoubling(b, c, d, a, sum);
    OneDoubling(c, d, a, b, sum);
    OneDoubling(d, a, b, c, sum);
  }

  lemma SumRotates(a: bv8, b: bv8, c: bv8, d: bv8)
    ensures Plus(Plus(Plus(a, b), c), d) == Plus(Plus(Plus(b, c), d), a)
  {
    assert ((a ^ b) ^ c) ^ d == ((b ^ c) ^ d) ^ a;
  }

  lemma OneDoubling(a: bv8, b: bv8, c: bv8, d: bv8, sum: bv8)
    requires sum == Plus(Plus(Plus(a, b), c), d)
    ensures Plus(a, Plus(XTime(Plus(a, b)), sum)) == Mix(a, b, c, d)
  {
    hide XTime, Plus;
    XTimeIsLinear(a, b);
    SumStartsWith(a, b, c, d);
    CancelTwice(a, Plus(XTime(a), XTime(b)), Plus(b, Plus(c, d)));
    Reassociate(XTime(a), XTime(b), b, Plus(c, d));
  }

  lemma SumStartsWith(a: bv8, b: bv8, c: bv8, d: bv8)
    ensures Plus(Plus(Plus(a, b), c), d) == Plus(a, Plus(b, Plus(c, d)))
  {
    assert ((a ^ b) ^ c) ^ d == a ^ (b ^ (c ^ d));
  }

  lemma CancelTwice(a: bv8, p: bv8, q: bv8)
    ensures Plus(a, Plus(p, Plus(a, q))) == Plus(p, q)
  {
    assert a ^ (p ^ (a ^ q)) == p ^ q;
  }

  lemma Reassociate(x: bv8, y: bv8, b: bv8, e: bv8)
    ensures Plus(Plus(x, y), Plus(b, e)) == Plus(Plus(x, Plus(y, b)), e)
  {
    assert (x ^ y) ^ (b ^ e) == (x ^ (y ^ b)) ^ e;
  }

  /** The order in which InvMixColumns adds up its four bytes. */
  lemma InvMixOrders(a: bv8, b: bv8, c: bv8, d: bv8)
    ensures Plus(Plus(Plus(Multiply(a, 0x0e), Multiply(b, 0x0b)), Multiply(c, 0x0d)), Multiply(d, 0x09))
         == InvMix(a, b, c, d)
    ensures Plus(Plus(Plus(Multiply(a, 0x09), Multiply(b, 0x0e)), Multiply(c, 0x0b)), Multiply(d, 0x0d))
         == InvMix(b, c, d, a)
    ensures Plus(Plus(Plus(Multiply(a, 0x0d), Multiply(b, 0x09)), Multiply(c, 0x0e)), Multiply(d, 0x0b))
         == InvMix(c, d, a, b)
    ensures Plus(Plus(Plus(Multiply(a, 0x0b), Multiply(b, 0x0d)), Multiply(c, 0x09)), Multiply(d, 0x0e))
         == InvMix(d, a, b, c)
  {
    hide Multiply, Plus, Plus4;
    SumOrders(Multiply(a, 0x0e), Multiply(b, 0x0b), Multiply(c, 0x0d), Multiply(d, 0x09));
    SumOrders(Multiply(a, 0x09), Multiply(b, 0x0e), Multiply(c, 0x0b), Multiply(d, 0x0d));
    SumOrders(Multiply(a, 0x0d), Multiply(b, 0x09), Multiply(c, 0x0e), Multiply(d, 0x0b));
    SumOrders(Multiply(a, 0x0b), Multiply(b, 0x0d), Multiply(c, 0x09), Multiply(d, 0x0e));
  }

  lemma SumOrders(w: bv8, x: bv8, y: bv8, z: bv8)
    ensures Plus(Plus(Plus(w, x), y), z) == Plus4(w, x, y, z)
    ensures Plus4(w, x, y, z) == Plus4(x, y, z, w) == Plus4(y, z, w, x) == Plus4(z, w, x, y)
  {
    hide Plus;
    Associate(Plus(w, x), y, z);
    Commute(Plus(w, x), Plus(y, z));
    Rotate(x, y, z, w);
    Rotate(z, w, x, y);
  }

  lemma Associate(x: bv8, y: bv8, z: bv8)
    ensures Plus(Plus(x, y), z) == Plus(x, Plus(y, z))
  {
  }

  lemma Commute(x: bv8, y: bv8)
    ensures Plus(x, y) == Plus(y, x)
  {
  }
}
