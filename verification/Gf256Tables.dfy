/** Polynomials over two elements modulo x^8+x^4+x^3+x^2+1, the multiplication of
    internal/reedsolomon/galois.go, and its table of powers of x. */
module Gf256Tables {

  datatype Nibble = Nibble(b3: bool, b2: bool, b1: bool, b0: bool)

  /** A byte, as two hexadecimal digits. */
  datatype Byte = Byte(hi: Nibble, lo: Nibble)

  const N0 := Nibble(false, false, false, false)
  const N1 := Nibble(false, false, false, true)
  const N2 := Nibble(false, false, true, false)
  const N3 := Nibble(false, false, true, true)
  const N4 := Nibble(false, true, false, false)
  const N5 := Nibble(false, true, false, true)
  const N6 := Nibble(false, true, true, false)
  const N7 := Nibble(false, true, true, true)
  const N8 := Nibble(true, false, false, false)
  const N9 := Nibble(true, false, false, true)
  const NA := Nibble(true, false, true, false)
  const NB := Nibble(true, false, true, true)
  const NC := Nibble(true, true, false, false)
  const ND := Nibble(true, true, false, true)
  const NE := Nibble(true, true, true, false)
  const NF := Nibble(true, true, true, true)

  const ZERO := Byte(N0, N0)
  const ONE := Byte(N0, N1)

  function XorNibble(a: Nibble, b: Nibble): Nibble {
    Nibble(a.b3 != b.b3, a.b2 != b.b2, a.b1 != b.b1, a.b0 != b.b0)
  }

  function Xor(a: Byte, b: Byte): Byte {
    Byte(XorNibble(a.hi, b.hi), XorNibble(a.lo, b.lo))
  }

  function Shr(a: Byte): Byte {
    Byte(Nibble(false, a.hi.b3, a.hi.b2, a.hi.b1), Nibble(a.hi.b0, a.lo.b3, a.lo.b2, a.lo.b1))
  }

  /** Multiplication by x: a shift, reduced by the generating polynomial 29. */
  function XTime(a: Byte): Byte {
    var c := a.hi.b3;
    Byte(Nibble(a.hi.b2, a.hi.b1, a.hi.b0, a.lo.b3 != c), Nibble(a.lo.b2 != c, a.lo.b1 != c, a.lo.b0, c))
  }

  function XTimes(a: Byte, n: nat): Byte
    decreases n
  {
    if n == 0 then a else XTime(XTimes(a, n - 1))
  }

  function Gate(bit: bool, a: Byte): Byte {
    if bit then a else ZERO
  }

  /** The sum of a*x^i over the set bits i < n of b. */
  function MulSteps(a: Byte, b: Byte, n: nat): Byte
    decreases n
  {
    if n == 0 then ZERO else Xor(Gate(b.lo.b0, a), MulSteps(XTime(a), Shr(b), n - 1))
  }

  /** The product of two polynomials, reduced. */
  function Product(a: Byte, b: Byte): Byte {
    MulSteps(a, b, 8)
  }

  // ---------- the product is linear and commutes with x ----------

  lemma XTimeStep(bit: bool, a: Byte, m: Byte)
    ensures XTime(Xor(Gate(bit, a), m)) == Xor(Gate(bit, XTime(a)), XTime(m))
  {
  }

  lemma {:induction false} MulStepsXTime(a: Byte, b: Byte, n: nat)
    ensures MulSteps(XTime(a), b, n) == XTime(MulSteps(a, b, n))
    decreases n
  {
    if n > 0 {
      MulStepsXTime(XTime(a), Shr(b), n - 1);
      XTimeStep(b.lo.b0, a, MulSteps(XTime(a), Shr(b), n - 1));
    }
  }

  lemma XorStep(p: bool, q: bool, a: Byte, m: Byte, n: Byte)
    ensures Xor(Gate(p != q, a), Xor(m, n)) == Xor(Xor(Gate(p, a), m), Xor(Gate(q, a), n))
  {
  }

  lemma {:induction false} MulStepsRight(a: Byte, b: Byte, c: Byte, n: nat)
    ensures MulSteps(a, Xor(b, c), n) == Xor(MulSteps(a, b, n), MulSteps(a, c, n))
    decreases n
  {
    if n > 0 {
      var t := XTime(a);
      MulStepsRight(t, Shr(b), Shr(c), n - 1);
      assert Shr(Xor(b, c)) == Xor(Shr(b), Shr(c));
      XorStep(b.lo.b0, c.lo.b0, a, MulSteps(t, Shr(b), n - 1), MulSteps(t, Shr(c), n - 1));
    }
  }

  lemma {:induction false} MulStepsZero(b: Byte, n: nat)
    ensures MulSteps(ZERO, b, n) == ZERO
    decreases n
  {
    if n > 0 {
      MulStepsZero(Shr(b), n - 1);
    }
  }

  lemma ProductZero(a: Byte)
    ensures Product(ZERO, a) == ZERO && Product(a, ZERO) == ZERO
  {
    MulStepsZero(a, 8);
    MulStepsRight(a, ZERO, ZERO, 8);
  }

  lemma TopBits7(b: Byte)
    ensures MulSteps(Byte(N8, N0), Byte(Nibble(false, false, false, false), Nibble(false, false, false, b.hi.b3)), 1)
         == Byte(Nibble(b.hi.b3, false, false, false), Nibble(false, false, false, false))
  {
  }

  lemma TopBits6(b: Byte)
    ensures MulSteps(Byte(N4, N0), Byte(Nibble(false, false, false, false), Nibble(false, false, b.hi.b3, b.hi.b2)), 2)
         == Byte(Nibble(b.hi.b3, b.hi.b2, false, false), Nibble(false, false, false, false))
  {
    TopBits7(b);
    assert Shr(Byte(Nibble(false, false, false, false), Nibble(false, false, b.hi.b3, b.hi.b2))) == Byte(Nibble(false,
        false, false, false), Nibble(false, false, false, b.hi.b3));
  }

  lemma TopBits5(b: Byte)
    ensures MulSteps(Byte(N2, N0), Byte(Nibble(false, false, false, false), Nibble(false, b.hi.b3, b.hi.b2, b.hi.b1)), 3)
         == Byte(Nibble(b.hi.b3, b.hi.b2, b.hi.b1, false), Nibble(false, false, false, false))
  {
    TopBits6(b);
    assert Shr(Byte(Nibble(false, false, false, false), Nibble(false, b.hi.b3, b.hi.b2, b.hi.b1))) == Byte(Nibble(false,
        false, false, false), Nibble(false, false, b.hi.b3, b.hi.b2));
  }

  lemma TopBits4(b: Byte)
    ensures MulSteps(Byte(N1, N0), Byte(Nibble(false, false, false, false), Nibble(b.hi.b3, b.hi.b2, b.hi.b1, b.hi.b0)), 4)
         == Byte(Nibble(b.hi.b3, b.hi.b2, b.hi.b1, b.hi.b0), Nibble(false, false, false, false))
  {
    TopBits5(b);
    assert Shr(Byte(Nibble(false, false, false, false), Nibble(b.hi.b3, b.hi.b2, b.hi.b1,
        b.hi.b0))) == Byte(Nibble(false, false, false, false), Nibble(false, b.hi.b3, b.hi.b2, b.hi.b1));
  }

  lemma TopBits3(b: Byte)
    ensures MulSteps(Byte(N0, N8), Byte(Nibble(false, false, false, b.hi.b3), Nibble(b.hi.b2, b.hi.b1, b.hi.b0, b.lo.b3)), 5)
         == Byte(Nibble(b.hi.b3, b.hi.b2, b.hi.b1, b.hi.b0), Nibble(b.lo.b3, false, false, false))
  {
    TopBits4(b);
    assert Shr(Byte(Nibble(false, false, false, b.hi.b3), Nibble(b.hi.b2, b.hi.b1, b.hi.b0,
        b.lo.b3))) == Byte(Nibble(false, false, false, false), Nibble(b.hi.b3, b.hi.b2, b.hi.b1, b.hi.b0));
  }

  lemma TopBits2(b: Byte)
    ensures MulSteps(Byte(N0, N4), Byte(Nibble(false, false, b.hi.b3, b.hi.b2), Nibble(b.hi.b1, b.hi.b0, b.lo.b3, b.lo.b2)), 6)
         == Byte(Nibble(b.hi.b3, b.hi.b2, b.hi.b1, b.hi.b0), Nibble(b.lo.b3, b.lo.b2, false, false))
  {
    TopBits3(b);
    assert Shr(Byte(Nibble(false, false, b.hi.b3, b.hi.b2), Nibble(b.hi.b1, b.hi.b0, b.lo.b3,
        b.lo.b2))) == Byte(Nibble(false, false, false, b.hi.b3), Nibble(b.hi.b2, b.hi.b1, b.hi.b0, b.lo.b3));
  }

  lemma TopBits1(b: Byte)
    ensures MulSteps(Byte(N0, N2), Byte(Nibble(false, b.hi.b3, b.hi.b2, b.hi.b1), Nibble(b.hi.b0, b.lo.b3, b.lo.b2, b.lo.b1)), 7)
         == Byte(Nibble(b.hi.b3, b.hi.b2, b.hi.b1, b.hi.b0), Nibble(b.lo.b3, b.lo.b2, b.lo.b1, false))
  {
    TopBits2(b);
    assert Shr(Byte(Nibble(false, b.hi.b3, b.hi.b2, b.hi.b1),
        Nibble(b.hi.b0, b.lo.b3, b.lo.b2, b.lo.b1))) == Byte(Nibble(false, false, b.hi.b3, b.hi.b2),
        Nibble(b.hi.b1, b.hi.b0, b.lo.b3, b.lo.b2));
  }

  lemma ProductOne(b: Byte)
    ensures Product(ONE, b) == b
  {
    TopBits1(b);
    assert Shr(b) == Byte(Nibble(false, b.hi.b3, b.hi.b2, b.hi.b1), Nibble(b.hi.b0, b.lo.b3, b.lo.b2, b.lo.b1));
  }

  // ---------- every non-zero element is a power of x ----------

  /** The generator x to the n; entries 0 to 254 are the exponent table of the source. */
  function Exp(n: nat): Byte {
    XTimes(ONE, n)
  }

  lemma Powers0()
    ensures Exp(0) == Byte(N0, N1) && Exp(1) == Byte(N0, N2) && Exp(2) == Byte(N0, N4) && Exp(3) == Byte(N0, N8)
    ensures Exp(4) == Byte(N1, N0) && Exp(5) == Byte(N2, N0) && Exp(6) == Byte(N4, N0) && Exp(7) == Byte(N8, N0)
    ensures Exp(8) == Byte(N1, ND) && Exp(9) == Byte(N3, NA) && Exp(10) == Byte(N7, N4) && Exp(11) == Byte(NE, N8)
    ensures Exp(12) == Byte(NC, ND) && Exp(13) == Byte(N8, N7) && Exp(14) == Byte(N1, N3) && Exp(15) == Byte(N2, N6)
    ensures Exp(16) == Byte(N4, NC)
  {
  }

  lemma Powers16()
    ensures Exp(16) == Byte(N4, NC) && Exp(17) == Byte(N9, N8) && Exp(18) == Byte(N2, ND) && Exp(19) == Byte(N5, NA)
    ensures Exp(20) == Byte(NB, N4) && Exp(21) == Byte(N7, N5) && Exp(22) == Byte(NE, NA) && Exp(23) == Byte(NC, N9)
    ensures Exp(24) == Byte(N8, NF) && Exp(25) == Byte(N0, N3) && Exp(26) == Byte(N0, N6) && Exp(27) == Byte(N0, NC)
    ensures Exp(28) == Byte(N1, N8) && Exp(29) == Byte(N3, N0) && Exp(30) == Byte(N6, N0) && Exp(31) == Byte(NC, N0)
    ensures Exp(32) == Byte(N9, ND)
  {
    Powers0();
  }

  lemma Powers32()
    ensures Exp(32) == Byte(N9, ND) && Exp(33) == Byte(N2, N7) && Exp(34) == Byte(N4, NE) && Exp(35) == Byte(N9, NC)
    ensures Exp(36) == Byte(N2, N5) && Exp(37) == Byte(N4, NA) && Exp(38) == Byte(N9, N4) && Exp(39) == Byte(N3, N5)
    ensures Exp(40) == Byte(N6, NA) && Exp(41) == Byte(ND, N4) && Exp(42) == Byte(NB, N5) && Exp(43) == Byte(N7, N7)
    ensures Exp(44) == Byte(NE, NE) && Exp(45) == Byte(NC, N1) && Exp(46) == Byte(N9, NF) && Exp(47) == Byte(N2, N3)
    ensures Exp(48) == Byte(N4, N6)
  {
    Powers16();
  }

  lemma Powers48()
    ensures Exp(48) == Byte(N4, N6) && Exp(49) == Byte(N8, NC) && Exp(50) == Byte(N0, N5) && Exp(51) == Byte(N0, NA)
    ensures Exp(52) == Byte(N1, N4) && Exp(53) == Byte(N2, N8) && Exp(54) == Byte(N5, N0) && Exp(55) == Byte(NA, N0)
    ensures Exp(56) == Byte(N5, ND) && Exp(57) == Byte(NB, NA) && Exp(58) == Byte(N6, N9) && Exp(59) == Byte(ND, N2)
    ensures Exp(60) == Byte(NB, N9) && Exp(61) == Byte(N6, NF) && Exp(62) == Byte(ND, NE) && Exp(63) == Byte(NA, N1)
    ensures Exp(64) == Byte(N5, NF)
  {
    Powers32();
  }

  lemma Powers64()
    ensures Exp(64) == Byte(N5, NF) && Exp(65) == Byte(NB, NE) && Exp(66) == Byte(N6, N1) && Exp(67) == Byte(NC, N2)
    ensures Exp(68) == Byte(N9, N9) && Exp(69) == Byte(N2, NF) && Exp(70) == Byte(N5, NE) && Exp(71) == Byte(NB, NC)
    ensures Exp(72) == Byte(N6, N5) && Exp(73) == Byte(NC, NA) && Exp(74) == Byte(N8, N9) && Exp(75) == Byte(N0, NF)
    ensures Exp(76) == Byte(N1, NE) && Exp(77) == Byte(N3, NC) && Exp(78) == Byte(N7, N8) && Exp(79) == Byte(NF, N0)
    ensures Exp(80) == Byte(NF, ND)
  {
    Powers48();
  }

  lemma Powers80()
    ensures Exp(80) == Byte(NF, ND) && Exp(81) == Byte(NE, N7) && Exp(82) == Byte(ND, N3) && Exp(83) == Byte(NB, NB)
    ensures Exp(84) == Byte(N6, NB) && Exp(85) == Byte(ND, N6) && Exp(86) == Byte(NB, N1) && Exp(87) == Byte(N7, NF)
    ensures Exp(88) == Byte(NF, NE) && Exp(89) == Byte(NE, N1) && Exp(90) == Byte(ND, NF) && Exp(91) == Byte(NA, N3)
    ensures Exp(92) == Byte(N5, NB) && Exp(93) == Byte(NB, N6) && Exp(94) == Byte(N7, N1) && Exp(95) == Byte(NE, N2)
    ensures Exp(96) == Byte(ND, N9)
  {
    Powers64();
  }

  lemma Powers96()
    ensures Exp(96) == Byte(ND, N9) && Exp(97) == Byte(NA, NF) && Exp(98) == Byte(N4, N3) && Exp(99) == Byte(N8, N6)
    ensures Exp(100) == Byte(N1, N1) && Exp(101) == Byte(N2, N2) && Exp(102) == Byte(N4, N4) && Exp(103) == Byte(N8, N8)
    ensures Exp(104) == Byte(N0, ND) && Exp(105) == Byte(N1, NA) && Exp(106) == Byte(N3, N4) && Exp(107) == Byte(N6, N8)
    ensures Exp(108) == Byte(ND, N0) && Exp(109) == Byte(NB, ND) && Exp(110) == Byte(N6, N7) && Exp(111) == Byte(NC, NE)
    ensures Exp(112) == Byte(N8, N1)
  {
    Powers80();
  }

  lemma Powers112()
    ensures Exp(112) == Byte(N8, N1) && Exp(113) == Byte(N1, NF) && Exp(114) == Byte(N3, NE) && Exp(115) == Byte(N7, NC)
    ensures Exp(116) == Byte(NF, N8) && Exp(117) == Byte(NE, ND) && Exp(118) == Byte(NC, N7) && Exp(119) == Byte(N9, N3)
    ensures Exp(120) == Byte(N3, NB) && Exp(121) == Byte(N7, N6) && Exp(122) == Byte(NE, NC) && Exp(123) == Byte(NC, N5)
    ensures Exp(124) == Byte(N9, N7) && Exp(125) == Byte(N3, N3) && Exp(126) == Byte(N6, N6) && Exp(127) == Byte(NC, NC)
    ensures Exp(128) == Byte(N8, N5)
  {
    Powers96();
  }

  lemma Powers128()
    ensures Exp(128) == Byte(N8, N5) && Exp(129) == Byte(N1, N7) && Exp(130) == Byte(N2, NE) && Exp(131) == Byte(N5, NC)
    ensures Exp(132) == Byte(NB, N8) && Exp(133) == Byte(N6, ND) && Exp(134) == Byte(ND, NA) && Exp(135) == Byte(NA, N9)
    ensures Exp(136) == Byte(N4, NF) && Exp(137) == Byte(N9, NE) && Exp(138) == Byte(N2, N1) && Exp(139) == Byte(N4, N2)
    ensures Exp(140) == Byte(N8, N4) && Exp(141) == Byte(N1, N5) && Exp(142) == Byte(N2, NA) && Exp(143) == Byte(N5, N4)
    ensures Exp(144) == Byte(NA, N8)
  {
    Powers112();
  }

  lemma Powers144()
    ensures Exp(144) == Byte(NA, N8) && Exp(145) == Byte(N4, ND) && Exp(146) == Byte(N9, NA) && Exp(147) == Byte(N2, N9)
    ensures Exp(148) == Byte(N5, N2) && Exp(149) == Byte(NA, N4) && Exp(150) == Byte(N5, N5) && Exp(151) == Byte(NA, NA)
    ensures Exp(152) == Byte(N4, N9) && Exp(153) == Byte(N9, N2) && Exp(154) == Byte(N3, N9) && Exp(155) == Byte(N7, N2)
    ensures Exp(156) == Byte(NE, N4) && Exp(157) == Byte(ND, N5) && Exp(158) == Byte(NB, N7) && Exp(159) == Byte(N7, N3)
    ensures Exp(160) == Byte(NE, N6)
  {
    Powers128();
  }

  lemma Powers160()
    ensures Exp(160) == Byte(NE, N6) && Exp(161) == Byte(ND, N1) && Exp(162) == Byte(NB, NF) && Exp(163) == Byte(N6, N3)
    ensures Exp(164) == Byte(NC, N6) && Exp(165) == Byte(N9, N1) && Exp(166) == Byte(N3, NF) && Exp(167) == Byte(N7, NE)
    ensures Exp(168) == Byte(NF, NC) && Exp(169) == Byte(NE, N5) && Exp(170) == Byte(ND, N7) && Exp(171) == Byte(NB, N3)
    ensures Exp(172) == Byte(N7, NB) && Exp(173) == Byte(NF, N6) && Exp(174) == Byte(NF, N1) && Exp(175) == Byte(NF, NF)
    ensures Exp(176) == Byte(NE, N3)
  {
    Powers144();
  }

  lemma Powers176()
    ensures Exp(176) == Byte(NE, N3) && Exp(177) == Byte(ND, NB) && Exp(178) == Byte(NA, NB) && Exp(179) == Byte(N4, NB)
    ensures Exp(180) == Byte(N9, N6) && Exp(181) == Byte(N3, N1) && Exp(182) == Byte(N6, N2) && Exp(183) == Byte(NC, N4)
    ensures Exp(184) == Byte(N9, N5) && Exp(185) == Byte(N3, N7) && Exp(186) == Byte(N6, NE) && Exp(187) == Byte(ND, NC)
    ensures Exp(188) == Byte(NA, N5) && Exp(189) == Byte(N5, N7) && Exp(190) == Byte(NA, NE) && Exp(191) == Byte(N4, N1)
    ensures Exp(192) == Byte(N8, N2)
  {
    Powers160();
  }

  lemma Powers192()
    ensures Exp(192) == Byte(N8, N2) && Exp(193) == Byte(N1, N9) && Exp(194) == Byte(N3, N2) && Exp(195) == Byte(N6, N4)
    ensures Exp(196) == Byte(NC, N8) && Exp(197) == Byte(N8, ND) && Exp(198) == Byte(N0, N7) && Exp(199) == Byte(N0, NE)
    ensures Exp(200) == Byte(N1, NC) && Exp(201) == Byte(N3, N8) && Exp(202) == Byte(N7, N0) && Exp(203) == Byte(NE, N0)
    ensures Exp(204) == Byte(ND, ND) && Exp(205) == Byte(NA, N7) && Exp(206) == Byte(N5, N3) && Exp(207) == Byte(NA, N6)
    ensures Exp(208) == Byte(N5, N1)
  {
    Powers176();
  }

  lemma Powers208()
    ensures Exp(208) == Byte(N5, N1) && Exp(209) == Byte(NA, N2) && Exp(210) == Byte(N5, N9) && Exp(211) == Byte(NB, N2)
    ensures Exp(212) == Byte(N7, N9) && Exp(213) == Byte(NF, N2) && Exp(214) == Byte(NF, N9) && Exp(215) == Byte(NE, NF)
    ensures Exp(216) == Byte(NC, N3) && Exp(217) == Byte(N9, NB) && Exp(218) == Byte(N2, NB) && Exp(219) == Byte(N5, N6)
    ensures Exp(220) == Byte(NA, NC) && Exp(221) == Byte(N4, N5) && Exp(222) == Byte(N8, NA) && Exp(223) == Byte(N0, N9)
    ensures Exp(224) == Byte(N1, N2)
  {
    Powers192();
  }

  lemma Powers224()
    ensures Exp(224) == Byte(N1, N2) && Exp(225) == Byte(N2, N4) && Exp(226) == Byte(N4, N8) && Exp(227) == Byte(N9, N0)
    ensures Exp(228) == Byte(N3, ND) && Exp(229) == Byte(N7, NA) && Exp(230) == Byte(NF, N4) && Exp(231) == Byte(NF, N5)
    ensures Exp(232) == Byte(NF, N7) && Exp(233) == Byte(NF, N3) && Exp(234) == Byte(NF, NB) && Exp(235) == Byte(NE, NB)
    ensures Exp(236) == Byte(NC, NB) && Exp(237) == Byte(N8, NB) && Exp(238) == Byte(N0, NB) && Exp(239) == Byte(N1, N6)
    ensures Exp(240) == Byte(N2, NC)
  {
    Powers208();
  }

  lemma Powers240()
    ensures Exp(240) == Byte(N2, NC) && Exp(241) == Byte(N5, N8) && Exp(242) == Byte(NB, N0) && Exp(243) == Byte(N7, ND)
    ensures Exp(244) == Byte(NF, NA) && Exp(245) == Byte(NE, N9) && Exp(246) == Byte(NC, NF) && Exp(247) == Byte(N8, N3)
    ensures Exp(248) == Byte(N1, NB) && Exp(249) == Byte(N3, N6) && Exp(250) == Byte(N6, NC) && Exp(251) == Byte(ND, N8)
    ensures Exp(252) == Byte(NA, ND) && Exp(253) == Byte(N4, N7) && Exp(254) == Byte(N8, NE)
    ensures Exp(255) == Byte(N0, N1)
  {
    Powers224();
  }

  ghost predicate IsPower(a: Byte) {
    exists i :: 0 <= i < 255 && Exp(i) == a
  }

  lemma NibbleCases(n: Nibble)
    ensures n in {N0, N1, N2, N3, N4, N5, N6, N7, N8, N9, NA, NB, NC, ND, NE, NF}
  {
  }

  lemma Row0(lo: Nibble)
    requires Byte(N0, lo) != ZERO
    ensures IsPower(Byte(N0, lo))
  {
    Powers0(); Powers16(); Powers48(); Powers64(); Powers96(); Powers192(); Powers208(); Powers224();

    NibbleCases(lo);
  }

  lemma Row1(lo: Nibble)
    requires Byte(N1, lo) != ZERO
    ensures IsPower(Byte(N1, lo))
  {
    Powers0(); Powers16(); Powers48(); Powers64(); Powers96(); Powers112(); Powers128(); Powers192();
    Powers224(); Powers240();
    NibbleCases(lo);
  }

  lemma Row2(lo: Nibble)
    requires Byte(N2, lo) != ZERO
    ensures IsPower(Byte(N2, lo))
  {
    Powers0(); Powers16(); Powers32(); Powers48(); Powers64(); Powers96(); Powers128(); Powers144();
    Powers208(); Powers224(); Powers240();
    NibbleCases(lo);
  }

  lemma Row3(lo: Nibble)
    requires Byte(N3, lo) != ZERO
    ensures IsPower(Byte(N3, lo))
  {
    Powers0(); Powers16(); Powers32(); Powers64(); Powers96(); Powers112(); Powers144(); Powers160();
    Powers176(); Powers192(); Powers224(); Powers240();
    NibbleCases(lo);
  }

  lemma Row4(lo: Nibble)
    requires Byte(N4, lo) != ZERO
    ensures IsPower(Byte(N4, lo))
  {
    Powers0(); Powers16(); Powers32(); Powers48(); Powers96(); Powers128(); Powers144(); Powers176();
    Powers208(); Powers224(); Powers240();
    NibbleCases(lo);
  }

  lemma Row5(lo: Nibble)
    requires Byte(N5, lo) != ZERO
    ensures IsPower(Byte(N5, lo))
  {
    Powers16(); Powers48(); Powers64(); Powers80(); Powers128(); Powers144(); Powers176(); Powers192();
    Powers208(); Powers240();
    NibbleCases(lo);
  }

  lemma Row6(lo: Nibble)
    requires Byte(N6, lo) != ZERO
    ensures IsPower(Byte(N6, lo))
  {
    Powers16(); Powers32(); Powers48(); Powers64(); Powers80(); Powers96(); Powers112(); Powers128();
    Powers160(); Powers176(); Powers192(); Powers240();
    NibbleCases(lo);
  }

  lemma Row7(lo: Nibble)
    requires Byte(N7, lo) != ZERO
    ensures IsPower(Byte(N7, lo))
  {
    Powers0(); Powers16(); Powers32(); Powers64(); Powers80(); Powers112(); Powers144(); Powers160();
    Powers192(); Powers208(); Powers224(); Powers240();
    NibbleCases(lo);
  }

  lemma Row8(lo: Nibble)
    requires Byte(N8, lo) != ZERO
    ensures IsPower(Byte(N8, lo))
  {
    Powers0(); Powers16(); Powers48(); Powers64(); Powers96(); Powers112(); Powers128(); Powers192();
    Powers208(); Powers224(); Powers240();
    NibbleCases(lo);
  }

  lemma Row9(lo: Nibble)
    requires Byte(N9, lo) != ZERO
    ensures IsPower(Byte(N9, lo))
  {
    Powers16(); Powers32(); Powers64(); Powers112(); Powers128(); Powers144(); Powers160(); Powers176();
    Powers208(); Powers224();
    NibbleCases(lo);
  }

  lemma Row10(lo: Nibble)
    requires Byte(NA, lo) != ZERO
    ensures IsPower(Byte(NA, lo))
  {
    Powers48(); Powers80(); Powers96(); Powers128(); Powers144(); Powers176(); Powers192(); Powers208();
    Powers240();
    NibbleCases(lo);
  }

  lemma Row11(lo: Nibble)
    requires Byte(NB, lo) != ZERO
    ensures IsPower(Byte(NB, lo))
  {
    Powers16(); Powers32(); Powers48(); Powers64(); Powers80(); Powers96(); Powers128(); Powers144();
    Powers160(); Powers208(); Powers240();
    NibbleCases(lo);
  }

  lemma Row12(lo: Nibble)
    requires Byte(NC, lo) != ZERO
    ensures IsPower(Byte(NC, lo))
  {
    Powers0(); Powers16(); Powers32(); Powers64(); Powers96(); Powers112(); Powers160(); Powers176();
    Powers192(); Powers208(); Powers224(); Powers240();
    NibbleCases(lo);
  }

  lemma Row13(lo: Nibble)
    requires Byte(ND, lo) != ZERO
    ensures IsPower(Byte(ND, lo))
  {
    Powers32(); Powers48(); Powers80(); Powers96(); Powers128(); Powers144(); Powers160(); Powers176();
    Powers192(); Powers240();
    NibbleCases(lo);
  }

  lemma Row14(lo: Nibble)
    requires Byte(NE, lo) != ZERO
    ensures IsPower(Byte(NE, lo))
  {
    Powers0(); Powers16(); Powers32(); Powers80(); Powers112(); Powers144(); Powers160(); Powers176();
    Powers192(); Powers208(); Powers224(); Powers240();
    NibbleCases(lo);
  }

  lemma Row15(lo: Nibble)
    requires Byte(NF, lo) != ZERO
    ensures IsPower(Byte(NF, lo))
  {
    Powers64(); Powers80(); Powers112(); Powers160(); Powers208(); Powers224(); Powers240();

    NibbleCases(lo);
  }

  lemma NonZeroIsPower(a: Byte)
    requires a != ZERO
    ensures IsPower(a)
  {
    NibbleCases(a.hi);
    if a.hi == N0 {
      Row0(a.lo);
    } else if a.hi == N1 {
      Row1(a.lo);
    } else if a.hi == N2 {
      Row2(a.lo);
    } else if a.hi == N3 {
      Row3(a.lo);
    } else if a.hi == N4 {
      Row4(a.lo);
    } else if a.hi == N5 {
      Row5(a.lo);
    } else if a.hi == N6 {
      Row6(a.lo);
    } else if a.hi == N7 {
      Row7(a.lo);
    } else if a.hi == N8 {
      Row8(a.lo);
    } else if a.hi == N9 {
      Row9(a.lo);
    } else if a.hi == NA {
      Row10(a.lo);
    } else if a.hi == NB {
      Row11(a.lo);
    } else if a.hi == NC {
      Row12(a.lo);
    } else if a.hi == ND {
      Row13(a.lo);
    } else if a.hi == NE {
      Row14(a.lo);
    } else if a.hi == NF {
      Row15(a.lo);
    }
  }

  lemma {:induction false} XTimesAdd(a: Byte, m: nat, n: nat)
    ensures XTimes(XTimes(a, m), n) == XTimes(a, m + n)
    decreases n
  {
    if n > 0 {
      XTimesAdd(a, m, n - 1);
    }
  }

  lemma {:induction false} ProductXTimes(a: Byte, b: Byte, n: nat)
    ensures Product(XTimes(a, n), b) == XTimes(Product(a, b), n)
    decreases n
  {
    if n > 0 {
      ProductXTimes(a, b, n - 1);
      MulStepsXTime(XTimes(a, n - 1), b, 8);
    }
  }

  /** Products add exponents. */
  lemma ProductExp(m: nat, n: nat)
    ensures Product(Exp(m), Exp(n)) == Exp(m + n)
  {
    ProductXTimes(ONE, Exp(n), m);
    ProductOne(Exp(n));
    XTimesAdd(ONE, n, m);
  }

  lemma ExpPeriod(n: nat)
    ensures Exp(n + 255) == Exp(n)
  {
    Powers240();
    XTimesAdd(ONE, 255, n);
  }
}
