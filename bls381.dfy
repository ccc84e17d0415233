/**
 * Curve constants of BLS12-381 and the package state that `init()` sets up.
 *
 *   E:      y^2 = x^3 + 4                over Fp
 *   Etwist: y^2 = x^3 + 4 (u + 1)        over Fp2 = Fp[u] / (u^2 + 1)
 *   seed:   x = -15132376222941642752
 *   r = x^4 - x^2 + 1 is the order of the prime subgroups G1 and G2.
 */
module Bls381 {

  /** The curve seed x. */
  const Seed: int := -15132376222941642752

  /** The base field modulus p. */
  const P: nat := 4002409555221667393417789825735904156556882819939007885332058136124031650490837864442687629129015664037894272559787

  /** The scalar field modulus r, the order of G1 and G2. */
  const R: nat := 52435875175126190479447740508185965837690552500527637822603658699938581184513

  /** xGen: the seed's absolute value, as stored. */
  const XGen: nat := 15132376222941642752

  /** lambdaGLV, the eigenvalue of the order-3 endomorphism on G1 and G2. */
  const LambdaGLV: nat := 228988810152649578064853576960394133503

  /** The optimal ate loop counter: the 64 binary digits of xGen, least
      significant first, written as eight rows of eight digits. */
  const LoopCounter: seq<int> :=
    [0, 0, 0, 0, 0, 0, 0, 0] + [0, 0, 0, 0, 0, 0, 0, 0] +
    [1, 0, 0, 0, 0, 0, 0, 0] + [0, 0, 0, 0, 0, 0, 0, 0] +
    [0, 0, 0, 0, 0, 0, 0, 0] + [0, 0, 0, 0, 0, 0, 0, 0] +
    [1, 0, 0, 0, 0, 0, 0, 0] + [0, 1, 0, 0, 1, 0, 1, 1]

  /** thirdRootOneG1, a cube root of unity in Fp. */
  const ThirdRootOneG1: Fp := 4002409555221667392624310435006688643935503118305586438271171395842971157480381377015405980053539358417135540939436

  /** The components of the twisting isomorphism constants endo.u and endo.v. */
  const EndoU1: Fp := 4002409555221667392624310435006688643935503118305586438271171395842971157480381377015405980053539358417135540939437
  const EndoV0: Fp := 2973677408986561043442465346520108879172042883009249989176415018091420807192182638567116318576472649347015917690530
  const EndoV1: Fp := 1028732146235106349975324479215795277384839936929757896155643118032610843298655225875571310552543014690878354869257

  /** Generator coordinates. */
  const G1X: Fp := 2407661716269791519325591009883849385849641130669941829988413640673772478386903154468379397813974815295049686961384
  const G1Y: Fp := 821462058248938975967615814494474302717441302457255475448080663619194518120412959273482223614332657512049995916067
  const G2X0: Fp := 3914881020997020027725320596272602335133880006033342744016315347583472833929664105802124952724390025419912690116411
  const G2X1: Fp := 277275454976865553761595788585036366131740173742845697399904006633521909118147462773311856983264184840438626176168
  const G2Y0: Fp := 253800087101532902362860387055050889666401414686580130872654083467859828854605749525591159464755920666929166876282
  const G2Y1: Fp := 1710145663789443622734372402738721070158916073226464929008132596760920130516982819361355832232719175024697380252309

  /** An element of Fp, in canonical form. */
  type Fp = v: nat | v < P witness 0

  /** An element of Fp2 = Fp[u] / (u^2 + 1): a0 + a1 u. */
  datatype E2 = E2(a0: Fp, a1: Fp)

  /** Jacobian points (X : Y : Z) stand for the affine point (X / Z^2, Y / Z^3);
      Z = 0 stands for the point at infinity. */
  datatype G1Jac = G1Jac(x: Fp, y: Fp, z: Fp)
  datatype G2Jac = G2Jac(x: E2, y: E2, z: E2)
  datatype G1Affine = G1Affine(x: Fp, y: Fp)
  datatype G2Affine = G2Affine(x: E2, y: E2)

  /** The product in Fp2: (x0 + x1 u)(y0 + y1 u) with u^2 = -1. */
  function Mul(x: E2, y: E2): E2
  {
    E2((x.a0 * y.a0 - x.a1 * y.a1) % P, (x.a0 * y.a1 + x.a1 * y.a0) % P)
  }

  /** E2.MulByElement: multiplies both components by an element of Fp, which
      is the Fp2 product with that element seen as a0 + 0 u. */
  function MulByElement(a: E2, b: Fp): (c: E2)
    ensures c == Mul(a, E2(b, 0))
  {
    E2((a.a0 * b) % P, (a.a1 * b) % P)
  }

  /** fp.Element.Square: the Fp2 square of an element of the base field,
      which stays in the base field. */
  function Square(a: Fp): (r: Fp)
    ensures E2(r, 0) == Mul(E2(a, 0), E2(a, 0))
  {
    (a * a) % P
  }

  /** FromJacobian keeps X and Y of a point whose Z is one: Z^-1 = 1. */
  ghost predicate NormalizesUnitZ(fromJacobianG1: G1Jac -> G1Affine, fromJacobianG2: G2Jac -> G2Affine)
  {
    && (forall x: Fp, y: Fp :: fromJacobianG1(G1Jac(x, y, 1)) == G1Affine(x, y))
    && (forall x: E2, y: E2 :: fromJacobianG2(G2Jac(x, y, E2(1, 0))) == G2Affine(x, y))
  }

  /**
   * The package-level state of the curve: the variables `init()` assigns once
   * at start-up and every other part of the library reads.
   */
  class Parameters {
    var bCurveCoeff: Fp
    var bTwistCurveCoeff: E2
    var g1Gen: G1Jac
    var g2Gen: G2Jac
    var g1GenAff: G1Affine
    var g2GenAff: G2Affine
    var g1Infinity: G1Jac
    var g2Infinity: G2Jac
    var thirdRootOneG1: Fp
    var thirdRootOneG2: Fp
    var lambdaGLV: nat
    var endoU: E2
    var endoV: E2
    var loopCounter: seq<int>
    var xGen: nat

    /** What init() leaves behind. */
    ghost predicate Initialized()
      reads this
    {
      && bCurveCoeff == 4
      && bTwistCurveCoeff == E2(4, 4)
      && g1Gen == G1Jac(G1X, G1Y, 1)
      && g2Gen == G2Jac(E2(G2X0, G2X1), E2(G2Y0, G2Y1), E2(1, 0))
      && g1GenAff == G1Affine(G1X, G1Y)
      && g2GenAff == G2Affine(E2(G2X0, G2X1), E2(G2Y0, G2Y1))
      && g1Infinity == G1Jac(1, 1, 0)
      && g2Infinity == G2Jac(E2(1, 0), E2(1, 0), E2(0, 0))
      && thirdRootOneG1 == ThirdRootOneG1
      && thirdRootOneG2 == Square(ThirdRootOneG1)
      && lambdaGLV == LambdaGLV
      && endoU == E2(0, EndoU1)
      && endoV == E2(EndoV0, EndoV1)
      && loopCounter == LoopCounter
      && xGen == XGen
    }

    /** init(): sets every variable once, at start-up. The twist coefficient is
        built step by step from its zero value; the projective-to-affine map of
        the group law is a parameter. */
    constructor Init(fromJacobianG1: G1Jac -> G1Affine, fromJacobianG2: G2Jac -> G2Affine)
      requires NormalizesUnitZ(fromJacobianG1, fromJacobianG2)
      ensures Initialized()
      // the affine generators keep the Jacobian generators' X and Y
      ensures g1GenAff.x == g1Gen.x && g1GenAff.y == g1Gen.y
      ensures g2GenAff.x == g2Gen.x && g2GenAff.y == g2Gen.y
    {
      bCurveCoeff := 4;
      var twist := E2(0, 0);
      twist := twist.(a0 := 1);
      twist := twist.(a1 := 1);
      TwistCoefficient();
      bTwistCurveCoeff := MulByElement(twist, 4);
      var g1 := G1Jac(G1X, G1Y, 1);
      var g2 := G2Jac(E2(G2X0, G2X1), E2(G2Y0, G2Y1), E2(1, 0));
      g1Gen, g2Gen := g1, g2;
      g1GenAff := fromJacobianG1(g1);
      g2GenAff := fromJacobianG2(g2);
      g1Infinity := G1Jac(1, 1, 0);
      g2Infinity := G2Jac(E2(1, 0), E2(1, 0), E2(0, 0));
      thirdRootOneG1 := ThirdRootOneG1;
      thirdRootOneG2 := Square(ThirdRootOneG1);
      lambdaGLV := LambdaGLV;
      endoU := E2(0, EndoU1);
      endoV := E2(EndoV0, EndoV1);
      loopCounter := LoopCounter;
      xGen := XGen;
    }

    /** Generators(): the stored generators, in Jacobian and affine form; the
        two forms of each generator name the same point (Z = 1, same X and Y). */
    method Generators() returns (g1Jac: G1Jac, g2Jac: G2Jac, g1Aff: G1Affine, g2Aff: G2Affine)
      requires Initialized()
      ensures g1Jac == g1Gen && g2Jac == g2Gen && g1Aff == g1GenAff && g2Aff == g2GenAff
      ensures g1Jac.z == 1 && g1Aff == G1Affine(g1Jac.x, g1Jac.y)
      ensures g2Jac.z == E2(1, 0) && g2Aff == G2Affine(g2Jac.x, g2Jac.y)
    {
      g1Aff := g1GenAff;
      g2Aff := g2GenAff;
      g1Jac := g1Gen;
      g2Jac := g2Gen;
    }
  }

  /** Σ digits[i] · 2^i. */
  function LittleEndianValue(digits: seq<int>): int
  {
    if digits == [] then 0 else digits[0] + 2 * LittleEndianValue(digits[1..])
  }

  function Pow2(k: nat): (r: nat)
    ensures r >= 1
  {
    if k == 0 then 1 else 2 * Pow2(k - 1)
  }

  ghost predicate BinaryDigits(digits: seq<int>)
  {
    forall i :: 0 <= i < |digits| ==> digits[i] == 0 || digits[i] == 1
  }

  /** The value of a concatenation: the high part is shifted by the low part's length. */
  lemma {:induction false} ValueOfConcat(a: seq<int>, b: seq<int>)
    ensures LittleEndianValue(a + b) == LittleEndianValue(a) + Pow2(|a|) * LittleEndianValue(b)
  {
    if a == [] {
      assert a + b == b;
    } else {
      ValueOfConcat(a[1..], b);
      assert (a + b)[1..] == a[1..] + b;
      calc {
        LittleEndianValue(a + b);
        a[0] + 2 * LittleEndianValue(a[1..] + b);
        a[0] + 2 * (LittleEndianValue(a[1..]) + Pow2(|a| - 1) * LittleEndianValue(b));
        a[0] + 2 * LittleEndianValue(a[1..]) + (2 * Pow2(|a| - 1)) * LittleEndianValue(b);
      }
    }
  }

  // The rows of the loop counter, least significant first.
  const ZeroRow: seq<int> := [0, 0, 0, 0, 0, 0, 0, 0]
  const LowBitRow: seq<int> := [1, 0, 0, 0, 0, 0, 0, 0]
  const TopRow: seq<int> := [0, 1, 0, 0, 1, 0, 1, 1]

  lemma LoopCounterRows()
    ensures LoopCounter == ZeroRow + (ZeroRow + (LowBitRow + (ZeroRow + (ZeroRow + (ZeroRow + (LowBitRow + TopRow))))))
  {
  }

  lemma BinaryDigitsOfConcat(a: seq<int>, b: seq<int>)
    requires BinaryDigits(a) && BinaryDigits(b)
    ensures BinaryDigits(a + b)
  {
  }

  /** loopCounter has 64 entries, each 0 or 1. */
  lemma LoopCounterIsBinary()
    ensures |LoopCounter| == 64 && BinaryDigits(LoopCounter)
  {
    var z, one, top := ZeroRow, LowBitRow, TopRow;
    assert BinaryDigits(z) && BinaryDigits(one) && BinaryDigits(top);
    LoopCounterRows();
    BinaryDigitsOfConcat(one, top);
    BinaryDigitsOfConcat(z, one + top);
    BinaryDigitsOfConcat(z, z + (one + top));
    BinaryDigitsOfConcat(z, z + (z + (one + top)));
    BinaryDigitsOfConcat(one, z + (z + (z + (one + top))));
    BinaryDigitsOfConcat(z, one + (z + (z + (z + (one + top)))));
    BinaryDigitsOfConcat(z, z + (one + (z + (z + (z + (one + top))))));
  }

  /** Prepending a row of eight digits shifts the value by one byte. */
  lemma PrependRow(row: seq<int>, s: seq<int>)
    requires row == ZeroRow || row == LowBitRow || row == TopRow
    ensures LittleEndianValue(row + s) == LittleEndianValue(row) + 256 * LittleEndianValue(s)
  {
    assert |row| == 8 && Pow2(8) == 256;
    ValueOfConcat(row, s);
  }

  /** Σ loopCounter[i] · 2^i = xGen: the counter is xGen's little-endian binary expansion. */
  lemma LoopCounterIsXGen()
    ensures LittleEndianValue(LoopCounter) == XGen
  {
    var z, one, top := ZeroRow, LowBitRow, TopRow;
    assert LittleEndianValue(z) == 0 && LittleEndianValue(one) == 1 && LittleEndianValue(top) == 0xD2;
    LoopCounterRows();
    var s1 := one + top;
    PrependRow(one, top);
    assert LittleEndianValue(top) == 0xD2;
    var s2 := z + s1;
    PrependRow(z, s1);
    var s3 := z + s2;
    PrependRow(z, s2);
    var s4 := z + s3;
    PrependRow(z, s3);
    var s5 := one + s4;
    PrependRow(one, s4);
    var s6 := z + s5;
    PrependRow(z, s5);
    var s7 := z + s6;
    PrependRow(z, s6);
    assert LoopCounter == s7;
  }

  /** xGen stores the absolute value of the (negative) seed. */
  lemma XGenIsSeedMagnitude()
    ensures Seed < 0 && XGen == -Seed
  {
  }

  /** For every x: (x^2 - 1)^2 + (x^2 - 1) + 1 = x^4 - x^2 + 1. */
  lemma {:induction false} EigenvalueIdentity(x: int)
    ensures (x * x - 1) * (x * x - 1) + (x * x - 1) + 1 == x * x * x * x - x * x + 1
  {
  }

  /** lambdaGLV = x^2 - 1 and r = x^4 - x^2 + 1, hence lambda^2 + lambda + 1 = r:
      lambda is a primitive cube root of unity modulo r, the eigenvalue of the
      order-3 endomorphism. */
  lemma LambdaIsCubeRootModR()
    ensures LambdaGLV == Seed * Seed - 1
    ensures R == Seed * Seed * Seed * Seed - Seed * Seed + 1
    ensures LambdaGLV * LambdaGLV + LambdaGLV + 1 == R
    ensures (LambdaGLV * LambdaGLV + LambdaGLV + 1) % R == 0 && LambdaGLV % R != 1
  {
    EigenvalueIdentity(Seed);
  }

  /** thirdRootOneG1 is a cube root of unity in Fp other than one. */
  lemma ThirdRootIsCubeRootOfUnity()
    ensures ThirdRootOneG1 < P && ThirdRootOneG1 != 1
    ensures (Square(ThirdRootOneG1) * ThirdRootOneG1) % P == 1
  {
    var t: nat := ThirdRootOneG1;
    var s: nat := 793479390729215512621379701633421447060886740281060493010456487427281649075476305620758731620350;
    assert t * t == 4002409555221667391830831044277473131471431042197543562690209614999352389813807512901623747658945927140439305202358 * P + s;
    assert Square(t) == s;
    assert s * t == 793479390729215512464072076108042875580961780843618767666573864113782232394593431276696235737077 * P + 1;
  }

  /** thirdRootOneG2, the square of thirdRootOneG1, is the other
      nontrivial cube root of unity: w^2 = -1 - w, and squaring it gives
      thirdRootOneG1 back. */
  lemma ThirdRootG2IsConjugate()
    ensures Square(ThirdRootOneG1) + ThirdRootOneG1 + 1 == P
    ensures Square(Square(ThirdRootOneG1)) == ThirdRootOneG1
  {
    var t: nat := ThirdRootOneG1;
    var s: nat := 793479390729215512621379701633421447060886740281060493010456487427281649075476305620758731620350;
    assert t * t == 4002409555221667391830831044277473131471431042197543562690209614999352389813807512901623747658945927140439305202358 * P + s;
    assert Square(t) == s;
    assert s * s == 157307625525378571479924959437441725343882623313499416680882874344062495883272 * P + t;
  }

  /** The curve coefficient b = 4 and the twist coefficient b (1 + u), the
      Fp2 product (1 + u) * 4 = 4 + 4 u. */
  lemma TwistCoefficient()
    ensures Mul(E2(1, 1), E2(4, 0)) == E2(4, 4)
    ensures MulByElement(E2(1, 1), 4) == E2(4, 4)
  {
  }
}
