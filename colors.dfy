/** Colours as the automation sees them (System.Windows.Media.Color) and the
    tolerance rule that decides whether a sampled pixel matches a target. */
module Colors {

  /** An 8-bit colour channel. */
  type Byte = x: int | 0 <= x < 256

  /** An ARGB colour, one byte per channel. */
  datatype Color = Color(a: Byte, r: Byte, g: Byte, b: Byte)

  /** Color.FromArgb. */
  function FromArgb(a: Byte, r: Byte, g: Byte, b: Byte): (c: Color)
    ensures c.a == a && c.r == r && c.g == g && c.b == b
  {
    Color(a, r, g, b)
  }

  /** The per-channel tolerance (the DIFF constant). */
  const Diff: int := 10

  function Abs(x: int): (r: nat)
    ensures r == x || r == -x
  {
    if x < 0 then -x else x
  }

  /** ColorHelper.AreEquivalent: every colour channel differs by at most Diff;
      alpha is not looked at. */
  predicate AreEquivalent(c1: Color, c2: Color)
  {
    Abs(c1.r - c2.r) <= Diff && Abs(c1.g - c2.g) <= Diff && Abs(c1.b - c2.b) <= Diff
  }

  function Max(x: nat, y: nat): (m: nat)
    ensures m >= x && m >= y && (m == x || m == y)
  {
    if x < y then y else x
  }

  /** Chebyshev distance between the colour parts of two colours: the
      largest per-channel difference.  An independent reading of the rule. */
  function Distance(c1: Color, c2: Color): (d: nat)
    ensures d <= 255
  {
    Max(Abs(c1.r - c2.r), Max(Abs(c1.g - c2.g), Abs(c1.b - c2.b)))
  }

  /** The rule is a ball of radius Diff in the Chebyshev metric, and spelled
      out per channel. */
  lemma EquivalentIffWithinDistance(c1: Color, c2: Color)
    ensures AreEquivalent(c1, c2) <==> Distance(c1, c2) <= Diff
    ensures AreEquivalent(c1, c2) <==>
      (-Diff <= c1.r - c2.r <= Diff && -Diff <= c1.g - c2.g <= Diff && -Diff <= c1.b - c2.b <= Diff)
  {
  }

  lemma EquivalentReflexive(c: Color)
    ensures AreEquivalent(c, c)
    ensures Distance(c, c) == 0
  {
  }

  lemma EquivalentSymmetric(c1: Color, c2: Color)
    ensures AreEquivalent(c1, c2) == AreEquivalent(c2, c1)
    ensures Distance(c1, c2) == Distance(c2, c1)
  {
  }

  /** The boundary: a difference of exactly Diff in every channel (either
      direction) is still equivalent, one more in any single channel is not. */
  lemma EquivalentBoundary(c1: Color, c2: Color)
    ensures (Abs(c1.r - c2.r) == Diff && Abs(c1.g - c2.g) == Diff && Abs(c1.b - c2.b) == Diff)
      ==> AreEquivalent(c1, c2)
    ensures (Abs(c1.r - c2.r) == Diff + 1 || Abs(c1.g - c2.g) == Diff + 1 || Abs(c1.b - c2.b) == Diff + 1)
      ==> !AreEquivalent(c1, c2)
  {
  }

  /** A concrete instance of the boundary: (10,10,10) against black. */
  lemma EquivalentBoundaryExample()
    ensures AreEquivalent(FromArgb(255, 10, 10, 10), FromArgb(255, 0, 0, 0))
    ensures !AreEquivalent(FromArgb(255, 11, 10, 10), FromArgb(255, 0, 0, 0))
    ensures !AreEquivalent(FromArgb(255, 0, 0, 0), FromArgb(255, 10, 10, 11))
  {
  }

  /** Changing only the alpha channel of either colour never changes the answer. */
  lemma EquivalentIgnoresAlpha(c1: Color, c2: Color, a1: Byte, a2: Byte)
    ensures AreEquivalent(c1.(a := a1), c2.(a := a2)) == AreEquivalent(c1, c2)
  {
  }

  /** Equivalence is not transitive: tolerance chains drift. */
  lemma EquivalentNotTransitive()
    ensures exists c1: Color, c2: Color, c3: Color ::
      AreEquivalent(c1, c2) && AreEquivalent(c2, c3) && !AreEquivalent(c1, c3)
  {
    var c1, c2, c3 := FromArgb(255, 0, 0, 0), FromArgb(255, 10, 0, 0), FromArgb(255, 20, 0, 0);
    assert AreEquivalent(c1, c2) && AreEquivalent(c2, c3) && !AreEquivalent(c1, c3);
  }
}
