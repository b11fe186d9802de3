/**
 * The identifier space shared by every variant of the ring: node ids and key
 * hashes are reduced into [0, 100), and distances are taken around that circle.
 */
module Ids {

  /** Size of the identifier space; every variant hard-codes 100. */
  const Space: int := 100

  /** `(to - from) % 100`: how far `to` lies clockwise from `from`.
      Python's `%` with a positive divisor agrees with Dafny's. */
  function Clockwise(from: int, to: int): (d: int)
    ensures 0 <= d < Space
    ensures (from + d - to) % Space == 0
  {
    (to - from) % Space
  }

  function Min(a: int, b: int): int
  {
    if a <= b then a else b
  }

  /** circular_distance: the shorter of the two ways round the circle. */
  function CircularDistance(a: int, b: int): (d: int)
    ensures 0 <= d <= Space / 2
    ensures d == 0 <==> (a - b) % Space == 0
    ensures d <= Clockwise(a, b) && d <= Clockwise(b, a)
  {
    ClockwiseBothWays(a, b);
    Min(Clockwise(a, b), Clockwise(b, a))
  }

  /** The two clockwise distances between a pair add up to a full turn, or to
      nothing when the ids coincide modulo the space. */
  lemma ClockwiseBothWays(a: int, b: int)
    ensures (a - b) % Space == 0 ==> Clockwise(a, b) == 0 && Clockwise(b, a) == 0
    ensures (a - b) % Space != 0 ==> Clockwise(a, b) + Clockwise(b, a) == Space
  {
    var q := (a - b) / Space;
    var r := (a - b) % Space;
    assert a - b == q * Space + r;
    assert b - a == (-q - 1) * Space + (Space - r);
    if r != 0 {
      assert (b - a) % Space == Space - r;
    } else {
      assert b - a == (-q) * Space;
    }
  }

  lemma CircularDistanceSymmetric(a: int, b: int)
    ensures CircularDistance(a, b) == CircularDistance(b, a)
  {
  }
}
