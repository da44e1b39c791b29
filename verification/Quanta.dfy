/** Applying a block code to successive quanta: three bytes to four characters, and back. */
module Quanta {
  import opened Bits

  ghost predicate Maps(g: seq<Byte> --> seq<Byte>, from: nat, to: nat) {
    forall x | |x| == from :: g.requires(x) && |g(x)| == to
  }

  function MapThrees(g: seq<Byte> --> seq<Byte>, d: seq<Byte>, n: nat): (r: seq<Byte>)
    requires Maps(g, 3, 4) && |d| == 3 * n
    ensures |r| == 4 * n
  {
    if n == 0 then [] else MapThrees(g, d[..3 * n - 3], n - 1) + g(d[3 * n - 3..])
  }

  function MapFours(h: seq<Byte> --> seq<Byte>, f: seq<Byte>, n: nat): (r: seq<Byte>)
    requires Maps(h, 4, 3) && |f| == 4 * n
    ensures |r| == 3 * n
  {
    if n == 0 then [] else MapFours(h, f[..4 * n - 4], n - 1) + h(f[4 * n - 4..])
  }

  /** If h undoes g on every quantum, it undoes it on any number of them; and what holds of all
      characters of every encoded quantum holds of all characters of the encoded text. */
  lemma {:induction false} ThreesBack(g: seq<Byte> --> seq<Byte>, h: seq<Byte> --> seq<Byte>, plain: Byte -> bool,
                                      d: seq<Byte>, n: nat)
    requires Maps(g, 3, 4) && Maps(h, 4, 3) && |d| == 3 * n
    requires forall x | |x| == 3 :: h(g(x)) == x && forall i | 0 <= i < 4 :: plain(g(x)[i])
    ensures MapFours(h, MapThrees(g, d, n), n) == d
    ensures forall i | 0 <= i < 4 * n :: plain(MapThrees(g, d, n)[i])
  {
    if n > 0 {
      var k := 3 * n - 3;
      ThreesBack(g, h, plain, d[..k], n - 1);
      var e, q := MapThrees(g, d[..k], n - 1), g(d[k..]);
      assert (e + q)[..4 * n - 4] == e && (e + q)[4 * n - 4..] == q;
      assert d == d[..k] + d[k..];
    }
  }

  /** If g undoes h on every quantum of characters that satisfy plain, it undoes it on any number of them. */
  lemma {:induction false} FoursBack(g: seq<Byte> --> seq<Byte>, h: seq<Byte> --> seq<Byte>, plain: Byte -> bool,
                                     f: seq<Byte>, n: nat)
    requires Maps(g, 3, 4) && Maps(h, 4, 3) && |f| == 4 * n
    requires forall x | |x| == 4 && (forall i | 0 <= i < 4 :: plain(x[i])) :: g(h(x)) == x
    requires forall i | 0 <= i < |f| :: plain(f[i])
    ensures MapThrees(g, MapFours(h, f, n), n) == f
  {
    if n > 0 {
      var k := 4 * n - 4;
      FoursBack(g, h, plain, f[..k], n - 1);
      var d, x := MapFours(h, f[..k], n - 1), h(f[k..]);
      assert forall i | 0 <= i < 4 :: f[k..][i] == f[k + i];
      assert (d + x)[..3 * n - 3] == d && (d + x)[3 * n - 3..] == x;
      assert f == f[..k] + f[k..];
    }
  }
}
