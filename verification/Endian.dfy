/** Big-endian integers of a fixed number of bytes. */
module Endian {
  import opened Wrappers

  const U32_MAX: nat := 0xFFFF_FFFF

  function Pow256(k: nat): (r: nat)
    ensures r > 0
  {
    if k == 0 then 1 else 256 * Pow256(k - 1)
  }

  function Be(n: nat, k: nat): (b: Bytes)
    ensures |b| == k
  {
    if k == 0 then [] else Be(n / 256, k - 1) + [n % 256]
  }

  function FromBe(b: Bytes): (n: nat)
    ensures n < Pow256(|b|)
  {
    if b == [] then 0 else 256 * FromBe(b[..|b| - 1]) + b[|b| - 1]
  }

  lemma {:induction false} FromBeOfBe(n: nat, k: nat)
    requires n < Pow256(k)
    ensures FromBe(Be(n, k)) == n
  {
    if k > 0 {
      FromBeOfBe(n / 256, k - 1);
      assert Be(n, k)[..k - 1] == Be(n / 256, k - 1);
    }
  }

  lemma {:induction false} BeOfFromBe(b: Bytes)
    ensures Be(FromBe(b), |b|) == b
  {
    if b != [] {
      var init, last := b[..|b| - 1], b[|b| - 1];
      BeOfFromBe(init);
      assert FromBe(b) / 256 == FromBe(init) && FromBe(b) % 256 == last;
      assert b == init + [last];
    }
  }

  lemma Width4()
    ensures Pow256(4) == U32_MAX + 1
  {
    assert Pow256(1) == 256 && Pow256(2) == 65536 && Pow256(3) == 0x100_0000;
  }

  lemma Width8()
    ensures Pow256(8) == 0x1_0000_0000_0000_0000
  {
    Width4();
    assert Pow256(5) == 0x100_0000_0000 && Pow256(6) == 0x1_0000_0000_0000;
    assert Pow256(7) == 0x100_0000_0000_0000;
  }

  /** Four bytes round-trip every 32-bit value. */
  lemma U32RoundTrip(n: nat)
    requires n <= U32_MAX
    ensures FromBe(Be(n, 4)) == n
  {
    Width4();
    FromBeOfBe(n, 4);
  }

  lemma U32Bound(b: Bytes)
    requires |b| == 4
    ensures FromBe(b) <= U32_MAX
  {
    Width4();
  }

  lemma {:induction false} ZeroBytes(k: nat)
    ensures Be(0, k) == seq(k, _ => 0)
  {
    if k > 0 {
      ZeroBytes(k - 1);
    }
  }
}
