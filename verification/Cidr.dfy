/**
 * The CIDR test by bit masks, for 32 and 128 bit addresses alike, and its arithmetic
 * meaning: an address and a network agree after division by the block size.
 */
module Cidr {
  import opened Basics

  function Pow2(n: nat): (p: nat)
    ensures p > 0
  {
    if n == 0 then 1 else 2 * Pow2(n - 1)
  }

  /** Bitwise conjunction of two words of `w` bits. */
  function And(x: nat, y: nat, w: nat): nat {
    if w == 0 then 0 else 2 * And(x / 2, y / 2, w - 1) + (x % 2) * (y % 2)
  }

  /** A left shift that drops the bits beyond the word. */
  function Shl(x: nat, k: nat, w: nat): nat {
    (x * Pow2(k)) % Pow2(w)
  }

  datatype IpAddr = V4(bits: nat) | V6(bits: nat) {
    function Width(): nat {
      if V4? then 32 else 128
    }

    predicate Valid() {
      bits < Pow2(Width())
    }
  }

  datatype Block = Block(network: IpAddr, prefix: nat)

  /** The range check on the parsed parts of `address/prefix`; `None` where parsing failed. */
  function ParseCidr(address: Option<IpAddr>, prefix: Option<nat>): Option<Block> {
    if address.None? || prefix.None? then None
    else if prefix.value > address.value.Width() then None
    else Some(Block(address.value, prefix.value))
  }

  function MaskedEqual(ip: nat, net: nat, prefix: nat, w: nat): bool
    requires prefix <= w
  {
    if prefix == 0 then true
    else
      var mask := Shl(Pow2(w) - 1, w - prefix, w);
      And(ip, mask, w) == And(net, mask, w)
  }

  /** Addresses of different families never match. */
  function InBlock(ip: IpAddr, block: Block): bool
    requires block.prefix <= block.network.Width()
  {
    ip.Width() == block.network.Width() && MaskedEqual(ip.bits, block.network.bits, block.prefix, ip.Width())
  }

  function IpInCidr(ip: IpAddr, address: Option<IpAddr>, prefix: Option<nat>): bool {
    var block := ParseCidr(address, prefix);
    block.Some? && InBlock(ip, block.value)
  }

  // ---- Words -----------------------------------------------------------------------------------

  lemma {:induction false} Pow2Sum(a: nat, b: nat)
    ensures Pow2(a + b) == Pow2(a) * Pow2(b)
  {
    if a > 0 {
      Pow2Sum(a - 1, b);
      assert Pow2(a + b) == 2 * Pow2(a - 1 + b);
    }
  }

  lemma MulAtLeast(d: int, n: int)
    requires d >= 1 && n > 0
    ensures d * n >= n
  {
    assert d * n == (d - 1) * n + n;
    assert (d - 1) * n >= 0;
  }

  lemma QuotientUnique(q: int, r: int, q': int, r': int, n: int)
    requires n > 0 && q * n + r == q' * n + r' && 0 <= r < n && 0 <= r' < n
    ensures q == q' && r == r'
  {
    assert (q' - q) * n == q' * n - q * n;
    assert (q - q') * n == q * n - q' * n;
    if q' > q {
      MulAtLeast(q' - q, n);
    } else if q > q' {
      MulAtLeast(q - q', n);
    }
  }

  lemma ModUnique(x: int, q: int, r: int, n: int)
    requires n > 0 && x == q * n + r && 0 <= r < n
    ensures x % n == r && x / n == q
  {
    QuotientUnique(q, r, x / n, x % n, n);
  }

  lemma OnesShifted(n: int, b: int, m: int)
    requires b > 0 && m > 0 && n == b * m
    ensures n >= b && ((n - 1) * b) % n == n - b
  {
    MulAtLeast(m, b);
    assert m * b == n;
    assert (n - 1) * b == n * b - b;
    assert (b - 1) * n == n * b - n;
    ModUnique((n - 1) * b, b - 1, n - b, n);
  }

  /** The mask is the word whose upper bits are set: shifting drops nothing but ones. */
  lemma MaskValue(w: nat, k: nat)
    requires k < w
    ensures Shl(Pow2(w) - 1, k, w) == Pow2(w) - Pow2(k)
  {
    Pow2Sum(k, w - k);
    OnesShifted(Pow2(w), Pow2(k), Pow2(w - k));
  }

  /** Masking with all ones keeps a word. */
  lemma {:induction false} AndOnes(x: nat, w: nat)
    requires x < Pow2(w)
    ensures And(x, Pow2(w) - 1, w) == x
  {
    if w > 0 {
      assert (Pow2(w) - 1) / 2 == Pow2(w - 1) - 1 && (Pow2(w) - 1) % 2 == 1;
      AndOnes(x / 2, w - 1);
    }
  }

  lemma {:induction false} Pow2Grows(k: nat, w: nat)
    requires k <= w
    ensures Pow2(k) <= Pow2(w)
  {
    if k < w { Pow2Grows(k, w - 1); }
  }

  lemma Doubled(q: int, half: int)
    ensures 2 * (q * half) == q * (2 * half)
  {
  }

  /** Masking clears the bits below the block size. */
  lemma {:induction false} AndMask(x: nat, k: nat, w: nat)
    requires k <= w && x < Pow2(w)
    ensures Pow2(k) <= Pow2(w)
    ensures And(x, Pow2(w) - Pow2(k), w) == x / Pow2(k) * Pow2(k)
  {
    Pow2Grows(k, w);
    if k == 0 {
      AndOnes(x, w);
    } else {
      var half := Pow2(k - 1);
      var mask := Pow2(w) - Pow2(k);
      AndMask(x / 2, k - 1, w - 1);
      assert mask / 2 == Pow2(w - 1) - half && mask % 2 == 0;
      assert And(x, mask, w) == 2 * And(x / 2, Pow2(w - 1) - half, w - 1) + (x % 2) * 0;
      DivDiv(x, 2, half);
      Doubled(x / Pow2(k), half);
    }
  }

  // ---- The meaning of the test -------------------------------------------------------------------

  /** The number of addresses in a block. */
  function Size(block: Block): nat
    requires block.prefix <= block.network.Width()
  {
    Pow2(block.network.Width() - block.prefix)
  }

  /** The first address of a block. */
  function Start(block: Block): int
    requires block.prefix <= block.network.Width()
  {
    block.network.bits - block.network.bits % Size(block)
  }

  lemma DivMulEqual(a: nat, b: nat, n: nat)
    requires n > 0
    ensures a / n * n == b / n * n <==> a / n == b / n
  {
    if a / n * n == b / n * n {
      ModUnique(a / n * n, a / n, 0, n);
      ModUnique(b / n * n, b / n, 0, n);
    }
  }

  /**
   * The mask test holds exactly when address and network agree after division by the block
   * size; the shift amount is below the word width wherever the code shifts.
   */
  lemma MaskIsDivision(ip: nat, net: nat, prefix: nat, w: nat)
    requires prefix <= w && ip < Pow2(w) && net < Pow2(w)
    ensures prefix > 0 ==> w - prefix < w
    ensures MaskedEqual(ip, net, prefix, w) <==> ip / Pow2(w - prefix) == net / Pow2(w - prefix)
  {
    var k := w - prefix;
    if prefix == 0 {
      ModUnique(ip, 0, ip, Pow2(w));
      ModUnique(net, 0, net, Pow2(w));
    } else {
      MaskValue(w, k);
      AndMask(ip, k, w);
      AndMask(net, k, w);
      DivMulEqual(ip, net, Pow2(k));
    }
  }

  /** The numbers with one quotient form an interval that starts at a multiple. */
  lemma Interval(x: nat, y: nat, n: nat)
    requires n > 0
    ensures x / n == y / n <==> y - y % n <= x < y - y % n + n
    ensures (y - y % n) % n == 0
  {
    var q := y / n;
    var start := y - y % n;
    assert start == q * n;
    ModUnique(start, q, 0, n);
    assert x == x / n * n + x % n;
    if start <= x < start + n {
      ModUnique(x, q, x - start, n);
    }
  }

  /** A block is an interval of its size, aligned to its size. */
  lemma BlockIsInterval(ip: IpAddr, block: Block)
    requires ip.Valid() && block.network.Valid() && block.prefix <= block.network.Width()
    ensures InBlock(ip, block) <==>
      ip.Width() == block.network.Width() && Start(block) <= ip.bits < Start(block) + Size(block)
    ensures Start(block) % Size(block) == 0
  {
    Interval(ip.bits, block.network.bits, Size(block));
    if ip.Width() == block.network.Width() {
      MaskIsDivision(ip.bits, block.network.bits, block.prefix, ip.Width());
    }
  }

  lemma NetworkInBlock(block: Block)
    requires block.network.Valid() && block.prefix <= block.network.Width()
    ensures InBlock(block.network, block)
  {
    MaskIsDivision(block.network.bits, block.network.bits, block.prefix, block.network.Width());
  }

  lemma DivDiv(x: int, a: int, b: int)
    requires a > 0 && b > 0
    ensures a * b > 0 && x / (a * b) == x / a / b
  {
    var y := x / a;
    var s := x % a;
    var q := y / b;
    var t := y % b;
    MulAtLeast(b, a);
    assert y * a == (q * b + t) * a;
    assert (q * b + t) * a == q * b * a + t * a;
    assert q * b * a == q * (a * b);
    assert (b - t) * a == b * a - t * a;
    MulAtLeast(b - t, a);
    assert t * a >= 0;
    ModUnique(x, q, t * a + s, a * b);
  }

  /** Division by a larger block size factors through division by a smaller one. */
  lemma DivFactors(x: nat, k: nat, j: nat)
    ensures x / Pow2(k + j) == x / Pow2(k) / Pow2(j)
  {
    Pow2Sum(k, j);
    DivDiv(x, Pow2(k), Pow2(j));
  }

  /** Two blocks of one family are nested, the longer prefix inside, or disjoint. */
  lemma NestedOrDisjoint(inner: Block, outer: Block)
    requires inner.network.Valid() && outer.network.Valid()
    requires inner.network.Width() == outer.network.Width()
    requires outer.prefix <= inner.prefix <= inner.network.Width()
    ensures (forall ip: IpAddr :: ip.Valid() && InBlock(ip, inner) ==> InBlock(ip, outer))
         || (forall ip: IpAddr :: ip.Valid() && InBlock(ip, inner) ==> !InBlock(ip, outer))
    ensures InBlock(inner.network, outer) <==>
            forall ip: IpAddr :: ip.Valid() && InBlock(ip, inner) ==> InBlock(ip, outer)
  {
    var w := inner.network.Width();
    var k := w - inner.prefix;
    var j := inner.prefix - outer.prefix;
    forall ip: IpAddr | ip.Valid() && InBlock(ip, inner) ensures InBlock(ip, outer) <==> InBlock(inner.network, outer) {
      MaskIsDivision(ip.bits, inner.network.bits, inner.prefix, w);
      MaskIsDivision(ip.bits, outer.network.bits, outer.prefix, w);
      MaskIsDivision(inner.network.bits, outer.network.bits, outer.prefix, w);
      DivFactors(ip.bits, k, j);
      DivFactors(inner.network.bits, k, j);
    }
    NetworkInBlock(inner);
  }

  /** A longer prefix of the same network is a subset. */
  lemma LongerPrefixIsSubset(network: IpAddr, short: nat, long: nat, ip: IpAddr)
    requires network.Valid() && ip.Valid() && short <= long <= network.Width()
    ensures InBlock(ip, Block(network, long)) ==> InBlock(ip, Block(network, short))
  {
    NestedOrDisjoint(Block(network, long), Block(network, short));
    NetworkInBlock(Block(network, short));
  }

  /** The test as called: malformed or out-of-range text matches nothing. */
  lemma IpInCidrMeaning(ip: IpAddr, address: Option<IpAddr>, prefix: Option<nat>)
    requires ip.Valid() && (address.Some? ==> address.value.Valid())
    ensures IpInCidr(ip, address, prefix) <==>
      && address.Some? && prefix.Some?
      && ip.V4? == address.value.V4?
      && var bits := if ip.V4? then 32 else 128;
         && prefix.value <= bits
         && ip.bits / Pow2(bits - prefix.value) == address.value.bits / Pow2(bits - prefix.value)
  {
    if address.Some? && prefix.Some? && prefix.value <= address.value.Width() && ip.Width() == address.value.Width() {
      MaskIsDivision(ip.bits, address.value.bits, prefix.value, ip.Width());
    }
  }
}
