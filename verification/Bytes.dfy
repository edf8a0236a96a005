/** Option and Result, in the shape the source's `Option` and `Result` have. */
module Wrappers {
  datatype Option<+T> = None | Some(value: T)

  datatype Result<+T, +E> = Ok(value: T) | Err(error: E)
}

/**
 Octets, and the big-endian number representation that frame sizes and metadata
 value sizes use. `usize` is taken to be 64 bits wide.
 */
module Bytes {
  type byte = x: int | 0 <= x < 256

  type bytes = seq<byte>

  const USIZE_LIMIT := 0x1_0000_0000_0000_0000

  type usize = x: int | 0 <= x < USIZE_LIMIT

  function Min(a: nat, b: nat): nat {
    if a < b then a else b
  }

  /** The number a big-endian octet string stands for. */
  function FromBE(s: bytes): nat {
    if s == [] then 0 else FromBE(s[..|s| - 1]) * 256 + s[|s| - 1]
  }

  /** The `width` low-order octets of `n`, most significant first. */
  function ToBE(n: nat, width: nat): (s: bytes)
    ensures |s| == width
  {
    if width == 0 then [] else ToBE(n / 256, width - 1) + [n % 256]
  }

  function Pow256(k: nat): (p: nat)
    ensures p > 0
  {
    if k == 0 then 1 else 256 * Pow256(k - 1)
  }

  lemma {:induction false} FromBEInverse(n: nat, width: nat)
    requires n < Pow256(width)
    ensures FromBE(ToBE(n, width)) == n
  {
    if width > 0 {
      FromBEInverse(n / 256, width - 1);
      var s := ToBE(n, width);
      assert s[..|s| - 1] == ToBE(n / 256, width - 1);
    }
  }

  lemma {:induction false} ToBEInverse(s: bytes)
    ensures FromBE(s) < Pow256(|s|)
    ensures ToBE(FromBE(s), |s|) == s
  {
    if s != [] {
      ToBEInverse(s[..|s| - 1]);
      var hi, lo := FromBE(s[..|s| - 1]), s[|s| - 1];
      assert (hi * 256 + lo) / 256 == hi && (hi * 256 + lo) % 256 == lo;
      assert s == s[..|s| - 1] + [lo];
    }
  }

  /** Octet by octet: the most significant first. */
  lemma {:induction false} ToBEAt(n: nat, width: nat, i: nat)
    requires i < width
    ensures ToBE(n, width)[i] == n / Pow256(width - 1 - i) % 256
  {
    if i < width - 1 {
      ToBEAt(n / 256, width - 1, i);
      DivideTwice(n, Pow256(width - 2 - i));
    }
  }

  lemma DivideTwice(n: nat, b: nat)
    requires b > 0
    ensures n / 256 / b == n / (256 * b)
  {
    var m := n / 256;
    var q, s := m / b, m % b;
    var qb := q * b;
    assert m == qb + s;
    assert q * (256 * b) == 256 * qb;
    QuotientIs(n, 256 * b, q, 256 * s + n % 256);
  }

  lemma QuotientIs(n: nat, d: nat, q: nat, r: nat)
    requires d > 0 && n == q * d + r && r < d
    ensures n / d == q
  {
    var p := n / d;
    assert p * d <= n < (p + 1) * d;
    TimesOrder(p + 1, q, d);
    TimesOrder(q + 1, p, d);
  }

  lemma TimesOrder(a: nat, b: nat, d: nat)
    ensures a <= b ==> a * d <= b * d
  {}

  lemma Pow256Values()
    ensures Pow256(4) == 0x1_0000_0000
    ensures Pow256(8) == USIZE_LIMIT
  {
    assert Pow256(2) == 256 * Pow256(1);
    assert Pow256(4) == 256 * Pow256(3);
    assert Pow256(6) == 256 * Pow256(5);
    assert Pow256(8) == 256 * Pow256(7);
  }
}
