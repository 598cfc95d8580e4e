/** Byte strings and the few facts about them that every layer uses. */
module Octets {

  newtype Byte = b: int | 0 <= b < 256

  type Bytes = seq<Byte>

  datatype Option<+T> = None | Some(value: T)

  /** The bytes of a list of chunks, in order. */
  function Concat(parts: seq<Bytes>): Bytes {
    if parts == [] then [] else parts[0] + Concat(parts[1..])
  }

  lemma {:induction false} ConcatAppend(a: seq<Bytes>, b: seq<Bytes>)
    ensures Concat(a + b) == Concat(a) + Concat(b)
  {
    if a == [] {
      assert a + b == b;
    } else {
      ConcatAppend(a[1..], b);
      assert (a + b)[1..] == a[1..] + b;
      assert a[0] + (Concat(a[1..]) + Concat(b)) == (a[0] + Concat(a[1..])) + Concat(b);
    }
  }

  // ---------------------------------------------------------------------------------------
  // Little-endian integers

  function Pow256(k: nat): (p: nat)
    ensures p >= 1
  {
    if k == 0 then 1 else 0x100 * Pow256(k - 1)
  }

  /** The `k` low bytes of `n`, least significant first. */
  function LeBytes(n: nat, k: nat): (r: Bytes)
    ensures |r| == k
    ensures k > 0 ==> r[0] as nat == n % 0x100
    decreases k
  {
    if k == 0 then [] else [(n % 0x100) as Byte] + LeBytes(n / 0x100, k - 1)
  }

  function LeValue(b: Bytes): nat {
    if b == [] then 0 else b[0] as nat + 0x100 * LeValue(b[1..])
  }

  /** Byte `i` is the digit of its power of 256. */
  lemma {:induction false} LeDigit(n: nat, k: nat, i: nat)
    requires i < k
    ensures LeBytes(n, k)[i] as nat == n / Pow256(i) % 0x100
    decreases k
  {
    if i > 0 {
      LeDigit(n / 0x100, k - 1, i - 1);
      DivDiv(n, Pow256(i - 1));
    }
  }

  lemma DivDiv(n: nat, p: nat)
    requires p >= 1
    ensures n / 0x100 / p == n / (0x100 * p)
  {
    var q := n / 0x100;
    var d := q / p;
    assert 0x100 * p > 0;
    assert q == d * p + q % p && n == 0x100 * q + n % 0x100;
    var r := 0x100 * (q % p) + n % 0x100;
    assert n == d * (0x100 * p) + r;
    assert r < 0x100 * p;
    QuotientIs(n, 0x100 * p, d, r);
  }

  lemma QuotientIs(n: nat, m: nat, d: nat, r: nat)
    requires m > 0 && n == d * m + r && r < m
    ensures n / m == d
  {
    MoreTimes(n / m, d, m);
    MoreTimes(d, n / m, m);
    assert n == n / m * m + n % m;
  }

  lemma {:induction false} MoreTimes(a: nat, b: nat, m: nat)
    ensures a < b ==> a * m + m <= b * m
    decreases b
  {
    if a < b {
      MoreTimes(a, b - 1, m);
      assert b * m == (b - 1) * m + m;
    }
  }

  lemma {:induction false} LeValueBound(b: Bytes)
    ensures LeValue(b) < Pow256(|b|)
  {
    if b != [] { LeValueBound(b[1..]); }
  }

  lemma {:induction false} LeRoundTrip(n: nat, k: nat)
    requires n < Pow256(k)
    ensures LeValue(LeBytes(n, k)) == n
    decreases k
  {
    if k > 0 {
      LeRoundTrip(n / 0x100, k - 1);
      assert LeBytes(n, k)[1..] == LeBytes(n / 0x100, k - 1);
    }
  }

  lemma {:induction false} LeBytesOfValue(b: Bytes)
    ensures LeBytes(LeValue(b), |b|) == b
  {
    if b != [] {
      LeBytesOfValue(b[1..]);
      var v := LeValue(b[1..]);
      assert LeValue(b) == b[0] as nat + 0x100 * v;
      assert LeValue(b) % 0x100 == b[0] as nat && LeValue(b) / 0x100 == v;
      assert b == [b[0]] + b[1..];
    }
  }
}
