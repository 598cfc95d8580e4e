/** Block compression: the codec library behind `compress` and `decompress`, as two partial functions. */
module Compression {
  import opened Octets

  /** The library: either call may fail. */
  datatype Zstd = Zstd(encode: Bytes -> Option<Bytes>, decode: Bytes -> Option<Bytes>)

  const MIN_OUTPUT: nat := 1024 * 1024
  const MAX_OUTPUT: nat := 1024 * 1024 * 64

  /** The capacity `decompress` grants to the output of `n` input bytes. */
  function Capacity(n: nat): (cap: nat)
    ensures MIN_OUTPUT <= cap <= MAX_OUTPUT
  {
    if 30 * n > MAX_OUTPUT then MAX_OUTPUT else if 30 * n < MIN_OUTPUT then MIN_OUTPUT else 30 * n
  }

  /** A failure yields the empty vector. */
  function Compress(z: Zstd, data: Bytes): Bytes {
    match z.encode(data) case Some(out) => out case None => []
  }

  function Decompress(z: Zstd, data: Bytes): Bytes {
    match z.decode(data)
    case Some(out) => if |out| <= Capacity(|data|) then out else []
    case None => []
  }

  ghost predicate NeverFails(z: Zstd) {
    forall x :: z.encode(x).Some?
  }

  /** What the transfer needs of the library: decoding undoes every compression that succeeds, and, if
      any can fail, decoding nothing brings nothing. It may fail to compress whatever it likes. */
  ghost predicate Restores(z: Zstd) {
    && (forall x :: z.encode(x).Some? ==> z.decode(z.encode(x).value) == Some(x))
    && (NeverFails(z) || z.decode([]).None? || z.decode([]) == Some([]))
  }

  /** The output capacity, at least 1 MiB, never cuts a block the library can restore. */
  lemma CapacityNeverCuts(z: Zstd, data: Bytes)
    requires |data| <= MIN_OUTPUT
    requires z.encode(data).Some? && z.decode(z.encode(data).value) == Some(data)
    ensures Decompress(z, Compress(z, data)) == data
  {
  }

  /** However little data there is to decompress, no more than 1 MiB or thirty times as much comes of it, and never
      more than 64 MiB; within that nothing is cut. */
  lemma OutputBounded(z: Zstd, data: Bytes)
    ensures |Decompress(z, data)| <= 64 * 0x10_0000
    ensures |Decompress(z, data)| <= 0x10_0000 || |Decompress(z, data)| <= 30 * |data|
    ensures z.decode(data).Some? && |z.decode(data).value| <= 64 * 0x10_0000
            && (|z.decode(data).value| <= 0x10_0000 || |z.decode(data).value| <= 30 * |data|)
            ==> z.decode(data) == Some(Decompress(z, data))
    ensures z.decode(data).None? ==> Decompress(z, data) == []
  {
  }
}
