/** Address mangling: an IPv4 address and port are packed together with the microsecond clock into
    one u128, written in native byte order with its trailing zero bytes cut off.

    Shifts are multiplications and divisions by powers of two and low masks are remainders;
    `|` is spelled out bit by bit, so that the packed fields not overlapping is something proved. */
module Mangle {
  import opened Octets

  datatype Endian = Little | Big

  datatype SocketAddr = V4(ip: Bytes, port: nat) | V6

  /** A panic is an outcome the source has: for IPv6, for input over sixteen bytes, and for a
      subtraction below zero under overflow checks. */
  datatype Outcome<+T> = Ok(value: T) | Panic

  /** The values the source's types admit: four octets and a u16. */
  ghost predicate IsAddr(addr: SocketAddr) {
    addr.V4? ==> |addr.ip| == 4 && addr.port <= 0xFFFF
  }

  const TWO_16: nat := 0x1_0000
  const TWO_17: nat := 0x2_0000
  const TWO_24: nat := 0x100_0000
  const TWO_32: nat := 0x1_0000_0000
  const TWO_49: nat := 0x2_0000_0000_0000

  // ---------------------------------------------------------------------------------------
  // Native byte order

  function Reversed(b: Bytes): (r: Bytes)
    ensures |r| == |b|
    ensures forall i | 0 <= i < |b| :: r[i] == b[|b| - 1 - i]
  {
    seq(|b|, i requires 0 <= i < |b| => b[|b| - 1 - i])
  }

  /** A little-endian byte string as this machine orders it, and back. */
  function Native(endian: Endian, b: Bytes): (r: Bytes)
    ensures |r| == |b|
    ensures forall i | 0 <= i < |b| :: r[i] == if endian == Little then b[i] else b[|b| - 1 - i]
  {
    if endian == Little then b else Reversed(b)
  }

  lemma NativeInvolutive(endian: Endian, b: Bytes)
    ensures Native(endian, Native(endian, b)) == b
  {
  }

  // ---------------------------------------------------------------------------------------
  // Bitwise or

  function BitOr(a: nat, b: nat): nat {
    if a == 0 && b == 0 then 0
    else (if a % 2 == 1 || b % 2 == 1 then 1 else 0) + 2 * BitOr(a / 2, b / 2)
  }

  function Pow2(k: nat): (p: nat)
    ensures p >= 1
  {
    if k == 0 then 1 else 2 * Pow2(k - 1)
  }

  lemma {:induction false} OrZero(a: nat)
    ensures BitOr(a, 0) == a
  {
    if a != 0 { OrZero(a / 2); }
  }

  /** Or-ing a `k`-bit number into a number shifted left by `k` adds it. */
  lemma {:induction false} OrDisjoint(a: nat, k: nat, b: nat)
    requires b < Pow2(k)
    ensures BitOr(a * Pow2(k), b) == a * Pow2(k) + b
    decreases k
  {
    if k == 0 {
      OrZero(a);
    } else {
      var p := Pow2(k - 1);
      assert a * Pow2(k) == 2 * (a * p);
      OrDisjoint(a, k - 1, b / 2);
    }
  }

  lemma Powers()
    ensures Pow2(17) == TWO_17 && Pow2(49) == TWO_49 && Pow256(4) == TWO_32
    ensures Pow256(11) == 0x100_0000 * TWO_32 * TWO_32 && Pow256(16) == TWO_32 * TWO_32 * TWO_32 * TWO_32
  {
    assert Pow2(8) == 0x100;
    assert Pow2(16) == TWO_16;
    assert Pow2(24) == TWO_24;
    assert Pow2(32) == TWO_32;
    assert Pow2(40) == 0x100 * TWO_32;
    assert Pow2(48) == TWO_16 * TWO_32;
    assert Pow256(8) == TWO_32 * TWO_32;
    assert Pow256(12) == TWO_32 * TWO_32 * TWO_32;
  }

  // ---------------------------------------------------------------------------------------
  // Packing

  function Pack(ip: nat, port: nat, tm: nat): nat {
    BitOr(BitOr((ip + tm) * TWO_49, tm * TWO_17), port + tm % TWO_16)
  }

  function UnpackTime(number: nat): nat {
    number / TWO_17 % TWO_32
  }

  function Unpack(number: nat): Outcome<(nat, nat)> {
    var tm := UnpackTime(number);
    if number / TWO_49 < tm || number % TWO_24 < tm % TWO_16 then Panic
    else Ok(((number / TWO_49 - tm) % TWO_32, (number % TWO_24 - tm % TWO_16) % TWO_16))
  }

  /** The packed fields are 33, 32 and 17 bits wide and never overlap: the number is their sum, in 82 bits. */
  lemma FieldsDisjoint(ip: nat, port: nat, tm: nat)
    requires ip < TWO_32 && tm < TWO_32 && port < TWO_16
    ensures ip + tm < 2 * TWO_32 && port + tm % TWO_16 < TWO_17
    ensures Pack(ip, port, tm) == (ip + tm) * TWO_49 + tm * TWO_17 + (port + tm % TWO_16)
  {
    hide Pow2, BitOr;
    Powers();
    OrDisjoint(ip + tm, 49, tm * TWO_17);
    var upper := (ip + tm) * TWO_32 + tm;
    OrDisjoint(upper, 17, port + tm % TWO_16);
    assert upper * TWO_17 == (ip + tm) * TWO_49 + tm * TWO_17;
  }

  /** The 24-bit mask of the decoder also catches seven bits of the clock; all of them lie above the
      sixteen bits of the port that are kept. */
  lemma StrayBits(ip: nat, port: nat, tm: nat)
    requires ip < TWO_32 && tm < TWO_32 && port < TWO_16
    ensures Pack(ip, port, tm) % TWO_24 == (tm % 0x80) * TWO_17 + (port + tm % TWO_16)
    ensures ((tm % 0x80) * TWO_17 + port) % TWO_16 == port
  {
    hide Pack, Pow2, BitOr;
    FieldsDisjoint(ip, port, tm);
    var q, r := tm / 0x80, tm % 0x80;
    var kept := r * TWO_17 + (port + tm % TWO_16);
    assert Pack(ip, port, tm) == TWO_24 * ((ip + tm) * 0x200_0000 + q) + kept by { assert tm == 0x80 * q + r; }
    RemainderOf24((ip + tm) * 0x200_0000 + q, kept);
    RemainderOf16(2 * r, port);
  }

  lemma RemainderOf24(q: nat, r: nat)
    requires r < TWO_24
    ensures (TWO_24 * q + r) % TWO_24 == r
  {
  }

  lemma RemainderOf16(q: nat, r: nat)
    requires r < TWO_16
    ensures (TWO_16 * q + r) % TWO_16 == r
  {
  }

  /** Neither subtraction of the decoder goes below zero, and both fields come back. */
  lemma UnpackPack(ip: nat, port: nat, tm: nat)
    requires ip < TWO_32 && tm < TWO_32 && port < TWO_16
    ensures Unpack(Pack(ip, port, tm)) == Ok((ip, port))
  {
    hide Pack, Pow2, BitOr;
    FieldsDisjoint(ip, port, tm);
    StrayBits(ip, port, tm);
    var number := Pack(ip, port, tm);
    assert number / TWO_49 == ip + tm;
    assert number / TWO_17 == (ip + tm) * TWO_32 + tm;
    assert UnpackTime(number) == tm;
  }

  // ---------------------------------------------------------------------------------------
  // Trimming

  /** The bytes without the zero bytes at their end. */
  function Trim(b: Bytes): (r: Bytes)
    ensures |r| <= |b|
  {
    if b != [] && b[|b| - 1] == 0 then Trim(b[..|b| - 1]) else b
  }

  function Pad(b: Bytes): (r: Bytes)
    requires |b| <= 16
    ensures |r| == 16
  {
    b + seq(16 - |b|, _ => 0)
  }

  /** Trimming takes off nothing but zero bytes, and all of them. */
  lemma {:induction false} TrimIsShortest(b: Bytes)
    ensures Trim(b) <= b
    ensures forall i | |Trim(b)| <= i < |b| :: b[i] == 0
    ensures Trim(b) != [] ==> Trim(b)[|Trim(b)| - 1] != 0
  {
    if b != [] && b[|b| - 1] == 0 { TrimIsShortest(b[..|b| - 1]); }
  }

  lemma PadTrim(b: Bytes)
    requires |b| == 16
    ensures Pad(Trim(b)) == b
  {
    TrimIsShortest(b);
  }

  /** A number below 256^k has only zero bytes from position `k` on. */
  lemma {:induction false} HighBytesZero(n: nat, k: nat, width: nat)
    requires n < Pow256(k) && k <= width
    ensures forall i | k <= i < width :: LeBytes(n, width)[i] == 0
    decreases width
  {
    if width > 0 {
      var rest := LeBytes(n / 0x100, width - 1);
      HighBytesZero(n / 0x100, if k == 0 then 0 else k - 1, width - 1);
      forall i | k <= i < width ensures LeBytes(n, width)[i] == 0 {
        if i > 0 { assert LeBytes(n, width)[i] == rest[i - 1]; }
      }
    }
  }

  // ---------------------------------------------------------------------------------------
  // Encoding and decoding

  function Encode(endian: Endian, addr: SocketAddr, tm: nat): Outcome<Bytes> {
    match addr
    case V6 => Panic
    case V4(ip, port) =>
      Ok(Trim(Native(endian, LeBytes(Pack(LeValue(Native(endian, ip)), port, tm), 16))))
  }

  function Decode(endian: Endian, bytes: Bytes): Outcome<SocketAddr> {
    if |bytes| > 16 then Panic
    else
      match Unpack(LeValue(Native(endian, Pad(bytes))))
      case Panic => Panic
      case Ok((ip, port)) => Ok(V4(Native(endian, LeBytes(ip, 4)), port))
  }

  /** Main result: every IPv4 address and port survives mangling, at every clock value and in either
      byte order. */
  lemma MangleRoundTrip(endian: Endian, addr: SocketAddr, tm: nat)
    requires IsAddr(addr) && addr.V4? && tm < TWO_32
    ensures Encode(endian, addr, tm).Ok?
    ensures Decode(endian, Encode(endian, addr, tm).value) == Ok(addr)
  {
    hide Pack, Pow2, BitOr, Unpack, Pow256, LeBytes, LeValue, Trim, Native;
    Powers();
    var octets := Native(endian, addr.ip);
    var ip := LeValue(octets);
    LeValueBound(octets);
    var number := Pack(ip, addr.port, tm);
    FieldsDisjoint(ip, addr.port, tm);
    var bytes := Native(endian, LeBytes(number, 16));
    TrimIsShortest(bytes);
    PadTrim(bytes);
    NativeInvolutive(endian, LeBytes(number, 16));
    LeRoundTrip(number, 16);
    UnpackPack(ip, addr.port, tm);
    LeBytesOfValue(octets);
    NativeInvolutive(endian, addr.ip);
  }

  /** The number a byte string spells, in this machine's order, once padded to sixteen bytes. */
  function Spelled(endian: Endian, bytes: Bytes): nat
    requires |bytes| <= 16
  {
    LeValue(Native(endian, Pad(bytes)))
  }

  /** What is on the wire: the address and the clock in the upper bits, the clock in the middle, the port and the low
      clock bits at the bottom. */
  lemma MangledSpells(endian: Endian, addr: SocketAddr, tm: nat)
    requires IsAddr(addr) && addr.V4? && tm < 0x1_0000_0000
    ensures Encode(endian, addr, tm).Ok? && |Encode(endian, addr, tm).value| <= 16
    ensures Spelled(endian, Encode(endian, addr, tm).value)
         == (LeValue(Native(endian, addr.ip)) + tm) * 0x2_0000_0000_0000 + tm * 0x2_0000
            + (addr.port + tm % 0x1_0000)
  {
    hide Pack, Pow2, BitOr, Pow256, LeBytes, LeValue, Trim, Native;
    Powers();
    var octets := Native(endian, addr.ip);
    LeValueBound(octets);
    var number := Pack(LeValue(octets), addr.port, tm);
    FieldsDisjoint(LeValue(octets), addr.port, tm);
    var bytes := Native(endian, LeBytes(number, 16));
    TrimIsShortest(bytes);
    PadTrim(bytes);
    NativeInvolutive(endian, LeBytes(number, 16));
    LeRoundTrip(number, 16);
  }

  /** IPv6 is refused on encoding; on decoding, more than sixteen bytes are, and exactly those numbers whose upper or
      lower field is less than the clock it would contain. */
  lemma RefusedIff(endian: Endian, bytes: Bytes, tm: nat)
    ensures Encode(endian, V6, tm) == Panic
    ensures Decode(endian, bytes) == Panic
        <==> |bytes| > 16
             || var v := Spelled(endian, bytes);
                var clock := v / 0x2_0000 % 0x1_0000_0000;
                v / 0x2_0000_0000_0000 < clock || v % 0x100_0000 < clock % 0x1_0000
  {
    hide LeValue, Native, LeBytes, Pad;
  }

  /** On a little-endian machine the result is at most eleven bytes and does not end in zero. */
  lemma MangledIsShort(addr: SocketAddr, tm: nat)
    requires IsAddr(addr) && addr.V4? && tm < TWO_32
    ensures var bytes := Encode(Little, addr, tm).value;
            |bytes| <= 11 && (bytes != [] ==> bytes[|bytes| - 1] != 0)
  {
    hide Pack, Pow2, BitOr, Pow256, LeBytes, LeValue, Trim;
    Powers();
    LeValueBound(addr.ip);
    var number := Pack(LeValue(addr.ip), addr.port, tm);
    FieldsDisjoint(LeValue(addr.ip), addr.port, tm);
    HighBytesZero(number, 11, 16);
    TrimIsShortest(LeBytes(number, 16));
  }

  /** How many zero bytes the array ends in. */
  method CountPadding(bytes: Bytes) returns (padding: nat)
    requires |bytes| == 16
    ensures padding <= 16 && bytes[..16 - padding] == Trim(bytes)
  {
    padding := 0;
    assert bytes[..16] == bytes;
    while padding < 16 && bytes[15 - padding] == 0
      invariant padding <= 16
      invariant Trim(bytes[..16 - padding]) == Trim(bytes)
    {
      assert bytes[..16 - padding][..15 - padding] == bytes[..15 - padding];
      padding := padding + 1;
    }
  }

  method EncodeAddr(endian: Endian, addr: SocketAddr, now: nat) returns (r: Outcome<Bytes>)
    requires IsAddr(addr)
    ensures r == Encode(endian, addr, now % TWO_32)
  {
    hide BitOr, LeBytes, LeValue, Native, Trim;
    match addr {
      case V6 =>
        r := Panic;
      case V4(octets, p) =>
        var tm := now % TWO_32;
        var ip := LeValue(Native(endian, octets));
        var v := BitOr(BitOr((ip + tm) * TWO_49, tm * TWO_17), p + tm % TWO_16);
        var bytes := Native(endian, LeBytes(v, 16));
        var padding := CountPadding(bytes);
        r := Ok(bytes[..16 - padding]);
    }
  }

  method DecodeAddr(endian: Endian, bytes: Bytes) returns (r: Outcome<SocketAddr>)
    ensures r == Decode(endian, bytes)
  {
    hide LeValue, LeBytes, Native;
    if |bytes| > 16 {
      return Panic;
    }
    var padded := new Byte[16](_ => 0);
    forall i | 0 <= i < |bytes| {
      padded[i] := bytes[i];
    }
    assert padded[..] == Pad(bytes);
    var number := LeValue(Native(endian, padded[..]));
    var tm := number / TWO_17 % TWO_32;
    if number / TWO_49 < tm || number % TWO_24 < tm % TWO_16 {
      return Panic;
    }
    var ip := (number / TWO_49 - tm) % TWO_32;
    var port := (number % TWO_24 - tm % TWO_16) % TWO_16;
    return Ok(V4(Native(endian, LeBytes(ip, 4)), port));
  }
}
