/**
 * Version 7 UUIDs: a 48-bit Unix millisecond timestamp, 12 bits of
 * sub-millisecond clock precision in `rand_a` (method 3 of section 6.2 of RFC
 * 9562), and random bits.
 *
 * The clock and the random source are parameters: `make7` receives the
 * `(ms, ra)` pair its tick function returned and the eight bytes `rng.Read`
 * would have filled in; `tickBatch` receives the successive clock readings it
 * would have taken, already converted by `msranda`.
 */
module UuidV7 {
  import opened Bits
  import opened Outcomes
  import opened Doc
  import opened Uuid

  /** Go's `byte(x)` on an `int64`: the low eight bits of the two's complement form. */
  function Trunc(x: int): (r: byte)
    ensures r as int == x % 256
  {
    ByteOfNat(x % 256);
    (x % 256) as byte
  }

  /** 2^48: the timestamps that fit the 48-bit `unix_ts_ms` field. */
  const MsLimit: nat := 0x1_0000_0000_0000

  /**
   * The first eight bytes `make7` writes for a non-negative millisecond count
   * `ms` and sub-millisecond count `ra`: the low 48 bits of `ms` big-endian,
   * then the low 12 bits of `ra` (`ra >> 8` is an arithmetic shift, a floor
   * division).
   */
  function V7Head(ms: nat, ra: int): (h: seq<byte>)
    ensures |h| == 8 && h[6] < 16
  {
    [Trunc(ms / 0x100_0000_0000), Trunc(ms / 0x1_0000_0000), Trunc(ms / 0x100_0000),
     Trunc(ms / 0x1_0000), Trunc(ms / 0x100), Trunc(ms),
     Trunc(ra / 0x100) & 0x0f, Trunc(ra)]
  }

  /** Version 7 over the high nibble of byte 6 and variant 2 over the top bits of byte 8. */
  function Stamped(b: Block): (s: Block)
    ensures UUID(s).Version() == Version7 && UUID(s).Variant() == Variant9562
    ensures s[6] & 0x0f == b[6] & 0x0f && s[8] & 0x3f == b[8] & 0x3f
    ensures forall i | 0 <= i < 16 && i != 6 && i != 8 :: s[i] == b[i]
  {
    b[6 := (b[6] & 0x0f) | 0x70][8 := (b[8] & 0x3f) | 0x80]
  }

  /** The bytes `make7` returns: the head, the eight random bytes, then version and variant. */
  function V7Bytes(ms: nat, ra: int, rnd: seq<byte>): (b: Block)
    requires |rnd| == 8
    ensures UUID(b).Version() == Version7 && UUID(b).Variant() == Variant9562
    ensures b[..6] == V7Head(ms, ra)[..6] && b[6] == V7Head(ms, ra)[6] | 0x70 && b[7] == V7Head(ms, ra)[7]
    ensures b[9..] == rnd[1..] && b[8] & 0x3f == rnd[0] & 0x3f
  {
    var b := Stamped(V7Head(ms, ra) + rnd);
    NibbleOr(V7Head(ms, ra)[6]);
    assert b[..6] == V7Head(ms, ra)[..6];
    assert b[9..] == rnd[1..];
    b
  }

  /** `make7`: panics before the epoch, otherwise fills an array step by step as the Go code does. */
  method Make7(ms: int, ra: int, rnd: seq<byte>) returns (r: Outcome<UUID>)
    requires |rnd| == 8
    ensures ms < 0 <==> r.Panic?
    ensures ms >= 0 ==> r == Ok(UUID(V7Bytes(ms, ra, rnd)))
  {
    if ms < 0 {
      return Panic;
    }
    var b := new byte[16](_ => 0);
    SetHead(b, ms, ra);
    ReadRandom(b, 8, rnd);
    assert b[..] == V7Head(ms, ra) + rnd;
    Stamp(b);
    r := Ok(UUID(b[..]));
  }

  /** The `unix_ts_ms` and `rand_a` writes of `make7`: the first eight bytes become `V7Head`. */
  method SetHead(b: array<byte>, ms: nat, ra: int)
    requires b.Length == 16
    modifies b
    ensures b[..8] == V7Head(ms, ra) && b[8..] == old(b[8..])
  {
    b[0], b[1], b[2], b[3], b[4], b[5] :=
      Trunc(ms / 0x100_0000_0000), Trunc(ms / 0x1_0000_0000), Trunc(ms / 0x100_0000), Trunc(ms / 0x1_0000), Trunc(ms / 0x100), Trunc(ms);
    b[6] := Trunc(ra / 0x100) & 0x0f;
    b[7] := Trunc(ra);
    HeadWritten(b[..8], ms, ra);
  }

  /** Eight bytes holding the fields `make7` writes are `V7Head`. */
  lemma HeadWritten(h: seq<byte>, ms: nat, ra: int)
    requires |h| == 8
    requires h[0] == Trunc(ms / 0x100_0000_0000) && h[1] == Trunc(ms / 0x1_0000_0000) && h[2] == Trunc(ms / 0x100_0000)
    requires h[3] == Trunc(ms / 0x1_0000) && h[4] == Trunc(ms / 0x100) && h[5] == Trunc(ms)
    requires h[6] == Trunc(ra / 0x100) & 0x0f && h[7] == Trunc(ra)
    ensures h == V7Head(ms, ra)
  {
  }

  /** The last step of `make7`: version and variant set in place. */
  method Stamp(b: array<byte>)
    requires b.Length == 16
    modifies b
    ensures b[..] == Stamped(old(b[..]))
  {
    b[6], b[8] := (b[6] & 0x0f) | 0x70, (b[8] & 0x3f) | 0x80;
  }

  /** `rng.Read(dst[off:])`: the random bytes copied into the tail of `dst`, the head left alone. */
  method ReadRandom(dst: array<byte>, off: nat, rnd: seq<byte>)
    requires off + |rnd| == dst.Length
    modifies dst
    ensures dst[..off] == old(dst[..off]) && dst[off..] == rnd
  {
    var i := 0;
    while i < |rnd|
      invariant 0 <= i <= |rnd|
      invariant dst[..off] == old(dst[..off]) && dst[off..off + i] == rnd[..i]
    {
      dst[off + i] := rnd[i];
      i := i + 1;
    }
  }

  /** A `time.Time`: the zero time, or an instant in nanoseconds since the Unix epoch. */
  datatype Instant = ZeroTime | At(unixNano: int)

  /**
   * `Time`: the zero time for any version but 7; for version 7, the
   * millisecond timestamp plus `rand_a` scaled from 4096 steps back to
   * nanoseconds, which stays inside that millisecond.
   */
  function Time(u: UUID): (t: Instant)
    ensures t.ZeroTime? <==> u.Version() != Version7
    ensures t.At? ==> FromBE(u.b[..6]) * 1_000_000 <= t.unixNano < FromBE(u.b[..6]) * 1_000_000 + 1_000_000
  {
    if u.Version() != Version7 then ZeroTime
    else
      var ms := FromBE(u.b[..6]);
      var ra := (u.b[6] & 0x0f) as int * 256 + u.b[7] as int;
      At(ms * 1_000_000 + ra * 1_000_000 / 4096)
  }

  /** Bytes 0 to 5 hold `ms`, and bytes 0 to 7 read as `ms`, the version and `ra`, for a timestamp and `ra` in range. */
  lemma V7Prefix(ms: nat, ra: int, rnd: seq<byte>)
    requires |rnd| == 8 && ms < MsLimit && 0 <= ra < 4096
    ensures FromBE(V7Bytes(ms, ra, rnd)[..6]) == ms
    ensures (V7Bytes(ms, ra, rnd)[6] & 0x0f) as int * 256 + V7Bytes(ms, ra, rnd)[7] as int == ra
    ensures FromBE(V7Bytes(ms, ra, rnd)[..8]) == ms * 0x1_0000 + 0x7000 + ra
  {
    var b := V7Bytes(ms, ra, rnd);
    FromBE6(ms, b[..6]);
    assert b[..8][..7] == b[..7] && b[..7][..6] == b[..6];
    RandABytes(ra);
  }

  /** Six bytes holding `ms / 256^(5 - i) % 256` at each `i` read back as `ms`, for `ms` below 2^48. */
  lemma FromBE6(ms: nat, b: seq<byte>)
    requires ms < MsLimit && |b| == 6
    requires b[0] as int == (ms / 0x100_0000_0000) % 256 && b[1] as int == (ms / 0x1_0000_0000) % 256
    requires b[2] as int == (ms / 0x100_0000) % 256 && b[3] as int == (ms / 0x1_0000) % 256
    requires b[4] as int == (ms / 0x100) % 256 && b[5] as int == ms % 256
    ensures FromBE(b) == ms
  {
    ShiftChain(ms);
    var m1, m2, m3, m4, m5 := ms / 0x100, ms / 0x1_0000, ms / 0x100_0000, ms / 0x1_0000_0000, ms / 0x100_0000_0000;
    assert b[..1][..0] == [];
    FromBEStep(b, 1, m5);
    FromBEStep(b, 2, m4);
    FromBEStep(b, 3, m3);
    FromBEStep(b, 4, m2);
    FromBEStep(b, 5, m1);
    FromBEStep(b, 6, ms);
    assert b[..6] == b;
  }

  /** The shifts by 8, 16, 24, 32 and 40 bits each take one more byte off the previous one. */
  lemma ShiftChain(ms: nat)
    requires ms < MsLimit
    ensures ms / 0x1_0000 == ms / 0x100 / 0x100 && ms / 0x100_0000 == ms / 0x1_0000 / 0x100
    ensures ms / 0x1_0000_0000 == ms / 0x100_0000 / 0x100 && ms / 0x100_0000_0000 == ms / 0x1_0000_0000 / 0x100
    ensures ms / 0x100_0000_0000 < 256 && ms / 0x100_0000_0000 / 0x100 == 0
  {
  }

  /** One more byte on the right multiplies the big-endian value by 256 and adds the byte. */
  lemma FromBEStep(b: seq<byte>, k: nat, q: nat)
    requires 0 < k <= |b| && FromBE(b[..k - 1]) == q / 256 && b[k - 1] as int == q % 256
    ensures FromBE(b[..k]) == q
  {
    assert b[..k][..k - 1] == b[..k - 1];
  }

  /** The low 12 bits of `ra` survive in bytes 6 and 7, under version 7. */
  lemma RandABytes(ra: int)
    requires 0 <= ra < 4096
    ensures var b6 := (Trunc(ra / 0x100) & 0x0f) | 0x70;
            (b6 & 0x0f) as int * 256 + Trunc(ra) as int == ra && b6 as int == 0x70 + ra / 256
  {
    assert ra == (ra / 256) * 256 + ra % 256;
    VersionOverHigh(ra / 0x100);
  }

  /** The high bits of `rand_a` under version 7: byte 6 keeps them as its low nibble. */
  lemma VersionOverHigh(hi: int)
    requires 0 <= hi < 16
    ensures var b6 := (Trunc(hi) & 0x0f) | 0x70; (b6 & 0x0f) as int == hi && b6 as int == 0x70 + hi
  {
    var t := Trunc(hi);
    NibbleOr(t);
    assert (t & 0x0f) | 0x70 == t | 0x70;
  }

  /** A byte below 16 is its own low nibble, and setting version 7 over it adds 0x70. */
  lemma NibbleOr(h: byte)
    requires h < 16
    ensures h & 0x0f == h && (h | 0x70) & 0x0f == h && (h | 0x70) as int == 0x70 + h as int
  {
  }

  /**
   * `Time` gives back the instant `make7` encoded: the millisecond and `rand_a`
   * steps of 1000000/4096 nanoseconds.
   */
  lemma TimeOfV7(ms: nat, ra: int, rnd: seq<byte>)
    requires |rnd| == 8 && ms < MsLimit && 0 <= ra < 4096
    ensures Time(UUID(V7Bytes(ms, ra, rnd))) == At(ms * 1_000_000 + ra * 1_000_000 / 4096)
  {
    V7Prefix(ms, ra, rnd);
  }

  /**
   * Version 7 UUIDs sort by their clock reading: `Compare` is -1, 0 or 1 as
   * `(ms, ra)` is before, equal to or after the other, whatever the random bits.
   */
  lemma V7Order(ms1: nat, ra1: int, rnd1: seq<byte>, ms2: nat, ra2: int, rnd2: seq<byte>)
    requires |rnd1| == 8 && ms1 < MsLimit && 0 <= ra1 < 4096
    requires |rnd2| == 8 && ms2 < MsLimit && 0 <= ra2 < 4096
    ensures var c := Compare(UUID(V7Bytes(ms1, ra1, rnd1)), UUID(V7Bytes(ms2, ra2, rnd2)));
            (c == -1 <==> ms1 < ms2 || (ms1 == ms2 && ra1 < ra2)) && (c == 0 <==> ms1 == ms2 && ra1 == ra2)
  {
    V7Prefix(ms1, ra1, rnd1);
    V7Prefix(ms2, ra2, rnd2);
    PrefixOrder(V7Bytes(ms1, ra1, rnd1), V7Bytes(ms2, ra2, rnd2), ms1, ra1, ms2, ra2);
  }

  /** Blocks whose first eight bytes read `ms * 2^16 + 0x7000 + ra` compare as their `(ms, ra)` pairs. */
  lemma PrefixOrder(b1: Block, b2: Block, ms1: nat, ra1: int, ms2: nat, ra2: int)
    requires 0 <= ra1 < 4096 && FromBE(b1[..8]) == ms1 * 0x1_0000 + 0x7000 + ra1
    requires 0 <= ra2 < 4096 && FromBE(b2[..8]) == ms2 * 0x1_0000 + 0x7000 + ra2
    ensures var c := Compare(UUID(b1), UUID(b2));
            (c == -1 <==> ms1 < ms2 || (ms1 == ms2 && ra1 < ra2)) && (c == 0 <==> ms1 == ms2 && ra1 == ra2)
  {
    CompareValue(UUID(b1), UUID(b2));
    KeyOrder(Compare(UUID(b1), UUID(b2)), FromBE(b1[..8]), FromBE(b2[..8]), ms1, ra1, ms2, ra2);
  }

  /** The 16-bit shift of the timestamp above `ra` keeps the order of `(ms, ra)` pairs. */
  lemma KeyOrder(c: int, x1: int, x2: int, ms1: nat, ra1: int, ms2: nat, ra2: int)
    requires 0 <= ra1 < 4096 && 0 <= ra2 < 4096
    requires x1 == ms1 * 0x1_0000 + 0x7000 + ra1 && x2 == ms2 * 0x1_0000 + 0x7000 + ra2
    requires c == Sign(x1 - x2)
    ensures (c == -1 <==> ms1 < ms2 || (ms1 == ms2 && ra1 < ra2)) && (c == 0 <==> ms1 == ms2 && ra1 == ra2)
  {
    if ms1 < ms2 {
      assert ms1 * 0x1_0000 + 0x1_0000 <= ms2 * 0x1_0000;
    } else if ms2 < ms1 {
      assert ms2 * 0x1_0000 + 0x1_0000 <= ms1 * 0x1_0000;
    }
  }

  /**
   * `msranda` without floating point: the nanoseconds past the millisecond,
   * scaled to 4096 steps and rounded down.
   */
  function RandA(nsr: int): int
  {
    nsr * 4096 / 1_000_000
  }

  /**
   * For a remainder inside the millisecond, `rand_a` fits its 12 bits and
   * `Time` recovers the remainder to within 245 nanoseconds, from below.
   */
  lemma RandAPrecision(nsr: int)
    requires 0 <= nsr < 1_000_000
    ensures 0 <= RandA(nsr) < 4096
    ensures var back := RandA(nsr) * 1_000_000 / 4096; back <= nsr <= back + 245
  {
    var a := RandA(nsr);
    var back := a * 1_000_000 / 4096;
    assert a * 1_000_000 <= nsr * 4096 < a * 1_000_000 + 1_000_000;
    assert back * 4096 <= a * 1_000_000 < back * 4096 + 4096;
  }

  /** `(ms, tick)` is a later clock reading than `(lastms, lasttick)`. */
  predicate Newer(ms: int, tick: int, lastms: int, lasttick: int)
  {
    ms > lastms || (ms == lastms && tick > lasttick)
  }

  /**
   * The first reading among `samples` later than `(lastms, lasttick)`, which is
   * what `tickBatch` returns; None when there is none (the Go loop would keep
   * reading the clock).
   */
  function FirstNewer(samples: seq<(int, int)>, lastms: int, lasttick: int): (r: Option<(int, int)>)
    ensures r.Some? ==> r.value in samples && Newer(r.value.0, r.value.1, lastms, lasttick)
    ensures r.None? <==> forall i | 0 <= i < |samples| :: !Newer(samples[i].0, samples[i].1, lastms, lasttick)
  {
    if samples == [] then None
    else if Newer(samples[0].0, samples[0].1, lastms, lasttick) then Some(samples[0])
    else FirstNewer(samples[1..], lastms, lasttick)
  }

  /** The package's last handed-out clock reading, guarded in Go by a mutex. */
  class Ticker {
    var lastms: int
    var lasttick: int

    /** The package variables start at the clock reading taken at start-up. */
    constructor(ms: int, tick: int)
      ensures lastms == ms && lasttick == tick
    {
      lastms, lasttick := ms, tick;
    }

    /**
     * `tickBatch`: reads the clock until it is past the last reading handed
     * out, records that reading and returns it.
     */
    method TickBatch(samples: seq<(int, int)>) returns (r: Option<(int, int)>)
      modifies this
      ensures r == FirstNewer(samples, old(lastms), old(lasttick))
      ensures r.Some? ==> lastms == r.value.0 && lasttick == r.value.1
      ensures r.None? ==> lastms == old(lastms) && lasttick == old(lasttick)
    {
      var i := 0;
      while i < |samples|
        invariant 0 <= i <= |samples|
        invariant lastms == old(lastms) && lasttick == old(lasttick)
        invariant FirstNewer(samples, lastms, lasttick) == FirstNewer(samples[i..], lastms, lasttick)
      {
        var (ms, tick) := samples[i];
        if ms > lastms {
          lastms, lasttick := ms, tick;
          return Some((ms, tick));
        }
        if ms == lastms && tick > lasttick {
          lasttick := tick;
          return Some((ms, tick));
        }
        assert samples[i..][1..] == samples[i + 1..];
        i := i + 1;
      }
      return None;
    }

    /** `NewV7Strict`: `make7` on the reading `tickBatch` returns. */
    method NewV7Strict(samples: seq<(int, int)>, rnd: seq<byte>) returns (r: Option<Outcome<UUID>>)
      requires |rnd| == 8
      modifies this
      ensures r.None? <==> FirstNewer(samples, old(lastms), old(lasttick)).None?
      ensures r.Some? ==> Newer(lastms, lasttick, old(lastms), old(lasttick))
      ensures r.Some? ==> r.value == (if lastms < 0 then Panic else Ok(UUID(V7Bytes(lastms, lasttick, rnd))))
    {
      var t := TickBatch(samples);
      if t.None? {
        return None;
      }
      var u := Make7(t.value.0, t.value.1, rnd);
      return Some(u);
    }
  }

  /**
   * Successive `NewV7Strict` UUIDs strictly increase: a later reading in range
   * gives a UUID that `Compare` puts after the previous one.
   */
  lemma StrictlyIncreasing(ms1: nat, ra1: int, rnd1: seq<byte>, ms2: nat, ra2: int, rnd2: seq<byte>)
    requires |rnd1| == 8 && ms1 < MsLimit && 0 <= ra1 < 4096
    requires |rnd2| == 8 && ms2 < MsLimit && 0 <= ra2 < 4096
    requires Newer(ms2, ra2, ms1, ra1)
    ensures Compare(UUID(V7Bytes(ms1, ra1, rnd1)), UUID(V7Bytes(ms2, ra2, rnd2))) == -1
  {
    V7Order(ms1, ra1, rnd1, ms2, ra2, rnd2);
  }
}
