/**
 * Version 4 UUIDs: sixteen random bytes with the version and variant bits
 * forced. The random source is a parameter: the sixteen bytes `rng.Read`
 * would have filled in.
 */
module UuidV4 {
  import opened Bits
  import opened Doc
  import opened Uuid

  /** The bytes `NewV4` returns for the random bytes `rnd`: version 4 in byte 6, variant 2 in byte 8. */
  function V4Bytes(rnd: Block): (b: Block)
    ensures UUID(b).Version() == Version4 && UUID(b).Variant() == Variant9562
    ensures b[6] & 0x0f == rnd[6] & 0x0f && b[8] & 0x3f == rnd[8] & 0x3f
    ensures forall i | 0 <= i < 16 && i != 6 && i != 8 :: b[i] == rnd[i]
    ensures !UUID(b).IsNil() && !UUID(b).IsMax()
  {
    rnd[6 := (rnd[6] & 0x0f) | 0x40][8 := (rnd[8] & 0x3f) | 0x80]
  }

  /** `NewV4`: fill a zero array with random bytes, then set version and variant in place. */
  method NewV4(rnd: Block) returns (u: UUID)
    ensures u == UUID(V4Bytes(rnd))
  {
    var b := new byte[16](_ => 0);
    var i := 0;
    while i < 16
      invariant 0 <= i <= 16
      invariant b[..i] == rnd[..i]
    {
      b[i] := rnd[i];
      i := i + 1;
    }
    assert b[..] == rnd;
    b[6], b[8] := (b[6] & 0x0f) | 0x40, (b[8] & 0x3f) | 0x80;
    u := UUID(b[..]);
  }

  /**
   * The UUIDs `NewV4` can return are exactly those of version 4 and variant 2:
   * each is returned for its own bytes, and no other UUID is returned.
   */
  lemma V4Range(b: Block)
    ensures (exists rnd: Block :: V4Bytes(rnd) == b) <==> UUID(b).Version() == Version4 && UUID(b).Variant() == Variant9562
  {
    if exists rnd: Block :: V4Bytes(rnd) == b {
      var rnd: Block :| V4Bytes(rnd) == b;
    }
    if UUID(b).Version() == Version4 && UUID(b).Variant() == Variant9562 {
      V4Fixed(b[6], b[8]);
      var r := V4Bytes(b);
      assert r[6] == b[6] && r[8] == b[8];
      assert forall i | 0 <= i < 16 :: r[i] == b[i];
    }
  }

  /** A byte 6 already holding version 4 and a byte 8 already holding variant 2 are left as they are. */
  lemma V4Fixed(b6: byte, b8: byte)
    requires b6 >> 4 == 4 && b8 >> 6 == 2
    ensures (b6 & 0x0f) | 0x40 == b6 && (b8 & 0x3f) | 0x80 == b8
  {
  }
}
