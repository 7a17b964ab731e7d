/**
 * The package's constants and lookup tables: the textual forms of the Nil
 * and Max UUIDs, the versions it knows, the raw Nil and Max bytes, and the
 * two tables that map a version character back to its version.
 */
module Doc {
  import opened Bits
  import opened Text
  import opened Outcomes
  import opened Radix

  /** Go's `Version`, a `uint8`. */
  type Version = v: nat | v < 256

  const VersionNil: Version := 0
  const Version4: Version := 4
  const Version7: Version := 7
  const VersionMax: Version := 15

  /** The variant RFC 9562 defines for the versions above. */
  const Variant9562: nat := 2

  const MaxCanonical: Text := "ffffffff-ffff-ffff-ffff-ffffffffffff"
  const MaxCompact32: Text := "P777777777777777777777777P"
  const MaxCompact64: Text := "P____________________P"
  /** `"ffffffff-ffff-ffff-ffff-ffffffffffff"` with its double quotes. */
  const MaxJSON: Text := "\"" + MaxCanonical + "\""
  const NilCanonical: Text := "00000000-0000-0000-0000-000000000000"
  const NilCompact32: Text := "AAAAAAAAAAAAAAAAAAAAAAAAAA"
  const NilCompact64: Text := "AAAAAAAAAAAAAAAAAAAAAA"
  /** `"00000000-0000-0000-0000-000000000000"` with its double quotes. */
  const NilJSON: Text := "\"" + NilCanonical + "\""

  const BytesNil: Block := [0x00, 0x00, 0x00, 0x00, 0x00, 0x00, 0x00, 0x00, 0x00, 0x00, 0x00, 0x00, 0x00, 0x00, 0x00, 0x00]
  const BytesMax: Block := [0xff, 0xff, 0xff, 0xff, 0xff, 0xff, 0xff, 0xff, 0xff, 0xff, 0xff, 0xff, 0xff, 0xff, 0xff, 0xff]

  /** The leading letter of the compact forms, for the versions the package supports. */
  const VersionsNCNameTable: map<achar, Version> := map['A' := VersionNil, 'E' := Version4, 'H' := Version7, 'P' := VersionMax]

  /** The version digit of the canonical form, in either case. */
  const VersionCanonicalTable: map<achar, Version> :=
    map['0' := VersionNil, '4' := Version4, '7' := Version7, 'f' := VersionMax, 'F' := VersionMax]

  /** The letter that stands for version `v` at the head of a compact form: `'A' + v`. */
  function VersionLetter(v: Version): (c: achar)
    requires v < 16
    ensures 'A' <= c <= 'P' && c as int - 'A' as int == v
  {
    ('A' as int + v) as char
  }

  /**
   * The letter table holds exactly the four supported versions, and each key
   * is the letter `VersionLetter` writes for its version, so looking up that
   * letter gives the version back.
   */
  lemma NCNameTableInvertsLetter(v: Version)
    requires v < 16
    ensures VersionLetter(v) in VersionsNCNameTable <==> v in {VersionNil, Version4, Version7, VersionMax}
    ensures VersionLetter(v) in VersionsNCNameTable ==> VersionsNCNameTable[VersionLetter(v)] == v
  {
  }

  /** Every key of the letter table is `'A'` plus its version, and the keys are A, E, H and P. */
  lemma NCNameTableKeys()
    ensures VersionsNCNameTable.Keys == {'A', 'E', 'H', 'P'}
    ensures forall c | c in VersionsNCNameTable :: c as int == 'A' as int + VersionsNCNameTable[c]
  {
  }

  /** The compact constants are runs of one letter between their bookends. */
  lemma CompactConstantShapes()
    ensures NilCompact32 == seq(26, _ => 'A') && NilCompact64 == seq(22, _ => 'A')
    ensures MaxCompact32 == ['P'] + seq(24, _ => '7') + ['P']
    ensures MaxCompact64 == ['P'] + seq(20, _ => '_') + ['P']
  {
  }

  /** Each key of the canonical table is the hex digit, in either case, of the version it maps to. */
  lemma CanonicalTableDigits()
    ensures forall c | c in VersionCanonicalTable :: DigitValue(Hex, c) == Some(VersionCanonicalTable[c] as nat)
    ensures forall v: Version | v in {VersionNil, Version4, Version7, VersionMax} :: Digit(Hex, v) in VersionCanonicalTable
  {
    assert Pow2(4) == 16;
    forall c | c in VersionCanonicalTable
      ensures DigitValue(Hex, c) == Some(VersionCanonicalTable[c] as nat)
    {
      assert c in {'0', '4', '7', 'f', 'F'};
    }
  }
}
