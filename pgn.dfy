/**
 J1939 Parameter Group Numbers: deriving the PGN from a 29-bit arbitration id and
 the proprietary-PGN test used to silence unknown PGNs when dumping.
 */
module Pgn {
  import opened BigEndian

  /** One more than the largest PGN: a PGN has 17 bits. */
  const PgnBound := 0x20000

  /**
   The PGN carried by an arbitration id, `(id >> 8) & 0x1FFFF`. On an unsigned
   32-bit value `>> 8` is division by 2^8 and `& 0x1FFFF` keeps the low 17 bits,
   which is the remainder modulo 2^17; the id's low byte (the source address) and
   its bits 25 to 31 (priority and unused bits) do not take part.
   */
  function PgnFromDbc(longId: u32): (pgn: u32)
    ensures pgn < PgnBound
  {
    (longId / 0x100) % 0x20000
  }

  /** Ids that differ only in the source-address byte (bits 0 to 7) carry the same PGN. */
  lemma PgnIgnoresSourceAddress(a: u32, b: u32)
    requires a / 0x100 == b / 0x100
    ensures PgnFromDbc(a) == PgnFromDbc(b)
  {
  }

  /** Ids that agree on bits 0 to 24 carry the same PGN, whatever their bits 25 to 31. */
  lemma PgnIgnoresHighBits(a: u32, b: u32)
    requires a % 0x200_0000 == b % 0x200_0000
    ensures PgnFromDbc(a) == PgnFromDbc(b)
  {
  }

  /** The PGN is the id's bits 8 to 24: the id is `high * 2^25 + pgn * 2^8 + source`. */
  lemma PgnFields(longId: u32)
    ensures longId == (longId / 0x200_0000) * 0x200_0000 + PgnFromDbc(longId) * 0x100 + longId % 0x100
  {
  }

  /** Every PGN is carried by some id: the PGN, shifted over a source address, gives it back. */
  lemma PgnFromShiftedPgn(pgn: u32, source: u8)
    requires pgn < PgnBound
    ensures PgnFromDbc(pgn * 0x100 + source) == pgn
  {
  }

  lemma PgnExamples()
    ensures PgnFromDbc(0) == 0
    ensures PgnFromDbc(0x1FF_FFFF) == 0x1FFFF
    ensures PgnFromDbc(0xFFFF_FFFF) == 0x1FFFF
    ensures PgnFromDbc(0x18FE_F100) == 0xFEF1
    ensures PgnFromDbc(0x18FE_F200) == 0xFEF2 && PgnFromDbc(0x18FE_F300) == 0xFEF3
    ensures PgnFromDbc(0x0012_3400) == 0x1234
  {
  }

  /** First PGN of the proprietary band reserved by SAE J1939/21 section 5.3.2. */
  const ReservedBandLow := 65280
  /** Last PGN of that band. */
  const ReservedBandHigh := 65535

  /**
   The proprietary test as the program writes it, `id <= 65280 || id <= 65535`.
   The second comparison subsumes the first, so it holds for every PGN up to 65535
   and not only on the reserved band 65280..65535 it is named after.
   */
  function IsProprietaryPgn(id: u32): (r: bool)
    ensures r <==> id <= ReservedBandHigh
    ensures ReservedBandLow <= id <= ReservedBandHigh ==> r
    ensures ReservedBandHigh < id < PgnBound ==> !r
  {
    id <= 65280 || id <= 65535
  }

  /** The band test the comment on the program's predicate describes. */
  function IsReservedBandPgn(pgn: u32): (r: bool)
    ensures r ==> IsProprietaryPgn(pgn)
    ensures r <==> ReservedBandLow <= pgn && pgn <= ReservedBandHigh
  {
    pgn >= 65280 && pgn <= 65535
  }

  /** A PGN outside the reserved band that the program still counts as proprietary. */
  lemma ProprietaryOutsideBand()
    ensures IsProprietaryPgn(0x1234) && !IsReservedBandPgn(0x1234)
    ensures forall p: u32 :: p < ReservedBandLow ==> IsProprietaryPgn(p) && !IsReservedBandPgn(p)
  {
  }
}
