/**
 The shift-out driver: one byte is serialised onto the DATAOUT line, least
 significant bit first, with one SHIFTCLOCK pulse per bit. The model records,
 for each clock pulse in order, the level the data line holds during it.
 */
module ShiftOut {

  /** Bit k of b, stated by masking (an independent reading of "bit k"). */
  predicate Bit(b: bv8, k: nat)
    requires k < 8
  {
    b & (1 as bv8 << k) != 0
  }

  /** The level written to DATAOUT in iteration i of the shift loop: (b >> i) & 1. */
  predicate DataLine(b: bv8, i: nat)
    requires i < 8
  {
    (b >> i) & 1 == 1
  }

  /** Iterations i .. 7 of the shift loop: one data-line level per clock pulse. */
  function ShiftFrom(b: bv8, i: nat): (line: seq<bool>)
    requires i <= 8
    ensures |line| == 8 - i
    ensures forall k :: 0 <= k < |line| ==> line[k] == Bit(b, i + k)
    decreases 8 - i
  {
    if i == 8 then [] else [DataLine(b, i)] + ShiftFrom(b, i + 1)
  }

  /** The data-line levels seen at the eight clock pulses of one byte. */
  function ShiftOutByte(b: bv8): (line: seq<bool>)
    ensures |line| == 8
    ensures forall k :: 0 <= k < 8 ==> line[k] == Bit(b, k)
  {
    ShiftFrom(b, 0)
  }

  /** The byte a receiver reassembles from levels taken least significant bit first. */
  function Reassemble(line: seq<bool>): bv8
    requires |line| <= 8
    decreases |line|
  {
    if |line| == 0 then 0
    else (Reassemble(line[1..]) << 1) | (if line[0] then 1 else 0)
  }

  /** Bit k of a reassembled byte is the level seen at pulse k. */
  lemma {:induction false} ReassembleBit(line: seq<bool>, k: nat)
    requires |line| <= 8 && k < |line|
    ensures Bit(Reassemble(line), k) == line[k]
    decreases |line|
  {
    var rest := Reassemble(line[1..]);
    var low: bv8 := if line[0] then 1 else 0;
    assert Reassemble(line) == (rest << 1) | low;
    if k == 0 {
      assert ((rest << 1) | low) & 1 == low;
    } else {
      ReassembleBit(line[1..], k - 1);
      assert Bit(rest, k - 1) == line[k];
      assert Bit((rest << 1) | low, k) == Bit(rest, k - 1);
    }
  }

  /** Two bytes agreeing on all eight bits are equal. */
  lemma BitsDetermineByte(a: bv8, b: bv8)
    requires forall k :: 0 <= k < 8 ==> Bit(a, k) == Bit(b, k)
    ensures a == b
  {
    assert Bit(a, 0) == Bit(b, 0) && Bit(a, 1) == Bit(b, 1);
    assert Bit(a, 2) == Bit(b, 2) && Bit(a, 3) == Bit(b, 3);
    assert Bit(a, 4) == Bit(b, 4) && Bit(a, 5) == Bit(b, 5);
    assert Bit(a, 6) == Bit(b, 6) && Bit(a, 7) == Bit(b, 7);
  }

  /** Shifting a byte out and reassembling the pulses gives the byte back. */
  lemma ShiftOutRoundTrip(b: bv8)
    ensures Reassemble(ShiftOutByte(b)) == b
  {
    var line := ShiftOutByte(b);
    forall k | 0 <= k < 8
      ensures Bit(Reassemble(line), k) == Bit(b, k)
    {
      ReassembleBit(line, k);
    }
    BitsDetermineByte(Reassemble(line), b);
  }

  /** Every sequence of eight levels is produced by exactly the byte it reassembles to. */
  lemma ReassembleRoundTrip(line: seq<bool>)
    requires |line| == 8
    ensures ShiftOutByte(Reassemble(line)) == line
  {
    var out := ShiftOutByte(Reassemble(line));
    forall k | 0 <= k < 8
      ensures out[k] == line[k]
    {
      ReassembleBit(line, k);
    }
  }
}
