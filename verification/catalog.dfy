/**
 The pattern catalog and the read-only EEPROM pattern store it indexes.
 */
module Catalog {

  /** Bytes declared by the fifteen __EEPROM_DATA lines, eight each. */
  const StoreSize := 120
  const CatalogSize := 5

  /** One catalog entry: where a pattern starts in the store and how many bytes it spans. */
  datatype PatternDef = PatternDef(startLocation: int, size: int)

  /** One past the last byte of an entry. */
  function End(e: PatternDef): int {
    e.startLocation + e.size
  }

  /** Whether an address lies inside an entry's byte range. */
  predicate Contains(e: PatternDef, address: int) {
    e.startLocation <= address < End(e)
  }

  /**
   An entry both scan passes can play: an even number of bytes (frames are
   pairs), at least two frames, and lying inside the store.
   */
  predicate WellFormedEntry(e: PatternDef) {
    && e.size >= 4
    && e.size % 2 == 0
    && 0 <= e.startLocation
    && End(e) <= StoreSize
  }

  /** Entries laid end to end from offset 0 up to the end of the store. */
  predicate Contiguous(cat: seq<PatternDef>) {
    && |cat| > 0
    && cat[0].startLocation == 0
    && (forall c :: 0 < c < |cat| ==> cat[c].startLocation == End(cat[c - 1]))
    && End(cat[|cat| - 1]) == StoreSize
  }

  predicate WellFormedCatalog(cat: seq<PatternDef>) {
    && |cat| == CatalogSize
    && (forall c :: 0 <= c < |cat| ==> WellFormedEntry(cat[c]))
    && Contiguous(cat)
  }

  /** The catalog set up by initialize(). */
  function Initialize(): (cat: seq<PatternDef>)
    ensures WellFormedCatalog(cat)
  {
    [PatternDef(0, 32), PatternDef(32, 16), PatternDef(48, 8), PatternDef(56, 32), PatternDef(88, 32)]
  }

  const Patterns: seq<PatternDef> := Initialize()

  /** Entry c of the catalog, with the facts every scan relies on. */
  function Entry(c: int): (e: PatternDef)
    requires 0 <= c < CatalogSize
    ensures WellFormedEntry(e)
  {
    Patterns[c]
  }

  /**
   The EEPROM contents, one __EEPROM_DATA declaration of eight bytes at a
   time: declarations 0-3 hold Kitt, 4-5 In N Out, 6 Four Chaser, 7-10
   Waterfall and 11-14 Chaser.
   */
  const Declarations: seq<seq<bv8>> := [
    [0x80, 0x00, 0x40, 0x00, 0x20, 0x00, 0x10, 0x00],
    [0x08, 0x00, 0x04, 0x00, 0x02, 0x00, 0x01, 0x00],
    [0x00, 0x80, 0x00, 0x40, 0x00, 0x20, 0x00, 0x10],
    [0x00, 0x08, 0x00, 0x04, 0x00, 0x02, 0x00, 0x01],
    [0x80, 0x01, 0x40, 0x02, 0x20, 0x04, 0x10, 0x08],
    [0x08, 0x10, 0x04, 0x20, 0x02, 0x40, 0x01, 0x80],
    [0x88, 0x88, 0x44, 0x44, 0x22, 0x22, 0x11, 0x11],
    [0x80, 0x01, 0xC0, 0x03, 0xE0, 0x07, 0xF0, 0x0F],
    [0xF8, 0x1F, 0xFC, 0x3F, 0xFE, 0x7F, 0xFF, 0xFF],
    [0x7F, 0xFE, 0x3F, 0xFC, 0x1F, 0xF8, 0x0F, 0xF0],
    [0x07, 0xE0, 0x03, 0xC0, 0x01, 0x80, 0x00, 0x00],
    [0x00, 0x30, 0x00, 0x14, 0x00, 0x09, 0x40, 0x04],
    [0x10, 0x02, 0x04, 0x01, 0x81, 0x00, 0x40, 0x40],
    [0x20, 0x10, 0x10, 0x04, 0x08, 0x01, 0x44, 0x00],
    [0x12, 0x00, 0x05, 0x00, 0x01, 0x80, 0x00, 0x40]
  ]

  /** Declaration k of the store. */
  function EepromLine(k: int): (line: seq<bv8>)
    requires 0 <= k < StoreSize / 8
    ensures |line| == 8
  {
    Declarations[k]
  }

  /** Declarations laid end to end, as the compiler places them. */
  function Flatten(lines: seq<seq<bv8>>): seq<bv8>
    decreases |lines|
  {
    if |lines| == 0 then [] else Flatten(lines[..|lines| - 1]) + lines[|lines| - 1]
  }

  /** Eight-byte declarations laid end to end: byte a is byte a % 8 of declaration a / 8. */
  lemma {:induction false} FlattenAt(lines: seq<seq<bv8>>, a: int)
    requires forall k :: 0 <= k < |lines| ==> |lines[k]| == 8
    ensures |Flatten(lines)| == 8 * |lines|
    ensures 0 <= a < 8 * |lines| ==> a / 8 < |lines| && Flatten(lines)[a] == lines[a / 8][a % 8]
    decreases |lines|
  {
    if |lines| > 0 {
      var n := |lines|;
      var before := lines[..n - 1];
      FlattenAt(before, a);
      if 8 * (n - 1) <= a < 8 * n {
        WithinLine(a, n - 1);
        LastLineAt(Flatten(before), lines[n - 1], a, n - 1);
      }
    }
  }

  /** Past q full declarations, the bytes come from the next one. */
  lemma LastLineAt(before: seq<bv8>, line: seq<bv8>, a: int, q: int)
    requires |before| == 8 * q && |line| == 8 && 8 * q <= a < 8 * q + 8
    ensures (before + line)[a] == line[a - 8 * q]
  {
  }

  /** An offset in declaration q's eight bytes sits at position a - 8q of it. */
  lemma WithinLine(a: int, q: int)
    requires 8 * q <= a < 8 * q + 8
    ensures a / 8 == q && a % 8 == a - 8 * q
  {
  }

  /** The whole store: all fifteen declarations, 120 bytes. */
  function Store(): (bytes: seq<bv8>)
    ensures |bytes| == StoreSize
  {
    FlattenAt(Declarations, 0);
    Flatten(Declarations)
  }

  /**
   eeprom_read: the byte stored at an address, found as byte address % 8 of
   declaration address / 8. It is the byte at that offset of the store.
   */
  function Read(address: int): (b: bv8)
    requires 0 <= address < StoreSize
    ensures b == Store()[address]
  {
    FlattenAt(Declarations, address);
    EepromLine(address / 8)[address % 8]
  }

  /** In a contiguous catalog every store address belongs to exactly one entry. */
  lemma {:induction false} ContiguousCovers(cat: seq<PatternDef>, address: int)
    requires Contiguous(cat)
    requires forall c :: 0 <= c < |cat| ==> cat[c].size >= 0
    requires 0 <= address < StoreSize
    ensures exists c :: 0 <= c < |cat| && Contains(cat[c], address)
    ensures forall c, c' ::
      0 <= c < |cat| && 0 <= c' < |cat| && Contains(cat[c], address) && Contains(cat[c'], address) ==> c == c'
  {
    // Starts and ends are non-decreasing along the catalog.
    forall c, c' | 0 <= c < c' < |cat|
      ensures End(cat[c]) <= cat[c'].startLocation
    {
      StartsIncrease(cat, c, c');
    }
    // The last entry whose start is at or below the address contains it.
    var c := LastStartAtOrBelow(cat, address, |cat| - 1);
    if c + 1 < |cat| {
      assert address < cat[c + 1].startLocation == End(cat[c]);
    }
    assert Contains(cat[c], address);
  }

  lemma {:induction false} StartsIncrease(cat: seq<PatternDef>, c: int, c': int)
    requires Contiguous(cat)
    requires forall k :: 0 <= k < |cat| ==> cat[k].size >= 0
    requires 0 <= c < c' < |cat|
    ensures End(cat[c]) <= cat[c'].startLocation
    decreases c' - c
  {
    if c + 1 < c' {
      StartsIncrease(cat, c + 1, c');
    }
  }

  /** The largest index at or below `hi` whose entry starts at or below the address. */
  function LastStartAtOrBelow(cat: seq<PatternDef>, address: int, hi: int): (c: int)
    requires Contiguous(cat) && 0 <= address && 0 <= hi < |cat|
    ensures 0 <= c <= hi
    ensures cat[c].startLocation <= address
    ensures c == hi || address < cat[c + 1].startLocation
    decreases hi
  {
    if hi == 0 || cat[hi].startLocation <= address then hi
    else LastStartAtOrBelow(cat, address, hi - 1)
  }

  /** Every EEPROM byte belongs to exactly one pattern of the catalog. */
  lemma CatalogCoversStore(address: int)
    requires 0 <= address < StoreSize
    ensures exists c :: 0 <= c < |Patterns| && Contains(Patterns[c], address)
    ensures forall c, c' ::
      0 <= c < |Patterns| && 0 <= c' < |Patterns| && Contains(Patterns[c], address) && Contains(Patterns[c'], address) ==> c == c'
  {
    ContiguousCovers(Patterns, address);
  }
}
