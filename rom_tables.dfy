/**
 * The data the three OLED tools exchange: the per-ROM character tables
 * `rom_{A,B,C}_characters.json` (written by the extractor, read by the
 * Baltic generator and by the browser converter) and the Baltic
 * availability map `baltic_char_map.json` (written by the generator, read
 * by the converter).
 */
module RomTables {
  import opened Wrappers
  import opened Dicts

  /** The three character ROMs of the US2066 controller. */
  datatype Variant = A | B | C

  /** The ROMs in the order every tool visits them. */
  const Variants: seq<Variant> := [A, B, C]

  /** One value per ROM: `{A: …, B: …, C: …}`, or the `rom_a`/`rom_b`/`rom_c` fields. */
  datatype PerVariant<T> = PerVariant(a: T, b: T, c: T)
  {
    function Get(v: Variant): T {
      match v
      case A => a
      case B => b
      case C => c
    }

    function With(v: Variant, x: T): (r: PerVariant<T>)
      ensures r.Get(v) == x
      ensures forall w :: w != v ==> r.Get(w) == Get(w)
    {
      match v
      case A => PerVariant(x, b, c)
      case B => PerVariant(a, x, c)
      case C => PerVariant(a, b, x)
    }
  }

  /**
   * One record of a ROM table: the byte position as `0xHH`, as the
   * `hhhh_llll` key and as a number, the ROM glyph's character and the
   * ISO/IEC 8859-1 character sent to address it.
   */
  datatype RomRecord = RomRecord(hex: string, binary: string, decimal: nat, romValue: string, asciiValue: string)

  /** A ROM table, keyed by the binary key, in file order. */
  type RomTable = ODict<string, RomRecord>

  /** The `rom_value` of a position the ROM leaves undefined. */
  const UndefinedValue: string := "UNDEFINED"

  /** The `rom_value` of a position whose glyph has no known character. */
  const UnmappedValue: string := "UNMAPPED"

  /** The `rom_x` part of a Baltic character entry. */
  datatype RomAvailability = RomAvailability(available: bool, byteCode: Option<string>, fallbacks: seq<string>)

  /** One Baltic character: its `U+XXXX` label, its languages, and one availability record per ROM. */
  datatype BalticEntry = BalticEntry(unicode: string, languages: seq<string>, roms: PerVariant<Option<RomAvailability>>)

  /** The `characters` object of the Baltic map, keyed by the character. */
  type BalticMap = ODict<string, BalticEntry>
}
