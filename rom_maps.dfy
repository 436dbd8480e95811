/**
 * The table transforms of the ROM extractor that run after the C# tables
 * are parsed: bitmap rendering for visual checks, the manual and the
 * bitmap-based resolution of `UNMAPPED` glyphs, and the 256-record and
 * 16×16 grid outputs.
 */
module RomMaps {
  import opened Wrappers
  import opened Strings
  import opened Dicts
  import opened ByteKeys
  import opened TableFolds
  import opened RomTables
  import opened RomExtract

  /** Byte position to character (or sentinel), as `parse_rom_map` returns it. */
  type CharMap = ODict<nat, string>

  /** A glyph: one integer per pixel row, five pixel bits each. */
  type Pattern = seq<nat>

  /** Byte position to glyph, for one ROM. */
  type Bitmaps = map<nat, Pattern>

  // ---- render_bitmap_ascii ------------------------------------------------

  /** `v >> k`: `k` halvings, each dropping the lowest bit. */
  function Shr(v: nat, k: nat): nat {
    if k == 0 then v else Shr(v, k - 1) / 2
  }

  /** `(v >> k) & 1` is set. */
  predicate Bit(v: nat, k: nat) {
    Shr(v, k) % 2 == 1
  }

  /** The low `n` bits of `v`, most significant first, as `on`/`off` characters. */
  function ArtBits(v: nat, n: nat, on: char, off: char): (r: string)
    ensures |r| == n
  {
    if n == 0 then [] else ArtBits(v / 2, n - 1, on, off) + [if v % 2 == 1 then on else off]
  }

  /** The pixel rows of a glyph, five characters each. */
  function ArtRows(pattern: Pattern, on: char, off: char): (rows: seq<string>)
    ensures |rows| == |pattern|
    ensures forall i :: 0 <= i < |pattern| ==> rows[i] == ArtBits(pattern[i], 5, on, off)
  {
    seq(|pattern|, i requires 0 <= i < |pattern| => ArtBits(pattern[i], 5, on, off))
  }

  /** Reading a rendered row back as a binary number, `on` as 1. */
  function ReadArt(s: string, on: char): nat {
    if s == [] then 0 else 2 * ReadArt(s[..|s| - 1], on) + (if s[|s| - 1] == on then 1 else 0)
  }

  /** A rendered row reads back as the row value's low `n` bits. */
  lemma {:induction false} ArtBitsValue(v: nat, n: nat, on: char, off: char)
    requires on != off
    ensures ReadArt(ArtBits(v, n, on, off), on) == v % Pow2(n)
  {
    if n > 0 {
      var s := ArtBits(v, n, on, off);
      ArtBitsValue(v / 2, n - 1, on, off);
      assert s[..|s| - 1] == ArtBits(v / 2, n - 1, on, off);
      ModDouble(v, Pow2(n - 1));
    }
  }

  lemma ModDouble(v: nat, p: nat)
    requires p >= 1
    ensures v % (2 * p) == 2 * ((v / 2) % p) + v % 2
  {
    var q := v / 2;
    var a := q / p;
    var b := q % p;
    assert v == 2 * q + v % 2;
    assert q == p * a + b;
    assert v == (2 * p) * a + (2 * b + v % 2);
    assert 0 <= 2 * b + v % 2 < 2 * p;
    DivModUnique(v, 2 * p, a, 2 * b + v % 2);
  }

  /** The last step of one row: the bit `k` of `v` after the bits above it. */
  lemma ArtBitsStep(v: nat, k: nat, on: char, off: char)
    requires k <= 4
    ensures ArtBits(Shr(v, k), 5 - k, on, off) == ArtBits(Shr(v, k + 1), 4 - k, on, off) + [if Bit(v, k) then on else off]
  {
  }

  /** The inner loop: one pixel row, from bit 4 down to bit 0. */
  method RenderRow(v: nat, on: char, off: char) returns (line: string)
    ensures line == ArtBits(v, 5, on, off)
  {
    line := "";
    var bit: int := 4;
    while bit >= 0
      invariant -1 <= bit <= 4
      invariant line == ArtBits(Shr(v, bit + 1), 4 - bit, on, off)
    {
      ArtBitsStep(v, bit, on, off);
      line := line + [if Shr(v, bit) % 2 == 1 then on else off];
      bit := bit - 1;
    }
  }

  /** `render_bitmap_ascii`: the glyph's rows joined by line feeds. */
  method RenderBitmapAscii(pattern: Pattern, on: char, off: char) returns (art: string)
    ensures art == Join(ArtRows(pattern, on, off), "\n")
  {
    var lines: seq<string> := [];
    var i := 0;
    while i < |pattern|
      invariant i <= |pattern|
      invariant lines == ArtRows(pattern[..i], on, off)
    {
      var line := RenderRow(pattern[i], on, off);
      lines := lines + [line];
      i := i + 1;
    }
    assert pattern[..i] == pattern;
    art := Join(lines, "\n");
  }

  /** Splitting the rendering on line feeds gives back the rows, each reading as its row value's low five bits. */
  lemma RenderRoundTrip(pattern: Pattern, on: char, off: char)
    requires pattern != [] && on != off && on != '\n' && off != '\n'
    ensures var rows := Split(Join(ArtRows(pattern, on, off), "\n"), '\n');
      |rows| == |pattern| && forall i :: 0 <= i < |pattern| ==> ReadArt(rows[i], on) == pattern[i] % 32
  {
    var rows := ArtRows(pattern, on, off);
    forall i, j | 0 <= i < |rows| && 0 <= j < |rows[i]| ensures rows[i][j] != '\n' {
      ArtBitsChars(pattern[i], 5, on, off, j);
    }
    SplitJoin(rows, '\n');
    forall i | 0 <= i < |pattern| ensures ReadArt(rows[i], on) == pattern[i] % 32 {
      ArtBitsValue(pattern[i], 5, on, off);
      assert Pow2(5) == 32;
    }
  }

  lemma {:induction false} ArtBitsChars(v: nat, n: nat, on: char, off: char, j: nat)
    requires j < n
    ensures ArtBits(v, n, on, off)[j] == on || ArtBits(v, n, on, off)[j] == off
  {
    if j < n - 1 {
      ArtBitsChars(v / 2, n - 1, on, off, j);
    }
  }

  // ---- apply_manual_mappings and resolve_unmapped ----------------------------

  /** Some pixel row of the glyph is lit (`any(v != 0 for v in pattern)`). */
  predicate NonZero(p: Pattern) {
    exists i :: 0 <= i < |p| && p[i] != 0
  }

  /**
   * The two ways the extractor fixes `UNMAPPED` glyphs: a hand-made table
   * of characters by byte position, or the character another ROM shows
   * for the same lit glyph.
   */
  datatype Rule = ManualRule(manual: map<nat, string>) | BitmapRule(bitmaps: Bitmaps, lookup: map<Pattern, string>)

  /** The character the rule puts at byte `k` whose current entry is `cur`, if any. */
  function Replacement(rule: Rule, k: nat, cur: Option<string>): (x: Option<string>)
    ensures x.Some? ==> cur == Some(CUnmap)
  {
    if cur != Some(CUnmap) then None
    else match rule
      case ManualRule(mm) => if k in mm then Some(mm[k]) else None
      case BitmapRule(bm, lk) => if k in bm && NonZero(bm[k]) && bm[k] in lk then Some(lk[bm[k]]) else None
  }

  /** `m` with the rule applied to the keys `ks` in order, and how many entries it replaced. */
  function Patch(m: CharMap, ks: seq<nat>, rule: Rule): (CharMap, nat) {
    if ks == [] then (m, 0)
    else
      var prior := Patch(m, ks[..|ks| - 1], rule);
      var k := ks[|ks| - 1];
      var x := Replacement(rule, k, Get(prior.0, k));
      if x.Some? then (Put(prior.0, k, x.value), prior.1 + 1) else prior
  }

  lemma PatchSnoc(m: CharMap, ks: seq<nat>, i: nat, rule: Rule)
    requires i < |ks|
    ensures var prior := Patch(m, ks[..i], rule);
      var x := Replacement(rule, ks[i], Get(prior.0, ks[i]));
      Patch(m, ks[..i + 1], rule) == if x.Some? then (Put(prior.0, ks[i], x.value), prior.1 + 1) else prior
  {
    assert ks[..i + 1][..i] == ks[..i];
  }

  /** The keys whose entry in `m` the rule replaces. */
  function HitSet(m: CharMap, ks: seq<nat>, rule: Rule): set<nat> {
    set k | k in ks && Hit(m, rule, k)
  }

  /** The rule replaces the entry of byte `k` in `m`. */
  predicate Hit(m: CharMap, rule: Rule, k: nat) {
    Replacement(rule, k, Get(m, k)).Some?
  }

  /** Each key is visited once, so the entry of a key the rule visits is replaced when its original entry qualifies; the rest stay as they were. */
  lemma {:induction false} PatchValue(m: CharMap, ks: seq<nat>, rule: Rule, k: nat)
    requires NoDup(ks)
    ensures Get(Patch(m, ks, rule).0, k) ==
      if k in ks && Replacement(rule, k, Get(m, k)).Some? then Replacement(rule, k, Get(m, k)) else Get(m, k)
  {
    if ks != [] {
      var pre := ks[..|ks| - 1];
      var last := ks[|ks| - 1];
      assert NoDup(pre);
      PatchValue(m, pre, rule, k);
      PatchValue(m, pre, rule, last);
      assert last !in pre;
      assert k in ks <==> k in pre || k == last;
      var prior := Patch(m, pre, rule);
      GetPut(prior.0, last, Replacement(rule, last, Get(m, last)).GetOr(""), k);
    }
  }

  /** A key not yet visited still holds its original entry. */
  lemma PatchUnvisited(m: CharMap, ks: seq<nat>, i: nat, rule: Rule)
    requires NoDup(ks) && i < |ks|
    ensures Get(Patch(m, ks[..i], rule).0, ks[i]) == Get(m, ks[i])
  {
    assert NoDup(ks[..i]) && ks[i] !in ks[..i];
    PatchValue(m, ks[..i], rule, ks[i]);
  }

  /** The rule only replaces present entries: the keys and their order stay. */
  lemma {:induction false} PatchKeys(m: CharMap, ks: seq<nat>, rule: Rule)
    ensures Patch(m, ks, rule).0.keys == m.keys
  {
    if ks != [] {
      PatchKeys(m, ks[..|ks| - 1], rule);
    }
  }

  /** The count is the number of keys whose original entry the rule replaces. */
  lemma {:induction false} PatchCount(m: CharMap, ks: seq<nat>, rule: Rule)
    requires NoDup(ks)
    ensures Patch(m, ks, rule).1 == |HitSet(m, ks, rule)|
  {
    if ks == [] {
      assert HitSet(m, ks, rule) == {};
    } else {
      var pre := ks[..|ks| - 1];
      var last := ks[|ks| - 1];
      assert NoDup(pre);
      PatchCount(m, pre, rule);
      PatchValue(m, pre, rule, last);
      assert ks == pre + [last];
      HitSetSnoc(m, pre, last, rule);
    }
  }

  lemma HitSetSnoc(m: CharMap, ks: seq<nat>, k: nat, rule: Rule)
    requires k !in ks
    ensures |HitSet(m, ks + [k], rule)| == |HitSet(m, ks, rule)| + if Hit(m, rule, k) then 1 else 0
  {
    var before := HitSet(m, ks, rule);
    assert k !in before;
    if Hit(m, rule, k) {
      assert HitSet(m, ks + [k], rule) == before + {k};
    } else {
      assert HitSet(m, ks + [k], rule) == before;
    }
  }

  /** Nothing to replace: the map comes back unchanged with a zero count. */
  lemma {:induction false} PatchNoHits(m: CharMap, ks: seq<nat>, rule: Rule)
    requires forall k :: k in ks ==> Replacement(rule, k, Get(m, k)).None?
    ensures Patch(m, ks, rule) == (m, 0)
  {
    if ks != [] {
      PatchNoHits(m, ks[..|ks| - 1], rule);
    }
  }

  /** `apply_manual_mappings`: the manual characters, written only over `UNMAPPED` entries, and how many were written. */
  method ApplyManualMappings(romMap: CharMap, manual: CharMap) returns (updated: CharMap, applied: nat)
    ensures (updated, applied) == Patch(romMap, manual.keys, ManualRule(manual.vals))
  {
    ghost var rule := ManualRule(manual.vals);
    updated, applied := romMap, 0;
    var i := 0;
    assert manual.keys[..0] == [];
    while i < |manual.keys|
      invariant i <= |manual.keys|
      invariant (updated, applied) == Patch(romMap, manual.keys[..i], rule)
    {
      var byteCode := manual.keys[i];
      var ch := ItemAt(manual, i).1;
      PatchSnoc(romMap, manual.keys, i, rule);
      if Get(updated, byteCode) == Some(CUnmap) {
        updated := Put(updated, byteCode, ch);
        applied := applied + 1;
      }
      i := i + 1;
    }
    assert manual.keys[..i] == manual.keys;
  }

  /**
   * Applying the manual table: the keys stay, an entry changes only when it
   * was `UNMAPPED` and the table names its byte, and the count is the
   * number of such bytes.
   */
  lemma ApplyManualSpec(m: CharMap, manual: CharMap, k: nat)
    ensures var r := Patch(m, manual.keys, ManualRule(manual.vals));
      r.0.keys == m.keys
      && Get(r.0, k) == (if Get(m, k) == Some(CUnmap) && k in manual.vals then Some(manual.vals[k]) else Get(m, k))
      && r.1 == |set b | b in manual.vals && Get(m, b) == Some(CUnmap)|
  {
    var rule := ManualRule(manual.vals);
    PatchKeys(m, manual.keys, rule);
    PatchValue(m, manual.keys, rule, k);
    PatchCount(m, manual.keys, rule);
    assert k in manual.keys <==> k in manual.vals;
    assert HitSet(m, manual.keys, rule) == set b | b in manual.vals && Get(m, b) == Some(CUnmap);
  }

  /** A second application of a table that writes no `UNMAPPED` changes nothing and counts zero. */
  lemma ApplyManualIdempotent(m: CharMap, manual: CharMap)
    requires forall b :: b in manual.vals ==> manual.vals[b] != CUnmap
    ensures var r := Patch(m, manual.keys, ManualRule(manual.vals));
      Patch(r.0, manual.keys, ManualRule(manual.vals)) == (r.0, 0)
  {
    var rule := ManualRule(manual.vals);
    var r := Patch(m, manual.keys, rule);
    forall b | b in manual.keys ensures Replacement(rule, b, Get(r.0, b)).None? {
      PatchValue(m, manual.keys, rule, b);
    }
    PatchNoHits(r.0, manual.keys, rule);
  }

  /** `resolve_unmapped`: each `UNMAPPED` entry with a lit glyph that the lookup knows takes the lookup's character. */
  method ResolveUnmapped(romMap: CharMap, bitmaps: Bitmaps, bitmapLookup: map<Pattern, string>) returns (updated: CharMap, resolvedCount: nat)
    ensures (updated, resolvedCount) == Patch(romMap, romMap.keys, BitmapRule(bitmaps, bitmapLookup))
  {
    ghost var rule := BitmapRule(bitmaps, bitmapLookup);
    updated, resolvedCount := romMap, 0;
    var i := 0;
    assert romMap.keys[..0] == [];
    while i < |romMap.keys|
      invariant i <= |romMap.keys|
      invariant (updated, resolvedCount) == Patch(romMap, romMap.keys[..i], rule)
    {
      var byteCode := romMap.keys[i];
      var ch := ItemAt(romMap, i).1;
      ResolveStep(romMap, bitmaps, bitmapLookup, i);
      if ch == CUnmap && byteCode in bitmaps {
        var pattern := bitmaps[byteCode];
        if NonZero(pattern) && pattern in bitmapLookup {
          updated := Put(updated, byteCode, bitmapLookup[pattern]);
          resolvedCount := resolvedCount + 1;
        }
      }
      i := i + 1;
    }
    assert romMap.keys[..i] == romMap.keys;
  }

  /** One pass of the loop of `resolve_unmapped`, on the entry of the `i`-th key as the original map has it. */
  lemma ResolveStep(m: CharMap, bitmaps: Bitmaps, lookup: map<Pattern, string>, i: nat)
    requires i < |m.keys|
    ensures var rule := BitmapRule(bitmaps, lookup);
      var prior := Patch(m, m.keys[..i], rule);
      var k := m.keys[i];
      var c := m.vals[k];
      Patch(m, m.keys[..i + 1], rule) ==
        if c == CUnmap && k in bitmaps && NonZero(bitmaps[k]) && bitmaps[k] in lookup
        then (Put(prior.0, k, lookup[bitmaps[k]]), prior.1 + 1) else prior
  {
    var rule := BitmapRule(bitmaps, lookup);
    assert m.keys[i] in m.vals;
    PatchSnoc(m, m.keys, i, rule);
    PatchUnvisited(m, m.keys, i, rule);
  }

  /**
   * Resolution changes exactly the `UNMAPPED` entries whose glyph is lit and
   * known to the lookup, to the lookup's character; every other entry is
   * identical, and the count is the number of changed entries.
   */
  lemma ResolveSpec(m: CharMap, bitmaps: Bitmaps, lookup: map<Pattern, string>, k: nat)
    ensures var r := Patch(m, m.keys, BitmapRule(bitmaps, lookup));
      r.0.keys == m.keys
      && Get(r.0, k) == (if Resolvable(m, bitmaps, lookup, k) then Some(lookup[bitmaps[k]]) else Get(m, k))
      && r.1 == |set b | b in m.vals && Resolvable(m, bitmaps, lookup, b)|
  {
    var rule := BitmapRule(bitmaps, lookup);
    PatchKeys(m, m.keys, rule);
    PatchValue(m, m.keys, rule, k);
    PatchCount(m, m.keys, rule);
    assert k in m.keys <==> k in m.vals;
    assert HitSet(m, m.keys, rule) == set b | b in m.vals && Resolvable(m, bitmaps, lookup, b);
  }

  /** Byte `k` is `UNMAPPED`, has a lit glyph, and the lookup knows that glyph. */
  predicate Resolvable(m: CharMap, bitmaps: Bitmaps, lookup: map<Pattern, string>, k: nat) {
    Get(m, k) == Some(CUnmap) && k in bitmaps && NonZero(bitmaps[k]) && bitmaps[k] in lookup
  }

  // ---- build_bitmap_lookup ----------------------------------------------------

  /** What one ROM position offers the glyph lookup: its lit glyph and its real character. */
  function Candidate(bitmaps: Bitmaps, b: nat, c: string): Option<(Pattern, string)> {
    if c == CUndef || c == CUnmap || b !in bitmaps || !NonZero(bitmaps[b]) then None else Some((bitmaps[b], c))
  }

  /** The candidates of one ROM, in the map's order. */
  function RomCandidates(m: CharMap, bitmaps: Bitmaps): (cs: seq<Option<(Pattern, string)>>)
    ensures |cs| == |m.keys|
  {
    seq(|m.keys|, i requires 0 <= i < |m.keys| => Candidate(bitmaps, ItemAt(m, i).0, ItemAt(m, i).1))
  }

  lemma RomCandidatesAt(m: CharMap, bitmaps: Bitmaps, i: nat)
    requires i < |m.keys|
    ensures m.keys[i] in m.vals && RomCandidates(m, bitmaps)[i] == Candidate(bitmaps, m.keys[i], m.vals[m.keys[i]])
  {
  }

  /** The candidates of the first `n` ROMs in the order A, B, C. A ROM without a map or without bitmaps contributes nothing. */
  function CandidatesUpTo(maps: PerVariant<CharMap>, bitmaps: PerVariant<Bitmaps>, n: nat): seq<Option<(Pattern, string)>>
    requires n <= |Variants|
  {
    if n == 0 then []
    else CandidatesUpTo(maps, bitmaps, n - 1) + RomCandidates(maps.Get(Variants[n - 1]), bitmaps.Get(Variants[n - 1]))
  }

  /** The glyph lookup: the first candidate for a glyph wins. */
  function BitmapLookup(maps: PerVariant<CharMap>, bitmaps: PerVariant<Bitmaps>): map<Pattern, string> {
    FirstWins(CandidatesUpTo(maps, bitmaps, |Variants|))
  }

  /** `build_bitmap_lookup`: every real character of every ROM with a lit glyph, the first one seen for a glyph kept. */
  method BuildBitmapLookup(maps: PerVariant<CharMap>, bitmaps: PerVariant<Bitmaps>) returns (lookup: map<Pattern, string>)
    ensures lookup == BitmapLookup(maps, bitmaps)
  {
    lookup := map[];
    var v := 0;
    while v < |Variants|
      invariant v <= |Variants|
      invariant lookup == FirstWins(CandidatesUpTo(maps, bitmaps, v))
    {
      lookup := AddRomCandidates(lookup, maps.Get(Variants[v]), bitmaps.Get(Variants[v]), CandidatesUpTo(maps, bitmaps, v));
      v := v + 1;
    }
  }

  /** One ROM's pass of `build_bitmap_lookup`. */
  method AddRomCandidates(lookup0: map<Pattern, string>, charMap: CharMap, bm: Bitmaps, ghost done: seq<Option<(Pattern, string)>>)
    returns (lookup: map<Pattern, string>)
    requires lookup0 == FirstWins(done)
    ensures lookup == FirstWins(done + RomCandidates(charMap, bm))
  {
    lookup := lookup0;
    ghost var cs := RomCandidates(charMap, bm);
    var j := 0;
    assert done + cs[..0] == done;
    while j < |charMap.keys|
      invariant j <= |charMap.keys|
      invariant lookup == FirstWins(done + cs[..j])
    {
      var byteCode := charMap.keys[j];
      var ch := ItemAt(charMap, j).1;
      LookupStep(charMap, bm, done, j);
      if ch != CUndef && ch != CUnmap && byteCode in bm {
        var pattern := bm[byteCode];
        if NonZero(pattern) && pattern !in lookup {
          lookup := lookup[pattern := ch];
        }
      }
      j := j + 1;
    }
    assert cs[..j] == cs;
  }

  lemma LookupStep(charMap: CharMap, bm: Bitmaps, done: seq<Option<(Pattern, string)>>, j: nat)
    requires j < |charMap.keys|
    ensures var cs := RomCandidates(charMap, bm);
      var c := Candidate(bm, charMap.keys[j], ItemAt(charMap, j).1);
      FirstWins(done + cs[..j + 1]) ==
        if c.Some? && c.value.0 !in FirstWins(done + cs[..j]) then FirstWins(done + cs[..j])[c.value.0 := c.value.1]
        else FirstWins(done + cs[..j])
  {
    var cs := RomCandidates(charMap, bm);
    RomCandidatesAt(charMap, bm, j);
    FirstWinsSnoc(done + cs[..j], cs[j]);
    assert done + cs[..j] + [cs[j]] == done + cs[..j + 1];
  }

  /** Every candidate is a lit glyph with a real character. */
  lemma {:induction false} CandidatesClean(maps: PerVariant<CharMap>, bitmaps: PerVariant<Bitmaps>, n: nat, i: nat)
    requires n <= |Variants|
    requires i < |CandidatesUpTo(maps, bitmaps, n)| && CandidatesUpTo(maps, bitmaps, n)[i].Some?
    ensures var c := CandidatesUpTo(maps, bitmaps, n)[i].value;
      NonZero(c.0) && c.1 != CUndef && c.1 != CUnmap
  {
    var pre := CandidatesUpTo(maps, bitmaps, n - 1);
    if i < |pre| {
      CandidatesClean(maps, bitmaps, n - 1, i);
    } else {
      var m := maps.Get(Variants[n - 1]);
      RomCandidatesAt(m, bitmaps.Get(Variants[n - 1]), i - |pre|);
    }
  }

  /**
   * A glyph is in the lookup exactly when some candidate (in ROM order A, B,
   * C) has it; its character is the first such candidate's, never a
   * sentinel, and no all-dark glyph is a key.
   */
  lemma BitmapLookupSpec(maps: PerVariant<CharMap>, bitmaps: PerVariant<Bitmaps>, p: Pattern)
    ensures var cs := CandidatesUpTo(maps, bitmaps, |Variants|);
      (p in BitmapLookup(maps, bitmaps) <==> exists i :: HasKeyAt(cs, p, i))
      && (p in BitmapLookup(maps, bitmaps) ==>
        NonZero(p) && BitmapLookup(maps, bitmaps)[p] != CUndef && BitmapLookup(maps, bitmaps)[p] != CUnmap
        && exists i :: FirstKeyAt(cs, p, i) && BitmapLookup(maps, bitmaps)[p] == cs[i].value.1)
  {
    var cs := CandidatesUpTo(maps, bitmaps, |Variants|);
    FirstWinsSpec(cs, p);
    if p in BitmapLookup(maps, bitmaps) {
      var i :| FirstKeyAt(cs, p, i) && BitmapLookup(maps, bitmaps)[p] == cs[i].value.1;
      CandidatesClean(maps, bitmaps, |Variants|, i);
    }
  }

  // ---- build_records ----------------------------------------------------------

  /** The `rom_value` of position `b`: a missing position counts as undefined. */
  function RomValueOf(m: CharMap, b: nat): string {
    var c := Get(m, b);
    if c.None? || c.value == CUndef then UndefinedValue
    else if c.value == CUnmap then UnmappedValue
    else c.value
  }

  /** ISO/IEC 8859-1 control positions: C0 and DEL through the C1 block. */
  predicate IsControlByte(b: nat) {
    b < 0x20 || (0x7F <= b <= 0x9F)
  }

  /** The `ascii_value` of position `b`: the Latin-1 character, or a `CONTROL (U+XXXX)` label. */
  function AsciiValueOf(b: nat): string
    requires b < 256
  {
    if IsControlByte(b) then "CONTROL (U+" + HexUpper(b, 4) + ")" else [b as char]
  }

  function MakeRecord(m: CharMap, b: nat): RomRecord
    requires b < 256
  {
    RomRecord(HexCode(b), BinaryKey(b), b, RomValueOf(m, b), AsciiValueOf(b))
  }

  /** The records of positions `0 .. n-1`, keyed by their binary key, in position order. */
  function Records(m: CharMap, n: nat): RomTable
    requires n <= 256
  {
    if n == 0 then Empty() else Put(Records(m, n - 1), BinaryKey(n - 1), MakeRecord(m, n - 1))
  }

  /** `build_records`: one record per byte position. */
  method BuildRecords(romMap: CharMap) returns (records: RomTable)
    ensures records == Records(romMap, 256)
  {
    records := Empty();
    var byteCode := 0;
    while byteCode < 256
      invariant byteCode <= 256
      invariant records == Records(romMap, byteCode)
    {
      records := Put(records, BinaryKey(byteCode), MakeRecord(romMap, byteCode));
      byteCode := byteCode + 1;
    }
  }

  lemma {:induction false} RecordsLength(m: CharMap, n: nat)
    requires n <= 256
    ensures |Records(m, n).keys| == n
  {
    if n > 0 {
      RecordsLength(m, n - 1);
      RecordsKeyAbsent(m, n - 1, n - 1);
    }
  }

  /** A position's key is not yet present before that position is reached. */
  lemma {:induction false} RecordsKeyAbsent(m: CharMap, n: nat, b: nat)
    requires n <= b < 256
    ensures BinaryKey(b) !in Records(m, n).vals
  {
    if n > 0 {
      RecordsKeyAbsent(m, n - 1, b);
      KeyRoundTrip(b);
      KeyRoundTrip(n - 1);
    }
  }

  /** The records come out one per position, in position order, under that position's key. */
  lemma {:induction false} RecordsAt(m: CharMap, n: nat, b: nat)
    requires b < n <= 256
    ensures |Records(m, n).keys| == n
    ensures Records(m, n).keys[b] == BinaryKey(b)
    ensures BinaryKey(b) in Records(m, n).vals && Records(m, n).vals[BinaryKey(b)] == MakeRecord(m, b)
  {
    RecordsLength(m, n);
    RecordsLength(m, n - 1);
    RecordsKeyAbsent(m, n - 1, n - 1);
    if b < n - 1 {
      RecordsAt(m, n - 1, b);
      KeyRoundTrip(b);
      KeyRoundTrip(n - 1);
    }
  }

  /**
   * The three spellings of a record's position agree: the hex code and the
   * binary key both read back as `decimal`.
   */
  lemma RecordPositions(m: CharMap, b: nat)
    requires b < 256
    ensures ParseInt16(MakeRecord(m, b).hex) == Some(MakeRecord(m, b).decimal)
    ensures KeyValue(MakeRecord(m, b).binary) == MakeRecord(m, b).decimal
  {
    HexCodeRoundTrip(b);
    KeyRoundTrip(b);
  }

  /** A position's `ascii_value` is a `CONTROL` label exactly at the control positions, and its own character elsewhere. */
  lemma AsciiValueControl(b: nat)
    requires b < 256
    ensures StartsWith(AsciiValueOf(b), "CONTROL") <==> IsControlByte(b)
    ensures !IsControlByte(b) ==> AsciiValueOf(b) == [b as char]
  {
    if IsControlByte(b) {
      assert AsciiValueOf(b)[..7] == "CONTROL";
    }
  }

  /** A real character at a position is its `rom_value`; the sentinels and a missing position become their labels. */
  lemma RomValueSpec(m: CharMap, b: nat)
    ensures Get(m, b).Some? && Get(m, b).value != CUndef && Get(m, b).value != CUnmap ==> RomValueOf(m, b) == m.vals[b]
    ensures Get(m, b) == None || Get(m, b) == Some(CUndef) ==> RomValueOf(m, b) == UndefinedValue
    ensures Get(m, b) == Some(CUnmap) ==> RomValueOf(m, b) == UnmappedValue
  {
  }

  // ---- write_grid_csv ---------------------------------------------------------

  /** A nibble as four binary digits. */
  function Nibble4(n: nat): string {
    PadStart(Digits(n, 2), 4, '0')
  }

  lemma Nibble4Value(n: nat)
    ensures DigitsValue(Nibble4(n), 2) == n
  {
    PaddedValue(Digits(n, 2), 4, 2);
    DigitsRoundTrip(n, 2);
  }

  /** The byte at column `hi`, row `lo`: `(hi << 4) | lo`, which for nibbles is `16 * hi + lo`. */
  function ByteAt(hi: nat, lo: nat): (b: nat)
    requires hi < 16 && lo < 16
    ensures b < 256 && b / 16 == hi && b % 16 == lo
  {
    SplitByte(16 * hi + lo, hi, lo);
    16 * hi + lo
  }

  /** A grid cell: the character, or empty for a sentinel or a missing position. */
  function GridCell(m: CharMap, b: nat): string {
    var c := Get(m, b);
    if c.None? || c.value == CUndef || c.value == CUnmap then "" else c.value
  }

  const GridCorner: string := "b3-b0 \\ b7-b4"

  /** The column labels `0000` .. `1111`. */
  function GridHeader(): (r: seq<string>)
    ensures |r| == 17 && r[0] == GridCorner
    ensures forall hi :: 0 <= hi < 16 ==> r[hi + 1] == Nibble4(hi)
  {
    [GridCorner] + seq(16, hi requires 0 <= hi < 16 => Nibble4(hi))
  }

  /** The first `n` cells of row `lo`. */
  function GridCells(m: CharMap, lo: nat, n: nat): (r: seq<string>)
    requires lo < 16 && n <= 16
    ensures |r| == n
  {
    if n == 0 then [] else GridCells(m, lo, n - 1) + [GridCell(m, ByteAt(n - 1, lo))]
  }

  lemma {:induction false} GridCellsAt(m: CharMap, lo: nat, n: nat, hi: nat)
    requires lo < 16 && hi < n <= 16
    ensures GridCells(m, lo, n)[hi] == GridCell(m, ByteAt(hi, lo))
  {
    if hi < n - 1 {
      GridCellsAt(m, lo, n - 1, hi);
    }
  }

  function GridRow(m: CharMap, lo: nat): seq<string>
    requires lo < 16
  {
    [Nibble4(lo)] + GridCells(m, lo, 16)
  }

  /** The first `n` rows below the header. */
  function GridBody(m: CharMap, n: nat): (r: seq<seq<string>>)
    requires n <= 16
    ensures |r| == n
  {
    if n == 0 then [] else GridBody(m, n - 1) + [GridRow(m, n - 1)]
  }

  lemma {:induction false} GridBodyAt(m: CharMap, n: nat, lo: nat)
    requires lo < n <= 16
    ensures GridBody(m, n)[lo] == GridRow(m, lo)
  {
    if lo < n - 1 {
      GridBodyAt(m, n - 1, lo);
    }
  }

  /** The grid CSV: a header of column nibbles, then one row per low nibble with its cells by high nibble. */
  function Grid(m: CharMap): seq<seq<string>> {
    [GridHeader()] + GridBody(m, 16)
  }

  /** `write_grid_csv` without the file: the rows it writes. */
  method GridRows(romMap: CharMap) returns (rows: seq<seq<string>>)
    ensures rows == Grid(romMap)
  {
    rows := [GridHeader()];
    var lo := 0;
    while lo < 16
      invariant lo <= 16
      invariant rows == [GridHeader()] + GridBody(romMap, lo)
    {
      var row := GridRowOf(romMap, lo);
      rows := rows + [row];
      lo := lo + 1;
    }
  }

  /** One row of `write_grid_csv`. */
  method GridRowOf(romMap: CharMap, lo: nat) returns (row: seq<string>)
    requires lo < 16
    ensures row == GridRow(romMap, lo)
  {
    row := [Nibble4(lo)];
    var hi := 0;
    while hi < 16
      invariant hi <= 16
      invariant row == [Nibble4(lo)] + GridCells(romMap, lo, hi)
    {
      var byteCode := ByteAt(hi, lo);
      var ch := Get(romMap, byteCode);
      if ch.None? || ch.value == CUndef || ch.value == CUnmap {
        row := row + [""];
      } else {
        row := row + [ch.value];
      }
      hi := hi + 1;
    }
  }

  /**
   * The grid lays the 256 positions out as the datasheet does: its labels
   * read back as their nibbles, and every non-empty cell holds the
   * `rom_value` of the record for the position whose high nibble is the
   * column and whose low nibble is the row.
   */
  lemma GridSpec(m: CharMap, lo: nat, hi: nat)
    requires lo < 16 && hi < 16
    ensures |Grid(m)| == 17 && |Grid(m)[lo + 1]| == 17 && Grid(m)[0] == GridHeader()
    ensures DigitsValue(Grid(m)[lo + 1][0], 2) == lo && DigitsValue(Grid(m)[0][hi + 1], 2) == hi
    ensures var b := 16 * hi + lo; var cell := Grid(m)[lo + 1][hi + 1];
      BinaryKey(b) in Records(m, 256).vals
      && cell == GridCell(m, b)
      && (cell != "" ==> cell == Records(m, 256).vals[BinaryKey(b)].romValue)
  {
    var b := 16 * hi + lo;
    Nibble4Value(lo);
    Nibble4Value(hi);
    GridBodyAt(m, 16, lo);
    GridCellsAt(m, lo, 16, hi);
    RecordsAt(m, 256, b);
    RomValueSpec(m, b);
  }


  // ---- ROM_B_MANUAL_MAPPINGS and main ------------------------------------------

  /*
   * ROM B positions whose glyph occurs in no other ROM, with the character
   * read off the glyph by hand, in five groups as the extractor lists them.
   */
  /** Special graphic characters. */
  const ManualGraphics: seq<(nat, string)> :=
    [(0x18, "\U{25C7}"), (0x19, "\U{2016}")]

  /** Central European letters at `0xA0` .. `0xAF`. */
  const ManualCentralEuropeanA: seq<(nat, string)> :=
    [(0xA0, "\U{00C4}"), (0xA1, "\U{0104}"), (0xA2, "\U{0106}"), (0xA4, "\U{010E}"), (0xA5, "\U{011A}"),
     (0xA6, "\U{0119}"), (0xA7, "\U{011E}"), (0xA9, "\U{0131}"), (0xAB, "\U{013E}"), (0xAC, "\U{0143}"),
     (0xAD, "\U{0147}"), (0xAE, "\U{0150}"), (0xAF, "\U{0158}")]

  /** Central European letters at `0xB0` .. `0xB9`. */
  const ManualCentralEuropeanB: seq<(nat, string)> :=
    [(0xB0, "\U{015A}"), (0xB1, "\U{015E}"), (0xB2, "\U{015F}"), (0xB4, "\U{0162}"), (0xB5, "\U{0164}"),
     (0xB7, "\U{0170}"), (0xB8, "\U{0179}"), (0xB9, "\U{017B}")]

  /** Latin-1 capitals at `0xC0` .. `0xDE`. */
  const ManualLatinUpper: seq<(nat, string)> :=
    [(0xC0, "\U{00C0}"), (0xC2, "\U{00C2}"), (0xC3, "\U{00C3}"), (0xC6, "\U{00C6}"), (0xC7, "\U{00C7}"),
     (0xCB, "\U{00CB}"), (0xCC, "\U{00CC}"), (0xCE, "\U{00CE}"), (0xCF, "\U{00CF}"), (0xD0, "\U{00D0}"),
     (0xD1, "\U{00D1}"), (0xD5, "\U{00D5}"), (0xD9, "\U{00D9}"), (0xDB, "\U{00DB}"), (0xDE, "\U{00DE}")]

  /** Latin-1 small letters at `0xE3` .. `0xFE`. */
  const ManualLatinLower: seq<(nat, string)> :=
    [(0xE3, "\U{00E3}"), (0xE6, "\U{00E6}"), (0xE7, "\U{00E7}"), (0xF0, "\U{00F0}"), (0xF1, "\U{00F1}"),
     (0xF5, "\U{00F5}"), (0xFE, "\U{00FE}")]

  /** `ROM_B_MANUAL_MAPPINGS`, in the order it is written. */
  const RomBManualPairs: seq<(nat, string)> :=
    ManualGraphics + ManualCentralEuropeanA + ManualCentralEuropeanB + ManualLatinUpper + ManualLatinLower

  function RomBManual(): CharMap {
    FromPairs(RomBManualPairs)
  }

  /** Every hand-read character is a real one. */
  lemma RomBManualReal(b: nat)
    requires b in RomBManual().vals
    ensures RomBManual().vals[b] != CUnmap
  {
    ManualPairsReal(RomBManualPairs);
    FromPairsFrom(RomBManualPairs, b);
  }

  lemma ManualPairsReal(ps: seq<(nat, string)>)
    requires ps == RomBManualPairs
    ensures forall i :: 0 <= i < |ps| ==> ps[i].1 != CUnmap
  {
    forall i | 0 <= i < |ps| ensures ps[i].1 != CUnmap {
      assert ps[i] in ps;
    }
  }

  /** Applying ROM B's manual list a second time changes nothing. */
  lemma RomBManualIdempotent(m: CharMap)
    ensures var r := Patch(m, RomBManual().keys, ManualRule(RomBManual().vals));
      Patch(r.0, RomBManual().keys, ManualRule(RomBManual().vals)) == (r.0, 0)
  {
    forall b | b in RomBManual().vals ensures RomBManual().vals[b] != CUnmap {
      RomBManualReal(b);
    }
    ApplyManualIdempotent(m, RomBManual());
  }

  /** A ROM that was not found takes part as an empty map. */
  function MapOrEmpty(m: Option<CharMap>): CharMap {
    if m.Some? then m.value else Empty()
  }

  function BitmapsOrEmpty(b: Option<Bitmaps>): Bitmaps {
    if b.Some? then b.value else map[]
  }

  function Present(maps: PerVariant<Option<CharMap>>): PerVariant<CharMap> {
    PerVariant(MapOrEmpty(maps.a), MapOrEmpty(maps.b), MapOrEmpty(maps.c))
  }

  function PresentBitmaps(bitmaps: PerVariant<Option<Bitmaps>>): PerVariant<Bitmaps> {
    PerVariant(BitmapsOrEmpty(bitmaps.a), BitmapsOrEmpty(bitmaps.b), BitmapsOrEmpty(bitmaps.c))
  }

  /** A ROM's map after the bitmap cross-reference: only a ROM with both a map and bitmaps is resolved. */
  function ResolvedMap(maps: PerVariant<Option<CharMap>>, bitmaps: PerVariant<Option<Bitmaps>>, lookup: map<Pattern, string>, v: Variant): Option<CharMap> {
    if maps.Get(v).Some? && bitmaps.Get(v).Some? then
      Some(Patch(maps.Get(v).value, maps.Get(v).value.keys, BitmapRule(bitmaps.Get(v).value, lookup)).0)
    else maps.Get(v)
  }

  /** The ROM maps after the first `n` ROMs (in the order A, B, C) were resolved. */
  function ResolveFirst(maps: PerVariant<Option<CharMap>>, bitmaps: PerVariant<Option<Bitmaps>>, lookup: map<Pattern, string>, n: nat): PerVariant<Option<CharMap>>
    requires n <= |Variants|
  {
    if n == 0 then maps
    else ResolveFirst(maps, bitmaps, lookup, n - 1).With(Variants[n - 1], ResolvedMap(maps, bitmaps, lookup, Variants[n - 1]))
  }

  lemma ResolveAll(maps: PerVariant<Option<CharMap>>, bitmaps: PerVariant<Option<Bitmaps>>, lookup: map<Pattern, string>, v: Variant)
    ensures ResolveFirst(maps, bitmaps, lookup, |Variants|).Get(v) == ResolvedMap(maps, bitmaps, lookup, v)
  {
    assert Variants[0] == A && Variants[1] == B && Variants[2] == C && |Variants| == 3;
    assert ResolveFirst(maps, bitmaps, lookup, 0) == maps;
    var r1 := ResolveFirst(maps, bitmaps, lookup, 1);
    var r2 := ResolveFirst(maps, bitmaps, lookup, 2);
    assert r1 == maps.With(A, ResolvedMap(maps, bitmaps, lookup, A));
    assert r2 == r1.With(B, ResolvedMap(maps, bitmaps, lookup, B));
    assert ResolveFirst(maps, bitmaps, lookup, 3) == r2.With(C, ResolvedMap(maps, bitmaps, lookup, C));
  }

  /** A ROM's final map: resolved against the shared lookup, and for ROM B then patched by hand from `manual` (`main` passes `RomBManual()`). */
  function FinalMap(maps: PerVariant<Option<CharMap>>, bitmaps: PerVariant<Option<Bitmaps>>, manual: CharMap, v: Variant): Option<CharMap> {
    var r := ResolvedMap(maps, bitmaps, BitmapLookup(Present(maps), PresentBitmaps(bitmaps)), v);
    if v == B && r.Some? then Some(Patch(r.value, manual.keys, ManualRule(manual.vals)).0) else r
  }

  /** One turn of the resolution loop of `main`: ROM `Variants[i]` is resolved when both its map and its bitmaps were read. */
  method ResolveRom(maps: PerVariant<Option<CharMap>>, bitmaps: PerVariant<Option<Bitmaps>>, lookup: map<Pattern, string>, i: nat,
                    out: PerVariant<Option<CharMap>>) returns (out': PerVariant<Option<CharMap>>)
    requires i < |Variants| && out == ResolveFirst(maps, bitmaps, lookup, i)
    ensures out' == ResolveFirst(maps, bitmaps, lookup, i + 1)
  {
    var romId := Variants[i];
    var resolvedMap := maps.Get(romId);
    if maps.Get(romId).Some? && bitmaps.Get(romId).Some? {
      var updated, resolved := ResolveUnmapped(maps.Get(romId).value, bitmaps.Get(romId).value, lookup);
      resolvedMap := Some(updated);
    }
    out' := out.With(romId, resolvedMap);
  }

  /**
   * The map-building part of `main`: the shared glyph lookup is built from
   * every ROM first, then each ROM is resolved against it, then ROM B's
   * manual list is applied.
   */
  method ExtractRomMaps(maps: PerVariant<Option<CharMap>>, bitmaps: PerVariant<Option<Bitmaps>>, manual: CharMap) returns (out: PerVariant<Option<CharMap>>)
    ensures forall v :: out.Get(v) == FinalMap(maps, bitmaps, manual, v)
  {
    var lookup := BuildBitmapLookup(Present(maps), PresentBitmaps(bitmaps));
    var resolved := ResolveRoms(maps, bitmaps, lookup);
    out := resolved;
    if out.b.Some? {
      var updated, manualCount := ApplyManualMappings(out.b.value, manual);
      out := out.With(B, Some(updated));
    }
    forall v ensures out.Get(v) == FinalMap(maps, bitmaps, manual, v) {
      ResolveAll(maps, bitmaps, lookup, v);
    }
  }

  /** The resolution loop of `main`: each ROM in turn, in the order A, B, C. */
  method ResolveRoms(maps: PerVariant<Option<CharMap>>, bitmaps: PerVariant<Option<Bitmaps>>, lookup: map<Pattern, string>)
    returns (out: PerVariant<Option<CharMap>>)
    ensures out == ResolveFirst(maps, bitmaps, lookup, |Variants|)
  {
    out := maps;
    var i := 0;
    while i < |Variants|
      invariant i <= |Variants|
      invariant out == ResolveFirst(maps, bitmaps, lookup, i)
    {
      out := ResolveRom(maps, bitmaps, lookup, i, out);
      i := i + 1;
    }
  }

  /** A ROM's map after resolution, position by position. */
  lemma ResolvedMapSpec(maps: PerVariant<Option<CharMap>>, bitmaps: PerVariant<Option<Bitmaps>>, lookup: map<Pattern, string>, v: Variant, k: nat)
    requires maps.Get(v).Some?
    ensures var m := maps.Get(v).value;
      ResolvedMap(maps, bitmaps, lookup, v).Some?
      && ResolvedMap(maps, bitmaps, lookup, v).value.keys == m.keys
      && Get(ResolvedMap(maps, bitmaps, lookup, v).value, k) ==
        if bitmaps.Get(v).Some? && Resolvable(m, bitmaps.Get(v).value, lookup, k) then Some(lookup[bitmaps.Get(v).value[k]]) else Get(m, k)
  {
    if bitmaps.Get(v).Some? {
      ResolveSpec(maps.Get(v).value, bitmaps.Get(v).value, lookup, k);
    }
  }

  /**
   * What a position of a ROM ends up holding: a bitmap resolution if its
   * glyph is known from a mapped position, else its parsed character, and
   * in ROM B an entry still `UNMAPPED` takes the hand-read character.
   */
  lemma FinalMapSpec(maps: PerVariant<Option<CharMap>>, bitmaps: PerVariant<Option<Bitmaps>>, manual: CharMap, v: Variant, k: nat)
    requires maps.Get(v).Some?
    ensures var resolved := ResolvedMap(maps, bitmaps, BitmapLookup(Present(maps), PresentBitmaps(bitmaps)), v);
      resolved.Some? && FinalMap(maps, bitmaps, manual, v).Some?
      && FinalMap(maps, bitmaps, manual, v).value.keys == maps.Get(v).value.keys
      && Get(FinalMap(maps, bitmaps, manual, v).value, k) ==
        if v == B && Get(resolved.value, k) == Some(CUnmap) && k in manual.vals then Some(manual.vals[k]) else Get(resolved.value, k)
  {
    var lookup := BitmapLookup(Present(maps), PresentBitmaps(bitmaps));
    var resolved := ResolvedMap(maps, bitmaps, lookup, v);
    ResolvedMapSpec(maps, bitmaps, lookup, v, k);
    if v == B {
      var m := resolved.value;
      var r := Patch(m, manual.keys, ManualRule(manual.vals));
      assert r.0.keys == m.keys
        && Get(r.0, k) == (if Get(m, k) == Some(CUnmap) && k in manual.vals then Some(manual.vals[k]) else Get(m, k)) by {
        ApplyManualSpec(m, manual, k);
      }
      assert FinalMap(maps, bitmaps, manual, v) == Some(r.0);
    }
  }
}
