/**
 * The browser OLED character remapper: it rewrites text so that each
 * character is sent as the byte the chosen US2066 ROM draws it at.
 *
 * Per ROM it builds a reverse lookup from the character a glyph shows to
 * the ISO/IEC 8859-1 character that addresses it, resolves every input
 * code point against that lookup, the user's custom mappings and the
 * Baltic fallback lists, and encodes the result as ISO/IEC 8859-1 bytes.
 */
module OledConvertor {
  import opened Wrappers
  import opened Strings
  import opened Dicts
  import opened TableFolds
  import opened ByteKeys
  import opened RomTables

  newtype byte = x: int | 0 <= x < 256

  datatype Status = Passthrough | Mapped | Custom | AutoFallback | Unmapped

  /** A fallback the ROM can draw: the character shown and the byte character to send. */
  datatype Alternative = Alternative(displayChar: string, replacementChar: string)

  /** The resolution of one input code point. */
  datatype Entry = Entry(inputChar: char, replacementChar: Option<string>, status: Status, alternatives: seq<Alternative>)

  /** The "unmapped characters" selector; every value other than `auto` and `replace` behaves as `manual`. */
  datatype Mode = Auto | Replace | Manual

  /** The reverse lookup of one ROM: glyph character to the byte character that draws it. */
  type Lookup = map<string, string>

  predicate IsControl(ascii: string) {
    StartsWith(ascii, "CONTROL")
  }

  /** JavaScript truthiness of a string that may be `null`. */
  predicate Truthy(s: Option<string>) {
    s.Some? && s.value != ""
  }

  // ---- table keys ------------------------------------------------------

  /** The key `toString(2).padStart(8, '0')` and the slices give for a `parseInt` result; `NaN` prints as "NaN". */
  function JsKeyOf(p: Option<int>): string {
    match p
    case None => "0000_0NaN"
    case Some(i) => BinaryKey(i)
  }

  /** `getAsciiValueAtByte`: the byte character at a `0xHH` position, `None` when absent or a control position. */
  function AsciiValueAtByte(rom: RomTable, byteCode: string): (r: Option<string>)
    ensures r.Some? <==> JsKeyOf(ParseInt16(byteCode)) in rom.vals
                         && !IsControl(rom.vals[JsKeyOf(ParseInt16(byteCode))].asciiValue)
    ensures r.Some? ==> r.value == rom.vals[JsKeyOf(ParseInt16(byteCode))].asciiValue
  {
    match Get(rom, JsKeyOf(ParseInt16(byteCode)))
    case Some(e) => if !IsControl(e.asciiValue) then Some(e.asciiValue) else None
    case None => None
  }

  /** `getRomValueAtByte`: the glyph character at a `0xHH` position. */
  function RomValueAtByte(rom: RomTable, byteCode: string): (r: Option<string>)
    ensures r.Some? <==> JsKeyOf(ParseInt16(byteCode)) in rom.vals
    ensures r.Some? ==> r.value == rom.vals[JsKeyOf(ParseInt16(byteCode))].romValue
  {
    match Get(rom, JsKeyOf(ParseInt16(byteCode)))
    case Some(e) => Some(e.romValue)
    case None => None
  }

  /** `getEntryAtDecimal`: the record at a numeric position. */
  function EntryAtDecimal(rom: RomTable, d: nat): Option<RomRecord> {
    Get(rom, BinaryKey(d))
  }

  /** A `0xHH` code, as the generator writes it, addresses the record at that position. */
  lemma HexCodeAddressesPosition(rom: RomTable, n: nat)
    ensures RomValueAtByte(rom, HexCode(n)) == (match EntryAtDecimal(rom, n) case Some(e) => Some(e.romValue) case None => None)
  {
    HexCodeRoundTrip(n);
  }

  /** The ROM grid of the character dialog offers a position exactly when its record shows a real, non-control glyph; choosing it selects the record's byte character. */
  function GridChoice(rom: RomTable, d: nat): (r: Option<string>)
    ensures r.Some? <==> EntryAtDecimal(rom, d).Some?
                         && TableCandidate(EntryAtDecimal(rom, d).value).Some?
    ensures r.Some? ==> r.value == EntryAtDecimal(rom, d).value.asciiValue
  {
    match EntryAtDecimal(rom, d)
    case None => None
    case Some(e) =>
      if e.romValue == UndefinedValue || e.romValue == UnmappedValue || IsControl(e.asciiValue) then None
      else Some(e.asciiValue)
  }

  // ---- buildReverseLookup --------------------------------------------------

  /** The table pass's view of one record: skipped (undefined, unmapped or control), or glyph to byte character. */
  function TableCandidate(e: RomRecord): Option<(string, string)> {
    if e.romValue == UndefinedValue || e.romValue == UnmappedValue || IsControl(e.asciiValue) then None
    else Some((e.romValue, e.asciiValue))
  }

  function TableCandidates(items: seq<(string, RomRecord)>): (cs: seq<Option<(string, string)>>)
    ensures |cs| == |items|
    ensures forall i :: 0 <= i < |items| ==> cs[i] == TableCandidate(items[i].1)
  {
    if items == [] then []
    else TableCandidates(items[..|items| - 1]) + [TableCandidate(items[|items| - 1].1)]
  }

  /** The lookup after the table pass. */
  function TablePass(rom: RomTable): Lookup {
    FirstWins(TableCandidates(Items(rom)))
  }

  /** The Baltic merge's view of one Baltic entry for ROM `v`. */
  function MergeCandidate(rom: RomTable, ch: string, info: BalticEntry, v: Variant): Option<(string, string)> {
    match info.roms.Get(v)
    case None => None
    case Some(ri) =>
      if ri.available && Truthy(ri.byteCode) then
        var asciiVal := AsciiValueAtByte(rom, ri.byteCode.value);
        if Truthy(asciiVal) then Some((ch, asciiVal.value)) else None
      else None
  }

  function MergeCandidates(rom: RomTable, items: seq<(string, BalticEntry)>, v: Variant): (cs: seq<Option<(string, string)>>)
    ensures |cs| == |items|
  {
    if items == [] then []
    else MergeCandidates(rom, items[..|items| - 1], v) + [MergeCandidate(rom, items[|items| - 1].0, items[|items| - 1].1, v)]
  }

  /** Candidate `i` of the merge is the view of Baltic entry `i`. */
  lemma {:induction false} MergeCandidatesAt(rom: RomTable, items: seq<(string, BalticEntry)>, v: Variant, i: nat)
    requires i < |items|
    ensures MergeCandidates(rom, items, v)[i] == MergeCandidate(rom, items[i].0, items[i].1, v)
  {
    if i < |items| - 1 {
      var pre := items[..|items| - 1];
      MergeCandidatesAt(rom, pre, v, i);
      assert pre[i] == items[i];
    }
  }

  /** The complete reverse lookup of ROM `v`: the table pass, then the Baltic merge when a Baltic map is loaded. */
  function ReverseLookup(rom: RomTable, baltic: Option<BalticMap>, v: Variant): Lookup {
    match baltic
    case None => TablePass(rom)
    case Some(bm) => Overwrite(TablePass(rom), MergeCandidates(rom, Items(bm), v))
  }

  /**
   * The table pass: a glyph character is a key exactly when some record
   * that is neither undefined, unmapped nor a control position shows it,
   * and its value is the byte character of the first such record.
   */
  lemma TablePassSpec(rom: RomTable, rv: string)
    ensures rv in TablePass(rom) <==> exists i :: 0 <= i < |rom.keys| && TableCandidate(ItemAt(rom, i).1) == Some((rv, ItemAt(rom, i).1.asciiValue))
    ensures rv in TablePass(rom) ==>
      exists i :: 0 <= i < |rom.keys|
        && TableCandidate(ItemAt(rom, i).1).Some? && ItemAt(rom, i).1.romValue == rv
        && TablePass(rom)[rv] == ItemAt(rom, i).1.asciiValue
        && forall j :: 0 <= j < i ==> TableCandidate(ItemAt(rom, j).1).None? || ItemAt(rom, j).1.romValue != rv
  {
    var items := Items(rom);
    var cs := TableCandidates(items);
    FirstWinsSpec(cs, rv);
    if rv in TablePass(rom) {
      var i :| FirstKeyAt(cs, rv, i) && FirstWins(cs)[rv] == cs[i].value.1;
      assert TableCandidate(ItemAt(rom, i).1) == Some((rv, ItemAt(rom, i).1.asciiValue));
      forall j | 0 <= j < i
        ensures TableCandidate(ItemAt(rom, j).1).None? || ItemAt(rom, j).1.romValue != rv
      {
        assert !HasKeyAt(cs, rv, j);
      }
    } else {
      forall i | 0 <= i < |rom.keys|
        ensures TableCandidate(ItemAt(rom, i).1) != Some((rv, ItemAt(rom, i).1.asciiValue))
      {
        assert !HasKeyAt(cs, rv, i);
      }
    }
  }

  /** Baltic character `k` has a record for ROM `v` the merge can use. */
  predicate Mergeable(rom: RomTable, bm: BalticMap, v: Variant, k: string) {
    k in bm.vals && MergeCandidate(rom, k, bm.vals[k], v).Some?
  }

  /** Candidate `i` of the merge has key `k` exactly when entry `i` is character `k` and usable. */
  lemma MergeCandidateKeys(rom: RomTable, items: seq<(string, BalticEntry)>, v: Variant, k: string, i: int)
    ensures HasKeyAt(MergeCandidates(rom, items, v), k, i) <==>
      0 <= i < |items| && items[i].0 == k && MergeCandidate(rom, k, items[i].1, v).Some?
  {
    if 0 <= i < |items| {
      MergeCandidatesAt(rom, items, v, i);
    }
  }

  /**
   * The Baltic merge: a usable Baltic character (its record for this ROM is
   * available, with a byte code addressing a non-control record) is set to
   * that record's byte character whatever the table pass put there; every
   * other key keeps its table-pass value, and no other key appears.
   */
  lemma BalticMergeSpec(rom: RomTable, bm: BalticMap, v: Variant, k: string)
    ensures k in ReverseLookup(rom, Some(bm), v) <==> k in TablePass(rom) || Mergeable(rom, bm, v, k)
    ensures Mergeable(rom, bm, v, k) ==>
      ReverseLookup(rom, Some(bm), v)[k] == MergeCandidate(rom, k, bm.vals[k], v).value.1
    ensures !Mergeable(rom, bm, v, k) && k in TablePass(rom) ==>
      ReverseLookup(rom, Some(bm), v)[k] == TablePass(rom)[k]
  {
    var items := Items(bm);
    var cs := MergeCandidates(rom, items, v);
    OverwriteSpec(TablePass(rom), cs, k);
    if Mergeable(rom, bm, v, k) {
      var j :| 0 <= j < |bm.keys| && bm.keys[j] == k;
      assert items[j] == (k, bm.vals[k]);
      MergeCandidateKeys(rom, items, v, k, j);
      var i :| LastKeyAt(cs, k, i) && Overwrite(TablePass(rom), cs)[k] == cs[i].value.1;
      MergeCandidateKeys(rom, items, v, k, i);
      assert items[i].0 == bm.keys[i];
      assert i == j;
      MergeCandidatesAt(rom, items, v, j);
    } else {
      forall i ensures !HasKeyAt(cs, k, i) {
        MergeCandidateKeys(rom, items, v, k, i);
        if 0 <= i < |items| && items[i].0 == k {
          assert items[i].1 == bm.vals[k];
        }
      }
    }
  }

  // ---- convertText -----------------------------------------------------------

  /** The listed fallbacks the ROM can draw, in list order and with repeats, each with its byte character. */
  function FallbackAlternatives(fbs: seq<string>, lookup: Lookup): seq<Alternative> {
    if fbs == [] then []
    else
      var alts := FallbackAlternatives(fbs[..|fbs| - 1], lookup);
      var fb := fbs[|fbs| - 1];
      if fb in lookup then alts + [Alternative(fb, lookup[fb])] else alts
  }

  /** The fallbacks the Baltic map lists for `key` on ROM `v` (none without a map, an entry or a record). */
  function ListedFallbacks(key: string, baltic: Option<BalticMap>, v: Variant): seq<string> {
    if baltic.Some? && key in baltic.value.vals && baltic.value.vals[key].roms.Get(v).Some? then
      baltic.value.vals[key].roms.Get(v).value.fallbacks
    else []
  }

  predicate IsPassthroughChar(c: char) {
    c == '\n' || c == '\r' || c == '\t'
  }

  /** The entry `convertText` produces for code point `c`. */
  function Resolve(c: char, lookup: Lookup, custom: map<string, string>, baltic: Option<BalticMap>, v: Variant, mode: Mode): Entry {
    var key := [c];
    if IsPassthroughChar(c) then Entry(c, Some(key), Passthrough, [])
    else if key in lookup then Entry(c, Some(lookup[key]), Mapped, [])
    else if key in custom && custom[key] != "" then Entry(c, Some(custom[key]), Custom, [])
    else
      var alts := FallbackAlternatives(ListedFallbacks(key, baltic, v), lookup);
      if mode == Auto && |alts| > 0 then Entry(c, Some(alts[0].replacementChar), AutoFallback, alts)
      else if mode == Replace then Entry(c, Some("?"), Mapped, alts)
      else Entry(c, None, Unmapped, alts)
  }

  /** `\n`, `\r` and `\t` pass through unchanged whatever the mode and the tables, and nothing else passes through. */
  lemma PassthroughRule(c: char, lookup: Lookup, custom: map<string, string>, baltic: Option<BalticMap>, v: Variant, mode: Mode)
    ensures Resolve(c, lookup, custom, baltic, v, mode).status == Passthrough <==> IsPassthroughChar(c)
    ensures IsPassthroughChar(c) ==> Resolve(c, lookup, custom, baltic, v, mode).replacementChar == Some([c])
  {
  }

  /** A lookup hit is `mapped` to the lookup's value, whatever the custom mappings hold. */
  lemma LookupHitWins(c: char, lookup: Lookup, custom: map<string, string>, other: map<string, string>,
                      baltic: Option<BalticMap>, v: Variant, mode: Mode)
    requires !IsPassthroughChar(c) && [c] in lookup
    ensures Resolve(c, lookup, custom, baltic, v, mode) == Entry(c, Some(lookup[[c]]), Mapped, [])
    ensures Resolve(c, lookup, custom, baltic, v, mode) == Resolve(c, lookup, other, baltic, v, mode)
  {
  }

  /** The status is `custom` exactly on a lookup miss with a non-empty custom mapping, and then the mapping is the output. */
  lemma CustomRule(c: char, lookup: Lookup, custom: map<string, string>, baltic: Option<BalticMap>, v: Variant, mode: Mode)
    ensures var e := Resolve(c, lookup, custom, baltic, v, mode);
      (e.status == Custom <==> !IsPassthroughChar(c) && [c] !in lookup && [c] in custom && custom[[c]] != "")
      && (e.status == Custom ==> e.replacementChar == Some(custom[[c]]))
  {
  }

  /** Membership of position `i` of `fbs` in the alternatives. */
  predicate IsSubsequence(xs: seq<string>, ys: seq<string>) {
    if xs == [] then true
    else if ys == [] then false
    else if xs[|xs| - 1] == ys[|ys| - 1] then IsSubsequence(xs[..|xs| - 1], ys[..|ys| - 1])
    else IsSubsequence(xs, ys[..|ys| - 1])
  }

  function DisplayChars(alts: seq<Alternative>): (ds: seq<string>)
    ensures |ds| == |alts| && forall i :: 0 <= i < |alts| ==> ds[i] == alts[i].displayChar
  {
    if alts == [] then [] else DisplayChars(alts[..|alts| - 1]) + [alts[|alts| - 1].displayChar]
  }

  /**
   * The alternatives are exactly the listed fallbacks that are lookup keys:
   * each carries the lookup's value, they keep the list's order (a
   * subsequence of it), and every fallback occurs among them as often as in
   * the list when the ROM has it and never otherwise.
   */
  lemma AlternativesSpec(fbs: seq<string>, lookup: Lookup)
    ensures var alts := FallbackAlternatives(fbs, lookup);
      FromLookup(alts, lookup)
      && IsSubsequence(DisplayChars(alts), fbs)
      && (forall fb :: Count(DisplayChars(alts), fb) == if fb in lookup then Count(fbs, fb) else 0)
  {
    AlternativesValues(fbs, lookup);
    AlternativesOrder(fbs, lookup);
    forall fb ensures Count(DisplayChars(FallbackAlternatives(fbs, lookup)), fb) == if fb in lookup then Count(fbs, fb) else 0 {
      AlternativesCount(fbs, lookup, fb);
    }
  }

  /** Every alternative's display character is a lookup key and its replacement is the lookup's value. */
  predicate FromLookup(alts: seq<Alternative>, lookup: Lookup) {
    forall i :: 0 <= i < |alts| ==> alts[i].displayChar in lookup && alts[i].replacementChar == lookup[alts[i].displayChar]
  }

  lemma {:induction false} AlternativesValues(fbs: seq<string>, lookup: Lookup)
    ensures FromLookup(FallbackAlternatives(fbs, lookup), lookup)
  {
    if fbs != [] {
      var fb := fbs[|fbs| - 1];
      var alts0 := FallbackAlternatives(fbs[..|fbs| - 1], lookup);
      AlternativesValues(fbs[..|fbs| - 1], lookup);
      if fb in lookup {
        var alts := alts0 + [Alternative(fb, lookup[fb])];
        assert forall i :: 0 <= i < |alts0| ==> alts[i] == alts0[i];
      }
    }
  }

  lemma {:induction false} AlternativesOrder(fbs: seq<string>, lookup: Lookup)
    ensures IsSubsequence(DisplayChars(FallbackAlternatives(fbs, lookup)), fbs)
  {
    if fbs != [] {
      var pre := fbs[..|fbs| - 1];
      var fb := fbs[|fbs| - 1];
      AlternativesOrder(pre, lookup);
      var alts0 := FallbackAlternatives(pre, lookup);
      assert fbs == pre + [fb];
      if fb in lookup {
        var alts := alts0 + [Alternative(fb, lookup[fb])];
        assert DisplayChars(alts) == DisplayChars(alts0) + [fb];
        assert DisplayChars(alts)[..|DisplayChars(alts)| - 1] == DisplayChars(alts0);
      } else {
        SubsequenceExtend(DisplayChars(alts0), pre, fb);
      }
    }
  }

  lemma {:induction false} AlternativesCount(fbs: seq<string>, lookup: Lookup, x: string)
    ensures Count(DisplayChars(FallbackAlternatives(fbs, lookup)), x) == if x in lookup then Count(fbs, x) else 0
  {
    if fbs != [] {
      var pre := fbs[..|fbs| - 1];
      var fb := fbs[|fbs| - 1];
      AlternativesCount(pre, lookup, x);
      var alts0 := FallbackAlternatives(pre, lookup);
      assert fbs == pre + [fb];
      CountAppend(pre, [fb], x);
      assert [fb][1..] == [];
      if fb in lookup {
        var alts := alts0 + [Alternative(fb, lookup[fb])];
        assert DisplayChars(alts) == DisplayChars(alts0) + [fb];
        CountAppend(DisplayChars(alts0), [fb], x);
      }
    }
  }

  /** A subsequence of `ys` is one of `ys + [y]`. */
  lemma {:induction false} SubsequenceExtend(xs: seq<string>, ys: seq<string>, y: string)
    requires IsSubsequence(xs, ys)
    ensures IsSubsequence(xs, ys + [y])
    decreases |xs| + |ys|, 1
  {
    var zs := ys + [y];
    assert zs[..|zs| - 1] == ys;
    if xs != [] && xs[|xs| - 1] == y {
      SubsequenceDropLast(xs, ys);
    }
  }

  /** Dropping the last element of a subsequence leaves a subsequence. */
  lemma {:induction false} SubsequenceDropLast(xs: seq<string>, ys: seq<string>)
    requires xs != [] && IsSubsequence(xs, ys)
    ensures IsSubsequence(xs[..|xs| - 1], ys)
    decreases |xs| + |ys|, 0
  {
    var pre := xs[..|xs| - 1];
    if ys != [] {
      var front := ys[..|ys| - 1];
      var last := ys[|ys| - 1];
      assert front + [last] == ys;
      if xs[|xs| - 1] != last {
        SubsequenceDropLast(xs, front);
      }
      SubsequenceExtend(pre, front, last);
    }
  }

  /** The first alternative comes from the first listed fallback the ROM has. */
  lemma {:induction false} FirstAlternative(fbs: seq<string>, lookup: Lookup)
    requires |FallbackAlternatives(fbs, lookup)| > 0
    ensures exists i ::
      && 0 <= i < |fbs| && fbs[i] in lookup
      && FallbackAlternatives(fbs, lookup)[0] == Alternative(fbs[i], lookup[fbs[i]])
      && forall j :: 0 <= j < i ==> fbs[j] !in lookup
  {
    var pre := fbs[..|fbs| - 1];
    var fb := fbs[|fbs| - 1];
    var alts0 := FallbackAlternatives(pre, lookup);
    var alts := FallbackAlternatives(fbs, lookup);
    assert alts == if fb in lookup then alts0 + [Alternative(fb, lookup[fb])] else alts0;
    if |alts0| > 0 {
      assert alts[0] == alts0[0];
      FirstAlternative(pre, lookup);
      var i :| 0 <= i < |pre| && pre[i] in lookup && alts0[0] == Alternative(pre[i], lookup[pre[i]])
        && forall j :: 0 <= j < i ==> pre[j] !in lookup;
      assert fbs[i] == pre[i];
      assert forall j :: 0 <= j < i ==> fbs[j] == pre[j];
    } else {
      NoAlternatives(pre, lookup);
      var n := |fbs| - 1;
      assert fb in lookup && alts[0] == Alternative(fb, lookup[fb]);
      assert forall j :: 0 <= j < n ==> fbs[j] == pre[j];
    }
  }

  lemma {:induction false} NoAlternatives(fbs: seq<string>, lookup: Lookup)
    requires |FallbackAlternatives(fbs, lookup)| == 0
    ensures forall j :: 0 <= j < |fbs| ==> fbs[j] !in lookup
  {
    if fbs != [] {
      var pre := fbs[..|fbs| - 1];
      NoAlternatives(pre, lookup);
      assert forall j :: 0 <= j < |pre| ==> fbs[j] == pre[j];
    }
  }

  /**
   * The unmapped policy, for a code point that neither passes through, hits
   * the lookup nor has a non-empty custom mapping: `auto` takes the first
   * alternative as `auto-fallback` when there is one; `replace` sends `?` as
   * `mapped` even when alternatives exist; otherwise the entry stays
   * `unmapped` without output. The alternatives are kept in every case.
   */
  lemma UnmappedPolicy(c: char, lookup: Lookup, custom: map<string, string>, baltic: Option<BalticMap>, v: Variant, mode: Mode)
    requires !IsPassthroughChar(c) && [c] !in lookup && ([c] !in custom || custom[[c]] == "")
    ensures var e := Resolve(c, lookup, custom, baltic, v, mode);
      var alts := FallbackAlternatives(ListedFallbacks([c], baltic, v), lookup);
      e.alternatives == alts
      && (mode == Auto && |alts| > 0 ==> e.status == AutoFallback && e.replacementChar == Some(alts[0].replacementChar))
      && (mode == Replace ==> e.status == Mapped && e.replacementChar == Some("?"))
      && (mode == Manual || (mode == Auto && alts == []) ==> e.status == Unmapped && e.replacementChar.None?)
  {
  }

  /** Saving a non-empty custom mapping for a code point the lookup misses makes it `custom` with that output. */
  lemma CustomMappingTakesEffect(c: char, lookup: Lookup, custom: map<string, string>, r: string,
                                 baltic: Option<BalticMap>, v: Variant, mode: Mode)
    requires !IsPassthroughChar(c) && [c] !in lookup && r != ""
    ensures Resolve(c, lookup, custom[[c] := r], baltic, v, mode) == Entry(c, Some(r), Custom, [])
  {
  }

  /** Deleting a code point's custom mapping, or clearing all of them, leaves it resolved as though it never had one. */
  lemma DeleteForgetsMapping(c: char, lookup: Lookup, custom: map<string, string>, baltic: Option<BalticMap>, v: Variant, mode: Mode)
    ensures Resolve(c, lookup, custom - {[c]}, baltic, v, mode) == Resolve(c, lookup, map[], baltic, v, mode)
    ensures Resolve(c, lookup, map[], baltic, v, mode).status != Custom
  {
  }

  // ---- encoding ----------------------------------------------------------------

  /** The UTF-16 code units of one code point, as a JavaScript string stores it. */
  function CodeUnits(c: char): (u: seq<nat>)
    ensures |u| == if c as int <= 0xFFFF then 1 else 2
    ensures c as int <= 0xFFFF ==> u == [c as nat]
    ensures c as int > 0xFFFF ==> u[0] > 0xFF && u[1] > 0xFF
  {
    var n := c as int;
    if n <= 0xFFFF then [n] else [0xD800 + (n - 0x10000) / 0x400, 0xDC00 + (n - 0x10000) % 0x400]
  }

  /** A JavaScript string's code units. */
  function Utf16(s: string): seq<nat> {
    if s == [] then [] else Utf16(s[..|s| - 1]) + CodeUnits(s[|s| - 1])
  }

  /** The byte one code unit becomes: itself up to 0xFF, else `?` (0x3F). */
  function Latin1Byte(u: nat): byte {
    if u <= 0xFF then u as byte else 0x3F
  }

  /** The bytes a single code point becomes: itself when in ISO/IEC 8859-1, else one `?` per code unit. */
  function CharBytes(c: char): seq<byte> {
    if c as int <= 0xFF then [c as int as byte]
    else if c as int <= 0xFFFF then [0x3F]
    else [0x3F, 0x3F]
  }

  /** The reference encoding, code point by code point. */
  function EncodeChars(s: string): seq<byte> {
    if s == [] then [] else EncodeChars(s[..|s| - 1]) + CharBytes(s[|s| - 1])
  }

  /** Number of code points above U+FFFF, each stored as two code units. */
  function Supplementary(s: string): nat {
    if s == [] then 0 else Supplementary(s[..|s| - 1]) + (if s[|s| - 1] as int > 0xFFFF then 1 else 0)
  }

  /**
   * The unit-by-unit encoding of the download loop agrees with the
   * code-point reference, and its length is the string's UTF-16 length.
   */
  lemma {:induction false} EncodingAgrees(s: string)
    ensures |Utf16(s)| == |s| + Supplementary(s)
    ensures |EncodeChars(s)| == |Utf16(s)|
    ensures forall i :: 0 <= i < |Utf16(s)| ==> EncodeChars(s)[i] == Latin1Byte(Utf16(s)[i])
  {
    if s != [] {
      var pre := s[..|s| - 1];
      var c := s[|s| - 1];
      EncodingAgrees(pre);
      var u := Utf16(pre);
      var e := EncodeChars(pre);
      forall i | 0 <= i < |Utf16(s)| ensures EncodeChars(s)[i] == Latin1Byte(Utf16(s)[i]) {
        if i >= |u| {
          assert Utf16(s)[i] == CodeUnits(c)[i - |u|];
          assert EncodeChars(s)[i] == CharBytes(c)[i - |e|];
        } else {
          assert Utf16(s)[i] == u[i];
          assert EncodeChars(s)[i] == e[i];
        }
      }
    }
  }

  /** Text made only of ISO/IEC 8859-1 characters is written byte for byte: one byte per character, equal to its code. */
  lemma {:induction false} Latin1TextIsExact(s: string)
    requires forall i :: 0 <= i < |s| ==> s[i] as int <= 0xFF
    ensures EncodeChars(s) == seq(|s|, i requires 0 <= i < |s| => s[i] as int as byte)
  {
    if s != [] {
      var pre := s[..|s| - 1];
      Latin1TextIsExact(pre);
    }
  }

  /** The text one entry contributes to the download: the input for passthrough, else its output or `?` when it has none. */
  function OutputChunk(e: Entry): string {
    if e.status == Passthrough then [e.inputChar]
    else if Truthy(e.replacementChar) then e.replacementChar.value
    else "?"
  }

  function OutputText(result: seq<Entry>): string {
    if result == [] then [] else OutputText(result[..|result| - 1]) + OutputChunk(result[|result| - 1])
  }

  // ---- download name -----------------------------------------------------------

  /** `name.replace(/\.[^.]+$/, '')`: drop a final `.ext` whose extension is non-empty. */
  function StripExtension(name: string): (r: string)
    ensures StartsWith(name, r)
  {
    match LastIndexOf(name, '.')
    case None => name
    case Some(k) => if k < |name| - 1 then name[..k] else name
  }

  /** The extension removed is exactly the last `.` and the dot-free, non-empty text after it. */
  lemma StripExtensionSpec(base: string, ext: string)
    requires ext != [] && forall i :: 0 <= i < |ext| ==> ext[i] != '.'
    ensures StripExtension(base + "." + ext) == base
  {
    var name := base + "." + ext;
    assert name[|base|] == '.';
    assert forall j :: |base| < j < |name| ==> name[j] == ext[j - |base| - 1];
    assert name[..|base|] == base;
  }

  /** A name without a dot, or ending in one, is kept whole. */
  lemma StripExtensionKeeps(name: string)
    requires (forall i :: 0 <= i < |name| ==> name[i] != '.') || (name != [] && name[|name| - 1] == '.')
    ensures StripExtension(name) == name
  {
  }

  function VariantLetter(v: Variant): string {
    match v
    case A => "A"
    case B => "B"
    case C => "C"
  }

  /** `${base}_rom${rom}.txt`, the base being the loaded file's name without its extension, or `converted`. */
  function DownloadName(fileName: Option<string>, v: Variant): string {
    var base := if Truthy(fileName) then StripExtension(fileName.value) else "converted";
    base + "_rom" + VariantLetter(v) + ".txt"
  }

  // ---- attribute escaping --------------------------------------------------------

  /** Replace every `c` in `s` by `r` (`s.replace(/c/g, r)`). */
  function ReplaceAll(s: string, c: char, r: string): string {
    if s == [] then [] else (if s[0] == c then r else [s[0]]) + ReplaceAll(s[1..], c, r)
  }

  /** `escapeAttr`: `&` becomes `&amp;`, then `"` becomes `&quot;`. */
  function EscapeAttr(s: string): string {
    ReplaceAll(ReplaceAll(s, '&', "&amp;"), '"', "&quot;")
  }

  /** What an HTML parser makes of an attribute value with the two entities `escapeAttr` writes. */
  function UnescapeAttr(s: string): string
    decreases |s|
  {
    if s == [] then []
    else if StartsWith(s, "&amp;") then "&" + UnescapeAttr(s[5..])
    else if StartsWith(s, "&quot;") then "\"" + UnescapeAttr(s[6..])
    else [s[0]] + UnescapeAttr(s[1..])
  }

  /** Escaping in one pass over the characters. */
  function EscapeChars(s: string): string {
    if s == [] then []
    else (if s[0] == '&' then "&amp;" else if s[0] == '"' then "&quot;" else [s[0]]) + EscapeChars(s[1..])
  }

  lemma {:induction false} ReplaceAllConcat(a: string, b: string, c: char, r: string)
    ensures ReplaceAll(a + b, c, r) == ReplaceAll(a, c, r) + ReplaceAll(b, c, r)
  {
    if a == [] {
      assert a + b == b;
    } else {
      assert (a + b)[1..] == a[1..] + b;
      ReplaceAllConcat(a[1..], b, c, r);
    }
  }

  /** The two `replace` passes equal the one-pass escape: the first pass writes no `"`. */
  lemma {:induction false} EscapeAttrOnePass(s: string)
    ensures EscapeAttr(s) == EscapeChars(s)
  {
    if s != [] {
      EscapeAttrOnePass(s[1..]);
      var head := if s[0] == '&' then "&amp;" else [s[0]];
      assert ReplaceAll(s, '&', "&amp;") == head + ReplaceAll(s[1..], '&', "&amp;");
      ReplaceAllConcat(head, ReplaceAll(s[1..], '&', "&amp;"), '"', "&quot;");
      if s[0] == '&' {
        assert ReplaceAll("&amp;", '"', "&quot;") == "&amp;";
      } else {
        assert ReplaceAll([s[0]], '"', "&quot;") == (if s[0] == '"' then "&quot;" else [s[0]]);
      }
    }
  }

  /** `UnescapeAttr` inverts `EscapeAttr`. A browser's attribute parsing (NUL to U+FFFD, CR and CRLF to LF) is not modelled. */
  lemma {:induction false} EscapeAttrRoundTrip(s: string)
    ensures UnescapeAttr(EscapeAttr(s)) == s
  {
    EscapeAttrOnePass(s);
    EscapeCharsRoundTrip(s);
  }

  lemma {:induction false} EscapeCharsRoundTrip(s: string)
    ensures UnescapeAttr(EscapeChars(s)) == s
  {
    if s != [] {
      EscapeCharsRoundTrip(s[1..]);
      var rest := EscapeChars(s[1..]);
      if s[0] == '&' {
        var t := "&amp;" + rest;
        assert StartsWith(t, "&amp;");
        assert t[5..] == rest;
      } else if s[0] == '"' {
        var t := "&quot;" + rest;
        assert !StartsWith(t, "&amp;") by { assert t[1] == 'q'; }
        assert StartsWith(t, "&quot;");
        assert t[6..] == rest;
      } else {
        var t := [s[0]] + rest;
        assert !StartsWith(t, "&amp;") && !StartsWith(t, "&quot;") by { assert t[0] == s[0]; }
        assert t[1..] == rest;
      }
      assert s == [s[0]] + s[1..];
    }
  }

  // ---- the unmapped-character list -------------------------------------------------

  /** An input character that is still `unmapped` or `auto-fallback`, with its first entry and every index where it occurs so. */
  datatype Group = Group(ch: char, entry: Entry, indices: seq<nat>)

  predicate Listed(e: Entry) {
    e.status == Unmapped || e.status == AutoFallback
  }

  function GroupIndex(groups: seq<Group>, c: char): (k: nat)
    ensures k <= |groups|
    ensures k < |groups| ==> groups[k].ch == c
    ensures forall j :: 0 <= j < k ==> groups[j].ch != c
  {
    if groups == [] then 0 else if groups[0].ch == c then 0 else 1 + GroupIndex(groups[1..], c)
  }

  /** The grouping after one more entry `e` at index `i`. */
  function GroupStep(groups: seq<Group>, i: nat, e: Entry): seq<Group> {
    if !Listed(e) then groups
    else
      var k := GroupIndex(groups, e.inputChar);
      if k == |groups| then groups + [Group(e.inputChar, e, [i])]
      else groups[k := Group(groups[k].ch, groups[k].entry, groups[k].indices + [i])]
  }

  /** The grouping of the first `n` entries. */
  function GroupsUpTo(res: seq<Entry>, n: nat): seq<Group>
    requires n <= |res|
  {
    if n == 0 then [] else GroupStep(GroupsUpTo(res, n - 1), n - 1, res[n - 1])
  }

  /** Every index of `g` is below `n`, in range, and holds a listed entry for `g`'s character. */
  predicate IndicesOk(res: seq<Entry>, g: Group, n: int) {
    forall k :: 0 <= k < |g.indices| ==>
      g.indices[k] < n && g.indices[k] < |res| && Listed(res[g.indices[k]]) && res[g.indices[k]].inputChar == g.ch
  }

  predicate Increasing(xs: seq<nat>) {
    forall k, l :: 0 <= k < l < |xs| ==> xs[k] < xs[l]
  }

  /** Group `g` has at least one index, all of them fine and increasing, and carries the entry at the first. */
  predicate GroupOk(res: seq<Entry>, g: Group, n: int) {
    |g.indices| > 0 && IndicesOk(res, g, n) && Increasing(g.indices) && g.entry == res[g.indices[0]]
  }

  predicate DistinctChars(groups: seq<Group>) {
    forall g, h :: 0 <= g < h < |groups| ==> groups[g].ch != groups[h].ch
  }

  predicate AllOk(res: seq<Entry>, groups: seq<Group>, n: int) {
    forall g :: 0 <= g < |groups| ==> GroupOk(res, groups[g], n)
  }

  /** Every listed index below `n` belongs to the group of its character. */
  predicate Covered(res: seq<Entry>, groups: seq<Group>, n: int) {
    forall j :: 0 <= j < n && j < |res| && Listed(res[j]) ==>
      exists g :: 0 <= g < |groups| && groups[g].ch == res[j].inputChar && j in groups[g].indices
  }

  predicate FirstOrdered(groups: seq<Group>)
    requires forall g :: 0 <= g < |groups| ==> |groups[g].indices| > 0
  {
    forall g, h :: 0 <= g < h < |groups| ==> groups[g].indices[0] < groups[h].indices[0]
  }

  /** The groups of the first `n` entries: one per listed character, covering every listed index, in order of first index. */
  predicate Grouping(res: seq<Entry>, groups: seq<Group>, n: int) {
    DistinctChars(groups) && AllOk(res, groups, n) && Covered(res, groups, n) && FirstOrdered(groups)
  }

  lemma {:induction false} AllOkWiden(res: seq<Entry>, groups: seq<Group>, n: int)
    requires AllOk(res, groups, n)
    ensures AllOk(res, groups, n + 1)
  {
    forall g | 0 <= g < |groups| ensures GroupOk(res, groups[g], n + 1) {
      assert GroupOk(res, groups[g], n);
    }
  }

  lemma GroupStepNew(res: seq<Entry>, groups: seq<Group>, i: nat)
    requires i < |res| && Listed(res[i]) && Grouping(res, groups, i)
    requires GroupIndex(groups, res[i].inputChar) == |groups|
    ensures Grouping(res, groups + [Group(res[i].inputChar, res[i], [i])], i + 1)
  {
    NewGroupOk(res, groups, i);
    NewGroupDistinct(groups, res[i], [i]);
    NewGroupOrdered(res, groups, i);
    NewGroupCovered(res, groups, i);
  }

  lemma NewGroupOk(res: seq<Entry>, groups: seq<Group>, i: nat)
    requires i < |res| && Listed(res[i]) && AllOk(res, groups, i)
    ensures AllOk(res, groups + [Group(res[i].inputChar, res[i], [i])], i + 1)
  {
    var ng := groups + [Group(res[i].inputChar, res[i], [i])];
    AllOkWiden(res, groups, i);
    assert GroupOk(res, ng[|groups|], i + 1);
    forall g | 0 <= g < |ng| ensures GroupOk(res, ng[g], i + 1) {
      if g < |groups| {
        assert ng[g] == groups[g];
      }
    }
  }

  lemma NewGroupDistinct(groups: seq<Group>, e: Entry, idx: seq<nat>)
    requires DistinctChars(groups) && GroupIndex(groups, e.inputChar) == |groups|
    ensures DistinctChars(groups + [Group(e.inputChar, e, idx)])
  {
    var ng := groups + [Group(e.inputChar, e, idx)];
    forall g, h | 0 <= g < h < |ng| ensures ng[g].ch != ng[h].ch {
      assert ng[g] == groups[g];
    }
  }

  lemma NewGroupOrdered(res: seq<Entry>, groups: seq<Group>, i: nat)
    requires i < |res| && AllOk(res, groups, i) && FirstOrdered(groups)
    ensures var ng := groups + [Group(res[i].inputChar, res[i], [i])];
      (forall g :: 0 <= g < |ng| ==> |ng[g].indices| > 0) && FirstOrdered(ng)
  {
    var ng := groups + [Group(res[i].inputChar, res[i], [i])];
    forall g | 0 <= g < |groups| ensures ng[g] == groups[g] && 0 < |ng[g].indices| && ng[g].indices[0] < i {
      assert GroupOk(res, groups[g], i);
    }
  }

  lemma NewGroupCovered(res: seq<Entry>, groups: seq<Group>, i: nat)
    requires i < |res| && Covered(res, groups, i)
    ensures Covered(res, groups + [Group(res[i].inputChar, res[i], [i])], i + 1)
  {
    var ng := groups + [Group(res[i].inputChar, res[i], [i])];
    forall j | 0 <= j < i + 1 && j < |res| && Listed(res[j])
      ensures exists g :: 0 <= g < |ng| && ng[g].ch == res[j].inputChar && j in ng[g].indices
    {
      if j == i {
        assert j in ng[|groups|].indices;
      } else {
        var g :| 0 <= g < |groups| && groups[g].ch == res[j].inputChar && j in groups[g].indices;
        assert ng[g] == groups[g];
      }
    }
  }

  lemma {:induction false} ExtendGroupOk(res: seq<Entry>, g0: Group, i: nat)
    requires i < |res| && Listed(res[i]) && res[i].inputChar == g0.ch && GroupOk(res, g0, i)
    ensures GroupOk(res, Group(g0.ch, g0.entry, g0.indices + [i]), i + 1)
  {
    var ext := Group(g0.ch, g0.entry, g0.indices + [i]);
    assert IndicesOk(res, ext, i + 1) by {
      forall m | 0 <= m < |ext.indices| ensures ext.indices[m] < i + 1 && ext.indices[m] < |res|
        && Listed(res[ext.indices[m]]) && res[ext.indices[m]].inputChar == ext.ch
      {
        if m < |g0.indices| {
          assert ext.indices[m] == g0.indices[m];
        }
      }
    }
    assert Increasing(ext.indices) by {
      forall m, l | 0 <= m < l < |ext.indices| ensures ext.indices[m] < ext.indices[l] {
        assert ext.indices[m] == g0.indices[m];
        if l < |g0.indices| {
          assert ext.indices[l] == g0.indices[l];
        }
      }
    }
  }

  /** Group `k` replaced by a group with the same character and first index. */
  function Replaced(groups: seq<Group>, k: nat, i: nat): seq<Group>
    requires k < |groups|
  {
    groups[k := Group(groups[k].ch, groups[k].entry, groups[k].indices + [i])]
  }

  lemma {:induction false} ReplacedAllOk(res: seq<Entry>, groups: seq<Group>, i: nat, k: nat)
    requires i < |res| && Listed(res[i]) && k < |groups| && res[i].inputChar == groups[k].ch
    requires AllOk(res, groups, i)
    ensures AllOk(res, Replaced(groups, k, i), i + 1)
  {
    var ng := Replaced(groups, k, i);
    ExtendGroupOk(res, groups[k], i);
    AllOkWiden(res, groups, i);
    forall g | 0 <= g < |ng| ensures GroupOk(res, ng[g], i + 1) {
      if g != k {
        assert ng[g] == groups[g];
      }
    }
  }

  lemma {:induction false} ReplacedShape(groups: seq<Group>, i: nat, k: nat)
    requires k < |groups| && DistinctChars(groups)
    requires forall g :: 0 <= g < |groups| ==> |groups[g].indices| > 0
    requires FirstOrdered(groups)
    ensures DistinctChars(Replaced(groups, k, i))
    ensures forall g :: 0 <= g < |groups| ==> |Replaced(groups, k, i)[g].indices| > 0
    ensures FirstOrdered(Replaced(groups, k, i))
  {
    var ng := Replaced(groups, k, i);
    assert forall g :: 0 <= g < |ng| ==> ng[g].ch == groups[g].ch && ng[g].indices[0] == groups[g].indices[0];
  }

  lemma {:induction false} ReplacedCovered(res: seq<Entry>, groups: seq<Group>, i: nat, k: nat)
    requires i < |res| && k < |groups| && res[i].inputChar == groups[k].ch
    requires Covered(res, groups, i)
    ensures Covered(res, Replaced(groups, k, i), i + 1)
  {
    var ng := Replaced(groups, k, i);
    forall j | 0 <= j < i + 1 && j < |res| && Listed(res[j])
      ensures exists g :: 0 <= g < |ng| && ng[g].ch == res[j].inputChar && j in ng[g].indices
    {
      if j == i {
        assert j in ng[k].indices;
      } else {
        var g :| 0 <= g < |groups| && groups[g].ch == res[j].inputChar && j in groups[g].indices;
        assert j in ng[g].indices;
      }
    }
  }

  lemma {:induction false} GroupStepExtend(res: seq<Entry>, groups: seq<Group>, i: nat, k: nat)
    requires i < |res| && Listed(res[i]) && Grouping(res, groups, i)
    requires k == GroupIndex(groups, res[i].inputChar) && k < |groups|
    ensures Grouping(res, Replaced(groups, k, i), i + 1)
  {
    ReplacedAllOk(res, groups, i, k);
    ReplacedShape(groups, i, k);
    ReplacedCovered(res, groups, i, k);
  }

  /**
   * The grouping of the first `n` entries has one group per character
   * still listed among them, in order of first appearance, each carrying
   * every index where that character is listed and the entry at the first.
   */
  lemma {:induction false} GroupsUpToSpec(res: seq<Entry>, n: nat)
    requires n <= |res|
    ensures Grouping(res, GroupsUpTo(res, n), n)
  {
    if n > 0 {
      var i := n - 1;
      var groups := GroupsUpTo(res, i);
      GroupsUpToSpec(res, i);
      if !Listed(res[i]) {
        AllOkWiden(res, groups, i);
      } else {
        var k := GroupIndex(groups, res[i].inputChar);
        if k == |groups| {
          GroupStepNew(res, groups, i);
        } else {
          GroupStepExtend(res, groups, i, k);
        }
      }
    }
  }

  /** The custom mappings the page keeps in storage, per ROM; `None` where the stored value was absent or falsy. */
  type StoredMappings = PerVariant<Option<map<string, string>>>

  /** `loadCustomMappings`: each ROM whose stored value is present is replaced by it. */
  function Loaded(current: PerVariant<map<string, string>>, stored: StoredMappings): (r: PerVariant<map<string, string>>)
    ensures forall v :: r.Get(v) == if stored.Get(v).Some? then stored.Get(v).value else current.Get(v)
  {
    PerVariant(
      if stored.a.Some? then stored.a.value else current.a,
      if stored.b.Some? then stored.b.value else current.b,
      if stored.c.Some? then stored.c.value else current.c)
  }

  /** `importMappings`: each present ROM is merged key by key, imported values winning, other keys kept. */
  function Imported(current: PerVariant<map<string, string>>, parsed: StoredMappings): (r: PerVariant<map<string, string>>)
    ensures forall v, k :: k in r.Get(v) <==> k in current.Get(v) || (parsed.Get(v).Some? && k in parsed.Get(v).value)
    ensures forall v, k :: k in r.Get(v) ==>
      r.Get(v)[k] == if parsed.Get(v).Some? && k in parsed.Get(v).value then parsed.Get(v).value[k] else current.Get(v)[k]
  {
    PerVariant(
      if parsed.a.Some? then current.a + parsed.a.value else current.a,
      if parsed.b.Some? then current.b + parsed.b.value else current.b,
      if parsed.c.Some? then current.c + parsed.c.value else current.c)
  }

  /** The replacement the dialog's direct input selects: the lookup's byte character for a glyph it knows, else the typed text itself. */
  function DirectReplacement(val: string, lookup: Lookup): string {
    if val in lookup then lookup[val] else val
  }

  /**
   * Without a Baltic map, typed text the ROM shows is replaced by the byte
   * character of a position whose glyph it is; text the ROM does not show
   * is kept as typed.
   */
  lemma DirectReplacementShowsGlyph(rom: RomTable, v: Variant, val: string)
    ensures val in TablePass(rom) ==>
      exists i :: 0 <= i < |rom.keys| && ItemAt(rom, i).1.romValue == val
        && DirectReplacement(val, ReverseLookup(rom, None, v)) == ItemAt(rom, i).1.asciiValue
    ensures val !in TablePass(rom) ==> DirectReplacement(val, ReverseLookup(rom, None, v)) == val
  {
    TablePassSpec(rom, val);
  }

  /** One turn of the first loop of `buildReverseLookup`: record `i` is inserted when usable and its glyph character is new. */
  method TableEntry(items: seq<(string, RomRecord)>, i: nat, lookup: Lookup) returns (r: Lookup)
    requires i < |items|
    requires lookup == FirstWins(TableCandidates(items[..i]))
    ensures r == FirstWins(TableCandidates(items[..i + 1]))
  {
    var entry := items[i].1;
    var rv := entry.romValue;
    assert items[..i + 1] == items[..i] + [items[i]];
    FirstWinsSnoc(TableCandidates(items[..i]), TableCandidate(entry));
    r := lookup;
    if rv != UndefinedValue && rv != UnmappedValue && !IsControl(entry.asciiValue) {
      if rv !in lookup {
        r := lookup[rv := entry.asciiValue];
      }
    }
  }

  /** The first loop of `buildReverseLookup`: records in file order, a glyph character keeping its first byte character. */
  method TablePassLoop(rom: RomTable) returns (lookup: Lookup)
    ensures lookup == TablePass(rom)
  {
    var items := Items(rom);
    lookup := map[];
    var i := 0;
    while i < |items|
      invariant 0 <= i <= |items|
      invariant lookup == FirstWins(TableCandidates(items[..i]))
    {
      lookup := TableEntry(items, i, lookup);
      i := i + 1;
    }
    assert items[..|items|] == items;
  }

  /** One pass of the Baltic merge over entry `j`: a character available in ROM `v` at a byte with a usable character is assigned that character. */
  method MergeEntry(rom: RomTable, bitems: seq<(string, BalticEntry)>, j: nat, v: Variant, ghost t: Lookup, lookup: Lookup) returns (r: Lookup)
    requires j < |bitems|
    requires lookup == Overwrite(t, MergeCandidates(rom, bitems, v)[..j])
    ensures r == Overwrite(t, MergeCandidates(rom, bitems, v)[..j + 1])
  {
    ghost var cs := MergeCandidates(rom, bitems, v);
    assert cs[..j + 1] == cs[..j] + [cs[j]];
    OverwriteSnoc(t, cs[..j], cs[j]);
    MergeCandidatesAt(rom, bitems, v, j);
    var ch := bitems[j].0;
    var info := bitems[j].1;
    r := lookup;
    var romInfo := info.roms.Get(v);
    if romInfo.Some? && romInfo.value.available && Truthy(romInfo.value.byteCode) {
      var asciiVal := AsciiValueAtByte(rom, romInfo.value.byteCode.value);
      if Truthy(asciiVal) {
        r := lookup[ch := asciiVal.value];
      }
    }
  }

  /** The second loop of `buildReverseLookup`: Baltic entries in file order, each usable one assigned over what is there. */
  method BalticMergeLoop(rom: RomTable, bitems: seq<(string, BalticEntry)>, v: Variant, t: Lookup) returns (lookup: Lookup)
    ensures lookup == Overwrite(t, MergeCandidates(rom, bitems, v))
  {
    ghost var cs := MergeCandidates(rom, bitems, v);
    lookup := t;
    var j := 0;
    assert cs[..0] == [];
    while j < |bitems|
      invariant 0 <= j <= |bitems|
      invariant lookup == Overwrite(t, cs[..j])
    {
      lookup := MergeEntry(rom, bitems, j, v, t, lookup);
      j := j + 1;
    }
    assert cs[..|bitems|] == cs;
  }

  class Convertor {
    var romData: PerVariant<Option<RomTable>>
    var balticCharMap: Option<BalticMap>
    var reverseLookups: PerVariant<Option<Lookup>>
    var customMappings: PerVariant<map<string, string>>
    var conversionResult: seq<Entry>
    var currentRom: Variant
    var fileName: Option<string>
    var modalCharIndex: int
    var modalSelectedReplacement: Option<string>

    /** A fresh page: nothing loaded, ROM A, no dialog open, the stored custom mappings read in. */
    constructor (stored: Option<StoredMappings>)
      ensures romData == PerVariant(None, None, None) && balticCharMap.None?
      ensures reverseLookups == PerVariant(None, None, None)
      ensures customMappings == if stored.Some? then Loaded(PerVariant(map[], map[], map[]), stored.value)
                                else PerVariant(map[], map[], map[])
      ensures conversionResult == [] && currentRom == A && fileName.None?
      ensures modalCharIndex == -1 && modalSelectedReplacement.None?
    {
      romData := PerVariant(None, None, None);
      balticCharMap := None;
      reverseLookups := PerVariant(None, None, None);
      customMappings := PerVariant(map[], map[], map[]);
      conversionResult := [];
      currentRom := A;
      fileName := None;
      modalCharIndex := -1;
      modalSelectedReplacement := None;
      new;
      LoadCustomMappings(stored);
    }

    /** `loadCustomMappings`, given what storage held (`None` when nothing was stored or it did not parse). */
    method LoadCustomMappings(stored: Option<StoredMappings>)
      modifies this
      ensures customMappings == if stored.Some? then Loaded(old(customMappings), stored.value) else old(customMappings)
      ensures romData == old(romData) && balticCharMap == old(balticCharMap) && reverseLookups == old(reverseLookups)
      ensures conversionResult == old(conversionResult) && currentRom == old(currentRom) && fileName == old(fileName)
      ensures modalCharIndex == old(modalCharIndex) && modalSelectedReplacement == old(modalSelectedReplacement)
    {
      if stored.Some? {
        customMappings := Loaded(customMappings, stored.value);
      }
    }

    /** `init` once the four data files have arrived: store them and build the three lookups. */
    method LoadData(a: RomTable, b: RomTable, c: RomTable, baltic: BalticMap)
      modifies this
      ensures romData == PerVariant(Some(a), Some(b), Some(c)) && balticCharMap == Some(baltic)
      ensures reverseLookups == PerVariant(Some(ReverseLookup(a, Some(baltic), A)), Some(ReverseLookup(b, Some(baltic), B)),
                                           Some(ReverseLookup(c, Some(baltic), C)))
      ensures customMappings == old(customMappings) && conversionResult == old(conversionResult)
      ensures currentRom == old(currentRom) && fileName == old(fileName)
      ensures modalCharIndex == old(modalCharIndex) && modalSelectedReplacement == old(modalSelectedReplacement)
    {
      romData := PerVariant(Some(a), Some(b), Some(c));
      balticCharMap := Some(baltic);
      BuildReverseLookup(A);
      BuildReverseLookup(B);
      BuildReverseLookup(C);
    }

    /** `buildReverseLookup`: the table pass (first record wins), then the Baltic merge (always overwrites). */
    method BuildReverseLookup(v: Variant)
      requires romData.Get(v).Some?
      modifies this
      ensures romData == old(romData) && balticCharMap == old(balticCharMap) && customMappings == old(customMappings)
      ensures conversionResult == old(conversionResult) && currentRom == old(currentRom) && fileName == old(fileName)
      ensures modalCharIndex == old(modalCharIndex) && modalSelectedReplacement == old(modalSelectedReplacement)
      ensures reverseLookups == old(reverseLookups).With(v, Some(ReverseLookup(romData.Get(v).value, balticCharMap, v)))
    {
      var rom := romData.Get(v).value;
      var lookup := TablePassLoop(rom);
      if balticCharMap.Some? {
        lookup := BalticMergeLoop(rom, Items(balticCharMap.value), v, lookup);
      }
      reverseLookups := reverseLookups.With(v, Some(lookup));
    }

    /** `convertText`: one entry per code point, in input order, each resolved by the rules of `Resolve`. */
    method ConvertText(text: string, v: Variant, mode: Mode) returns (result: seq<Entry>)
      requires reverseLookups.Get(v).Some?
      ensures |result| == |text|
      ensures forall i :: 0 <= i < |text| ==>
        result[i] == Resolve(text[i], reverseLookups.Get(v).value, customMappings.Get(v), balticCharMap, v, mode)
    {
      var lookup := reverseLookups.Get(v).value;
      var custom := customMappings.Get(v);
      result := [];
      var i := 0;
      while i < |text|
        invariant 0 <= i <= |text|
        invariant |result| == i
        invariant forall k :: 0 <= k < i ==> result[k] == Resolve(text[k], lookup, custom, balticCharMap, v, mode)
      {
        var c := text[i];
        var key := [c];
        var entry: Entry;
        if c == '\n' || c == '\r' || c == '\t' {
          entry := Entry(c, Some(key), Passthrough, []);
        } else if key in lookup {
          entry := Entry(c, Some(lookup[key]), Mapped, []);
        } else if key in custom && custom[key] != "" {
          entry := Entry(c, Some(custom[key]), Custom, []);
        } else {
          var alts: seq<Alternative> := [];
          var fbs := ListedFallbacks(key, balticCharMap, v);
          var j := 0;
          while j < |fbs|
            invariant 0 <= j <= |fbs|
            invariant alts == FallbackAlternatives(fbs[..j], lookup)
          {
            assert fbs[..j + 1][..j] == fbs[..j];
            if fbs[j] in lookup {
              alts := alts + [Alternative(fbs[j], lookup[fbs[j]])];
            }
            j := j + 1;
          }
          assert fbs[..|fbs|] == fbs;
          if mode == Auto && |alts| > 0 {
            entry := Entry(c, Some(alts[0].replacementChar), AutoFallback, alts);
          } else if mode == Replace {
            entry := Entry(c, Some("?"), Mapped, alts);
          } else {
            entry := Entry(c, None, Unmapped, alts);
          }
        }
        result := result + [entry];
        i := i + 1;
      }
    }

    /** `renderPreview`'s state change: with non-empty text, the chosen ROM becomes current and the text is converted. */
    method RenderPreview(text: string, v: Variant, mode: Mode)
      requires reverseLookups.Get(v).Some?
      modifies this
      ensures romData == old(romData) && balticCharMap == old(balticCharMap) && reverseLookups == old(reverseLookups)
      ensures customMappings == old(customMappings) && fileName == old(fileName)
      ensures modalCharIndex == old(modalCharIndex) && modalSelectedReplacement == old(modalSelectedReplacement)
      ensures text == [] ==> conversionResult == old(conversionResult) && currentRom == old(currentRom)
      ensures text != [] ==> currentRom == v && |conversionResult| == |text|
      ensures text != [] ==> forall i :: 0 <= i < |text| ==>
        conversionResult[i] == Resolve(text[i], reverseLookups.Get(v).value, customMappings.Get(v), balticCharMap, v, mode)
    {
      if text != [] {
        currentRom := v;
        conversionResult := ConvertText(text, v, mode);
      }
    }

    /**
     * `renderUnmappedList`'s grouping of the entries still `unmapped` or
     * `auto-fallback`, by input character in order of first appearance.
     */
    method GroupUnmapped() returns (groups: seq<Group>)
      ensures groups == GroupsUpTo(conversionResult, |conversionResult|)
      ensures Grouping(conversionResult, groups, |conversionResult|)
    {
      var res := conversionResult;
      groups := [];
      var i := 0;
      while i < |res|
        invariant 0 <= i <= |res|
        invariant groups == GroupsUpTo(res, i)
      {
        var e := res[i];
        if Listed(e) {
          var k := GroupIndex(groups, e.inputChar);
          if k == |groups| {
            groups := groups + [Group(e.inputChar, e, [i])];
          } else {
            var g := groups[k];
            groups := groups[k := Group(g.ch, g.entry, g.indices + [i])];
          }
        }
        i := i + 1;
      }
      GroupsUpToSpec(res, |res|);
    }

    /** The dialog opens on entry `idx`, with nothing selected yet. */
    method OpenCharacterModal(idx: int)
      modifies this
      ensures modalCharIndex == idx && modalSelectedReplacement.None?
      ensures romData == old(romData) && balticCharMap == old(balticCharMap) && reverseLookups == old(reverseLookups)
      ensures customMappings == old(customMappings) && conversionResult == old(conversionResult)
      ensures currentRom == old(currentRom) && fileName == old(fileName)
    {
      modalCharIndex := idx;
      modalSelectedReplacement := None;
    }

    /** A suggestion, a ROM grid cell or the direct input selects a replacement. */
    method SelectModalReplacement(r: string)
      modifies this
      ensures modalSelectedReplacement == Some(r)
      ensures modalCharIndex == old(modalCharIndex)
      ensures romData == old(romData) && balticCharMap == old(balticCharMap) && reverseLookups == old(reverseLookups)
      ensures customMappings == old(customMappings) && conversionResult == old(conversionResult)
      ensures currentRom == old(currentRom) && fileName == old(fileName)
    {
      modalSelectedReplacement := Some(r);
    }

    /**
     * `applyModalMapping`: with a replacement selected and a dialog index
     * that names an entry, and the "save" box ticked, that entry's input
     * character is mapped to the replacement for the current ROM. An index
     * past the end throws before anything changes.
     */
    method ApplyModalMapping(save: bool)
      modifies this
      ensures var applies := save && modalSelectedReplacement.Some? && 0 <= modalCharIndex < |conversionResult|;
        customMappings == if applies
          then old(customMappings).With(currentRom,
                 old(customMappings).Get(currentRom)[[conversionResult[modalCharIndex].inputChar] := modalSelectedReplacement.value])
          else old(customMappings)
      ensures romData == old(romData) && balticCharMap == old(balticCharMap) && reverseLookups == old(reverseLookups)
      ensures conversionResult == old(conversionResult) && currentRom == old(currentRom) && fileName == old(fileName)
      ensures modalCharIndex == old(modalCharIndex) && modalSelectedReplacement == old(modalSelectedReplacement)
    {
      if modalSelectedReplacement.None? || modalCharIndex < 0 {
        return;
      }
      if modalCharIndex >= |conversionResult| {
        return;
      }
      var inputChar := conversionResult[modalCharIndex].inputChar;
      if save {
        customMappings := customMappings.With(currentRom, customMappings.Get(currentRom)[[inputChar] := modalSelectedReplacement.value]);
      }
    }

    /** The dialog's direct input: non-empty text selects `DirectReplacement` and applies it. */
    method ApplyDirect(val: string, save: bool)
      requires reverseLookups.Get(currentRom).Some?
      modifies this
      ensures romData == old(romData) && balticCharMap == old(balticCharMap) && reverseLookups == old(reverseLookups)
      ensures conversionResult == old(conversionResult) && currentRom == old(currentRom) && fileName == old(fileName)
      ensures modalCharIndex == old(modalCharIndex)
      ensures val == [] ==> customMappings == old(customMappings) && modalSelectedReplacement == old(modalSelectedReplacement)
      ensures val != [] ==> modalSelectedReplacement == Some(DirectReplacement(val, reverseLookups.Get(currentRom).value))
      ensures val != [] ==>
        customMappings == if save && 0 <= modalCharIndex < |conversionResult|
        then old(customMappings).With(currentRom, old(customMappings).Get(currentRom)[[conversionResult[modalCharIndex].inputChar] :=
               DirectReplacement(val, reverseLookups.Get(currentRom).value)])
        else old(customMappings)
    {
      if val != [] {
        var lookup := reverseLookups.Get(currentRom).value;
        if val in lookup {
          SelectModalReplacement(lookup[val]);
        } else {
          SelectModalReplacement(val);
        }
        ApplyModalMapping(save);
      }
    }

    /** An alternative's button in the unmapped list: a valid alternative of a listed character becomes its custom mapping. */
    method ChooseAlternative(groups: seq<Group>, ch: char, altIdx: int)
      modifies this
      ensures var k := GroupIndex(groups, ch);
        customMappings == if k < |groups| && 0 <= altIdx < |groups[k].entry.alternatives|
          then old(customMappings).With(currentRom, old(customMappings).Get(currentRom)[[ch] := groups[k].entry.alternatives[altIdx].replacementChar])
          else old(customMappings)
      ensures romData == old(romData) && balticCharMap == old(balticCharMap) && reverseLookups == old(reverseLookups)
      ensures conversionResult == old(conversionResult) && currentRom == old(currentRom) && fileName == old(fileName)
      ensures modalCharIndex == old(modalCharIndex) && modalSelectedReplacement == old(modalSelectedReplacement)
    {
      var k := GroupIndex(groups, ch);
      if k < |groups| {
        var alts := groups[k].entry.alternatives;
        if 0 <= altIdx < |alts| {
          customMappings := customMappings.With(currentRom, customMappings.Get(currentRom)[[ch] := alts[altIdx].replacementChar]);
        }
      }
    }

    /** The delete button of the mappings table: one key of the current ROM goes, everything else stays. */
    method DeleteMapping(ch: string)
      modifies this
      ensures customMappings == old(customMappings).With(currentRom, old(customMappings).Get(currentRom) - {ch})
      ensures romData == old(romData) && balticCharMap == old(balticCharMap) && reverseLookups == old(reverseLookups)
      ensures conversionResult == old(conversionResult) && currentRom == old(currentRom) && fileName == old(fileName)
      ensures modalCharIndex == old(modalCharIndex) && modalSelectedReplacement == old(modalSelectedReplacement)
    {
      customMappings := customMappings.With(currentRom, customMappings.Get(currentRom) - {ch});
    }

    /** "Clear mappings", once confirmed: only the current ROM's mappings are emptied. */
    method ClearMappings(confirmed: bool)
      modifies this
      ensures customMappings == if confirmed then old(customMappings).With(currentRom, map[]) else old(customMappings)
      ensures romData == old(romData) && balticCharMap == old(balticCharMap) && reverseLookups == old(reverseLookups)
      ensures conversionResult == old(conversionResult) && currentRom == old(currentRom) && fileName == old(fileName)
      ensures modalCharIndex == old(modalCharIndex) && modalSelectedReplacement == old(modalSelectedReplacement)
    {
      if confirmed {
        customMappings := customMappings.With(currentRom, map[]);
      }
    }

    /** `importMappings`, given the parsed file (`None` when it did not parse). */
    method ImportMappings(parsed: Option<StoredMappings>)
      modifies this
      ensures customMappings == if parsed.Some? then Imported(old(customMappings), parsed.value) else old(customMappings)
      ensures romData == old(romData) && balticCharMap == old(balticCharMap) && reverseLookups == old(reverseLookups)
      ensures conversionResult == old(conversionResult) && currentRom == old(currentRom) && fileName == old(fileName)
      ensures modalCharIndex == old(modalCharIndex) && modalSelectedReplacement == old(modalSelectedReplacement)
    {
      if parsed.Some? {
        customMappings := Imported(customMappings, parsed.value);
      }
    }

    /** `loadFile`: the dropped or chosen file's name is remembered for the download. */
    method LoadFile(name: string)
      modifies this
      ensures fileName == Some(name)
      ensures romData == old(romData) && balticCharMap == old(balticCharMap) && reverseLookups == old(reverseLookups)
      ensures customMappings == old(customMappings) && conversionResult == old(conversionResult) && currentRom == old(currentRom)
      ensures modalCharIndex == old(modalCharIndex) && modalSelectedReplacement == old(modalSelectedReplacement)
    {
      fileName := Some(name);
    }

    /**
     * `downloadConverted`: nothing without a conversion; otherwise the
     * output text's code units, each written as itself up to 0xFF and as
     * `?` above, under the name `DownloadName` gives.
     */
    method DownloadConverted() returns (made: bool, bytes: array<byte>, name: string)
      ensures made == (|conversionResult| > 0)
      ensures made ==> bytes.Length == |Utf16(OutputText(conversionResult))|
      ensures made ==> forall i :: 0 <= i < bytes.Length ==> bytes[i] == Latin1Byte(Utf16(OutputText(conversionResult))[i])
      ensures made ==> name == DownloadName(fileName, currentRom)
    {
      if |conversionResult| == 0 {
        return false, new byte[0], "";
      }
      var outputStr := OutputText(conversionResult);
      var units := Utf16(outputStr);
      bytes := new byte[|units|];
      var i := 0;
      while i < |units|
        invariant 0 <= i <= |units|
        invariant forall k :: 0 <= k < i ==> bytes[k] == Latin1Byte(units[k])
      {
        bytes[i] := if units[i] <= 0xFF then units[i] as byte else 0x3F;
        i := i + 1;
      }
      made := true;
      name := DownloadName(fileName, currentRom);
    }
  }
}
