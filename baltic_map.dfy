/**
 * The Baltic character map generator: for every special letter of
 * Estonian, Latvian and Lithuanian, whether each ROM has a glyph for it,
 * at which position, and which characters to fall back to when it has not.
 */
module BalticGen {
  import opened Wrappers
  import opened Strings
  import opened Dicts
  import opened UnicodeDb
  import opened TableFolds
  import opened RomTables

  /** A ROM's reverse lookup: character to the `0xHH` code of its first position. */
  type ReverseLookup = ODict<string, string>

  // ---- load_rom_reverse_lookup ------------------------------------------------

  /** A record whose `rom_value` is a real character. */
  predicate Listed(r: RomRecord) {
    r.romValue != UndefinedValue && r.romValue != UnmappedValue
  }

  /** The reverse lookup of the records read so far: the first record with a character keeps it. */
  function ReverseOf(records: seq<RomRecord>): ReverseLookup {
    if records == [] then Empty()
    else
      var prior := ReverseOf(records[..|records| - 1]);
      var r := records[|records| - 1];
      if !Listed(r) || r.romValue in prior.vals then prior else Put(prior, r.romValue, r.hex)
  }

  /** `load_rom_reverse_lookup`, over the records of the JSON file in file order. */
  method LoadRomReverseLookup(records: seq<RomRecord>) returns (lookup: ReverseLookup)
    ensures lookup == ReverseOf(records)
  {
    lookup := Empty();
    var i := 0;
    while i < |records|
      invariant i <= |records|
      invariant lookup == ReverseOf(records[..i])
    {
      assert records[..i + 1][..i] == records[..i];
      var val := records[i].romValue;
      if val != UndefinedValue && val != UnmappedValue && val !in lookup.vals {
        lookup := Put(lookup, val, records[i].hex);
      }
      i := i + 1;
    }
    assert records[..i] == records;
  }

  /** The lookup candidate of one record. */
  function ReverseCandidate(r: RomRecord): Option<(string, string)> {
    if Listed(r) then Some((r.romValue, r.hex)) else None
  }

  function ReverseCandidates(records: seq<RomRecord>): (cs: seq<Option<(string, string)>>)
    ensures |cs| == |records|
  {
    if records == [] then [] else ReverseCandidates(records[..|records| - 1]) + [ReverseCandidate(records[|records| - 1])]
  }

  lemma {:induction false} ReverseCandidatesAt(records: seq<RomRecord>, i: nat)
    requires i < |records|
    ensures ReverseCandidates(records)[i] == ReverseCandidate(records[i])
  {
    if i < |records| - 1 {
      ReverseCandidatesAt(records[..|records| - 1], i);
    }
  }

  lemma {:induction false} ReverseOfFirstWins(records: seq<RomRecord>)
    ensures ReverseOf(records).vals == FirstWins(ReverseCandidates(records))
  {
    if records != [] {
      var cs := ReverseCandidates(records);
      ReverseOfFirstWins(records[..|records| - 1]);
      assert cs[..|cs| - 1] == ReverseCandidates(records[..|records| - 1]);
    }
  }

  /**
   * A character is in a ROM's reverse lookup exactly when some record has
   * it as a real `rom_value`, and it maps to the hex code of the first such
   * record.
   */
  lemma ReverseOfSpec(records: seq<RomRecord>, c: string)
    ensures c in ReverseOf(records).vals <==> exists i :: 0 <= i < |records| && Listed(records[i]) && records[i].romValue == c
    ensures c in ReverseOf(records).vals ==> exists i :: (0 <= i < |records| && Listed(records[i]) && records[i].romValue == c
      && ReverseOf(records).vals[c] == records[i].hex
      && forall j :: 0 <= j < i ==> !(Listed(records[j]) && records[j].romValue == c))
  {
    var cs := ReverseCandidates(records);
    ReverseOfFirstWins(records);
    FirstWinsSpec(cs, c);
    forall i | 0 <= i < |records| ensures HasKeyAt(cs, c, i) <==> Listed(records[i]) && records[i].romValue == c {
      ReverseCandidatesAt(records, i);
    }
    if c in ReverseOf(records).vals {
      var i :| FirstKeyAt(cs, c, i) && FirstWins(cs)[c] == cs[i].value.1;
      ReverseCandidatesAt(records, i);
    }
  }

  // ---- get_base_letter --------------------------------------------------------

  /** The ASCII letter a character decomposes to first, if any. */
  function BaseLetter(db: Db, ch: string): (b: Option<char>)
    ensures b.Some? <==> db.nfd(ch) != [] && IsAsciiLetter(db.nfd(ch)[0])
    ensures b.Some? ==> b.value == db.nfd(ch)[0] && IsAsciiLetter(b.value)
  {
    var d := db.nfd(ch);
    if d != [] && d[0] < '\U{0080}' && IsAsciiLetter(d[0]) then Some(d[0]) else None
  }

  // ---- ordering and sorting ---------------------------------------------------

  /**
   * The two sort orders of the generator: the fallback order (the case of
   * `ch` first, then by code points) and `sorted(..., key=ord)`.
   */
  datatype Order = CaseFirst(db: Db, upper: bool) | CodePoint

  /** The fallback sort key `(c.isupper() != is_upper, c)` as one string: a `0`/`1` flag, then `c`. */
  function CaseKey(db: Db, upper: bool, c: string): string {
    [if db.isUpper(c) != upper then '1' else '0'] + c
  }

  predicate Before(o: Order, x: string, y: string) {
    match o
    case CaseFirst(db, upper) => StrLess(CaseKey(db, upper, x), CaseKey(db, upper, y))
    case CodePoint => StrLess(x, y)
  }

  /** The key order is the tuple order: the flag first, then the string. */
  lemma CaseKeyOrder(db: Db, upper: bool, x: string, y: string)
    ensures Before(CaseFirst(db, upper), x, y) <==>
      (db.isUpper(x) == upper && db.isUpper(y) != upper)
      || ((db.isUpper(x) == upper) == (db.isUpper(y) == upper) && StrLess(x, y))
  {
    var kx := CaseKey(db, upper, x);
    var ky := CaseKey(db, upper, y);
    assert kx[1..] == x && ky[1..] == y;
  }

  lemma BeforeIrreflexive(o: Order, x: string)
    ensures !Before(o, x, x)
  {
    match o
    case CaseFirst(db, upper) => StrLessIrreflexive(CaseKey(db, upper, x));
    case CodePoint => StrLessIrreflexive(x);
  }

  lemma BeforeTotal(o: Order, x: string, y: string)
    ensures x == y || Before(o, x, y) || Before(o, y, x)
  {
    match o
    case CaseFirst(db, upper) =>
      var kx := CaseKey(db, upper, x);
      var ky := CaseKey(db, upper, y);
      assert kx[1..] == x && ky[1..] == y;
      StrLessTotal(kx, ky);
    case CodePoint => StrLessTotal(x, y);
  }

  lemma BeforeTransitive(o: Order, x: string, y: string, z: string)
    requires Before(o, x, y) && Before(o, y, z)
    ensures Before(o, x, z)
  {
    match o
    case CaseFirst(db, upper) => StrLessTransitive(CaseKey(db, upper, x), CaseKey(db, upper, y), CaseKey(db, upper, z));
    case CodePoint => StrLessTransitive(x, y, z);
  }

  lemma BeforeAsymmetric(o: Order, x: string, y: string)
    requires Before(o, x, y)
    ensures !Before(o, y, x)
  {
    match o
    case CaseFirst(db, upper) => StrLessAsymmetric(CaseKey(db, upper, x), CaseKey(db, upper, y));
    case CodePoint => StrLessAsymmetric(x, y);
  }

  /** No element comes before an earlier one. */
  predicate SortedBy(o: Order, s: seq<string>) {
    forall i, j :: 0 <= i < j < |s| ==> !Before(o, s[j], s[i])
  }

  function Insert(o: Order, x: string, s: seq<string>): seq<string> {
    if s == [] || !Before(o, s[0], x) then [x] + s else [s[0]] + Insert(o, x, s[1..])
  }

  /** Python's `list.sort` / `sorted` for these orders, as an insertion sort. */
  function SortBy(o: Order, s: seq<string>): seq<string> {
    if s == [] then [] else Insert(o, s[0], SortBy(o, s[1..]))
  }

  lemma {:induction false} InsertSpec(o: Order, x: string, s: seq<string>)
    requires SortedBy(o, s)
    ensures SortedBy(o, Insert(o, x, s))
    ensures multiset(Insert(o, x, s)) == multiset(s) + multiset{x}
  {
    if s == [] {
    } else if !Before(o, s[0], x) {
      InsertFront(o, x, s);
      assert s == [s[0]] + s[1..];
    } else {
      InsertSpec(o, x, s[1..]);
      InsertBehind(o, x, s);
      assert s == [s[0]] + s[1..];
    }
  }

  lemma InsertFront(o: Order, x: string, s: seq<string>)
    requires SortedBy(o, s) && s != [] && !Before(o, s[0], x)
    ensures SortedBy(o, [x] + s)
  {
    var r := [x] + s;
    forall j | 0 < j < |r| ensures !Before(o, r[j], x) {
      if Before(o, r[j], x) && j > 1 {
        BeforeTotal(o, s[0], r[j]);
        if Before(o, s[0], r[j]) {
          BeforeTransitive(o, s[0], r[j], x);
        }
      }
    }
  }

  lemma InsertBehind(o: Order, x: string, s: seq<string>)
    requires SortedBy(o, s) && s != [] && Before(o, s[0], x)
    requires SortedBy(o, Insert(o, x, s[1..])) && multiset(Insert(o, x, s[1..])) == multiset(s[1..]) + multiset{x}
    ensures SortedBy(o, [s[0]] + Insert(o, x, s[1..]))
  {
    var t := Insert(o, x, s[1..]);
    var r := [s[0]] + t;
    forall j | 0 < j < |r| ensures !Before(o, r[j], s[0]) {
      assert r[j] == t[j - 1];
      assert r[j] in multiset(t);
      if r[j] == x {
        BeforeAsymmetric(o, s[0], x);
      } else {
        assert r[j] in multiset(s[1..]);
        var k :| 0 <= k < |s[1..]| && s[1..][k] == r[j];
        assert s[k + 1] == r[j];
      }
    }
  }

  /** The sort gives a sorted permutation of its input. */
  lemma {:induction false} SortBySpec(o: Order, s: seq<string>)
    ensures SortedBy(o, SortBy(o, s))
    ensures multiset(SortBy(o, s)) == multiset(s)
  {
    if s != [] {
      SortBySpec(o, s[1..]);
      InsertSpec(o, s[0], SortBy(o, s[1..]));
      assert s == [s[0]] + s[1..];
    }
  }

  // ---- compute_fallbacks ------------------------------------------------------

  /** A lookup character that may stand in for `ch`: another character on the same base letter, in either case. */
  predicate SharesBase(db: Db, ch: string, base: char, c: string) {
    c != ch && BaseLetter(db, c).Some? && AsciiLower(BaseLetter(db, c).value) == AsciiLower(base)
  }

  /** The stand-ins among `keys`, in their order. */
  function Candidates(db: Db, ch: string, base: char, keys: seq<string>): seq<string> {
    if keys == [] then []
    else
      var prior := Candidates(db, ch, base, keys[..|keys| - 1]);
      var c := keys[|keys| - 1];
      if SharesBase(db, ch, base, c) then prior + [c] else prior
  }

  lemma {:induction false} CandidatesSpec(db: Db, ch: string, base: char, keys: seq<string>)
    ensures forall c :: c in Candidates(db, ch, base, keys) <==> c in keys && SharesBase(db, ch, base, c)
    ensures NoDup(keys) ==> NoDup(Candidates(db, ch, base, keys))
  {
    if keys != [] {
      var init := keys[..|keys| - 1];
      CandidatesSpec(db, ch, base, init);
      assert keys == init + [keys[|keys| - 1]];
      if NoDup(keys) {
        assert NoDup(init);
        assert keys[|keys| - 1] !in init;
        NoDupConcat(Candidates(db, ch, base, init), [keys[|keys| - 1]]);
      }
    }
  }

  /** The fallbacks of `ch` in a ROM whose lookup has the characters `keys`. */
  function Fallbacks(db: Db, ch: string, keys: seq<string>): seq<string> {
    var base := BaseLetter(db, ch);
    if base.None? then []
    else
      var sorted := SortBy(CaseFirst(db, db.isUpper(ch)), Candidates(db, ch, base.value, keys));
      if [base.value] in sorted then sorted else sorted + [[base.value]]
  }

  /** `compute_fallbacks`. */
  method ComputeFallbacks(db: Db, ch: string, romLookup: ReverseLookup) returns (fallbacks: seq<string>)
    ensures fallbacks == Fallbacks(db, ch, romLookup.keys)
  {
    var base := BaseLetter(db, ch);
    if base.None? {
      return [];
    }
    var keys := romLookup.keys;
    fallbacks := [];
    var i := 0;
    while i < |keys|
      invariant i <= |keys|
      invariant fallbacks == Candidates(db, ch, base.value, keys[..i])
    {
      assert keys[..i + 1][..i] == keys[..i];
      var romChar := keys[i];
      if romChar != ch {
        var romBase := BaseLetter(db, romChar);
        if romBase.Some? && AsciiLower(romBase.value) == AsciiLower(base.value) {
          fallbacks := fallbacks + [romChar];
        }
      }
      i := i + 1;
    }
    assert keys[..i] == keys;
    var isUpper := db.isUpper(ch);
    fallbacks := SortBy(CaseFirst(db, isUpper), fallbacks);
    if [base.value] !in fallbacks {
      fallbacks := fallbacks + [[base.value]];
    }
  }

  /**
   * Without an ASCII base letter there are no fallbacks. Otherwise the
   * fallbacks are the ROM's other characters on the same base letter (in
   * either case), sorted with the case of `ch` first and then by code point,
   * with the bare base letter added last if it is not already among them;
   * no fallback appears twice.
   */
  lemma FallbacksSpec(db: Db, ch: string, keys: seq<string>)
    requires NoDup(keys)
    ensures BaseLetter(db, ch).None? ==> Fallbacks(db, ch, keys) == []
    ensures BaseLetter(db, ch).Some? ==>
      var base := BaseLetter(db, ch).value;
      var fb := Fallbacks(db, ch, keys);
      var n := |Candidates(db, ch, base, keys)|;
      NoDup(fb) && [base] in fb
      && (forall c :: c in fb <==> (c in keys && SharesBase(db, ch, base, c)) || c == [base])
      && n <= |fb| <= n + 1 && (|fb| == n + 1 ==> fb[n] == [base])
      && SortedBy(CaseFirst(db, db.isUpper(ch)), fb[..n])
      && multiset(fb[..n]) == multiset(Candidates(db, ch, base, keys))
  {
    var b := BaseLetter(db, ch);
    if b.Some? {
      var base := b.value;
      var cands := Candidates(db, ch, base, keys);
      var o := CaseFirst(db, db.isUpper(ch));
      var sorted := SortBy(o, cands);
      CandidatesSpec(db, ch, base, keys);
      SortBySpec(o, cands);
      NoDupMultiset(cands, sorted);
      assert |sorted| == |multiset(sorted)| == |multiset(cands)| == |cands|;
      forall c ensures c in sorted <==> c in cands {
        assert c in sorted <==> c in multiset(sorted);
        assert c in cands <==> c in multiset(cands);
      }
      var fb := Fallbacks(db, ch, keys);
      if [base] !in sorted {
        NoDupConcat(sorted, [[base]]);
        assert fb[..|cands|] == sorted;
      } else {
        assert fb[..|cands|] == sorted;
      }
    }
  }

  // ---- the Baltic letters and their languages --------------------------------

  /** `BALTIC_CHARS`: each language with its special letters. */
  const BalticLanguages: seq<(string, string)> := [
    ("Estonian", "\U{00C4}\U{00E4}\U{00D6}\U{00F6}\U{00DC}\U{00FC}\U{00D5}\U{00F5}\U{0160}\U{0161}\U{017D}\U{017E}"),
    ("Latvian", "\U{0100}\U{0101}\U{010C}\U{010D}\U{0112}\U{0113}\U{0122}\U{0123}\U{012A}\U{012B}\U{0136}\U{0137}"
      + "\U{013B}\U{013C}\U{0145}\U{0146}\U{0160}\U{0161}\U{016A}\U{016B}\U{017D}\U{017E}"),
    ("Lithuanian", "\U{0104}\U{0105}\U{010C}\U{010D}\U{0118}\U{0119}\U{0116}\U{0117}\U{012E}\U{012F}\U{0160}\U{0161}"
      + "\U{0172}\U{0173}\U{016A}\U{016B}\U{017D}\U{017E}")]

  /** Each letter with the languages that use it, in first-seen order. */
  type LangMap = ODict<string, seq<string>>

  /** One step of the collection loop: `setdefault`, then append the language if new. */
  function AddLang(d: LangMap, ch: string, lang: string): LangMap {
    if ch in d.vals && lang in d.vals[ch] then d
    else Put(d, ch, (if ch in d.vals then d.vals[ch] else []) + [lang])
  }

  /** The collection after the first letters of one language. */
  function AddLanguage(d: LangMap, lang: string, chars: string): LangMap {
    if chars == [] then d
    else AddLang(AddLanguage(d, lang, chars[..|chars| - 1]), [chars[|chars| - 1]], lang)
  }

  /** `all_chars` after the first languages. */
  function AllChars(langs: seq<(string, string)>): LangMap {
    if langs == [] then Empty()
    else AddLanguage(AllChars(langs[..|langs| - 1]), langs[|langs| - 1].0, langs[|langs| - 1].1)
  }

  /** The collection loop over `BALTIC_CHARS`. */
  method CollectBalticChars(langs: seq<(string, string)>) returns (allChars: LangMap)
    ensures allChars == AllChars(langs)
  {
    allChars := Empty();
    var i := 0;
    while i < |langs|
      invariant i <= |langs|
      invariant allChars == AllChars(langs[..i])
    {
      assert langs[..i + 1][..i] == langs[..i];
      allChars := CollectLanguage(allChars, langs[i].0, langs[i].1);
      i := i + 1;
    }
    assert langs[..i] == langs;
  }

  method CollectLanguage(d: LangMap, lang: string, chars: string) returns (allChars: LangMap)
    ensures allChars == AddLanguage(d, lang, chars)
  {
    allChars := d;
    var j := 0;
    while j < |chars|
      invariant j <= |chars|
      invariant allChars == AddLanguage(d, lang, chars[..j])
    {
      assert chars[..j + 1][..j] == chars[..j];
      var ch := [chars[j]];
      if ch !in allChars.vals || lang !in allChars.vals[ch] {
        var langsOf := if ch in allChars.vals then allChars.vals[ch] else [];
        allChars := Put(allChars, ch, langsOf + [lang]);
      }
      j := j + 1;
    }
    assert chars[..j] == chars;
  }

  /** Every key is one letter and no letter lists a language twice. */
  predicate WellFormed(d: LangMap) {
    (forall k | k in d.vals :: |k| == 1) && (forall k | k in d.vals :: NoDup(d.vals[k]))
  }

  lemma AddLangSpec(d: LangMap, c: string, lang: string, ch: string, l: string)
    requires WellFormed(d) && |c| == 1
    ensures WellFormed(AddLang(d, c, lang))
    ensures ch in AddLang(d, c, lang).vals <==> ch in d.vals || ch == c
    ensures ch in AddLang(d, c, lang).vals ==>
      (l in AddLang(d, c, lang).vals[ch] <==> (ch in d.vals && l in d.vals[ch]) || (l == lang && ch == c))
  {
    if !(c in d.vals && lang in d.vals[c]) {
      var before := if c in d.vals then d.vals[c] else [];
      NoDupConcat(before, [lang]);
    }
  }

  lemma {:induction false} AddLanguageWellFormed(d: LangMap, lang: string, chars: string)
    requires WellFormed(d)
    ensures WellFormed(AddLanguage(d, lang, chars))
  {
    if chars != [] {
      var init := chars[..|chars| - 1];
      AddLanguageWellFormed(d, lang, init);
      AddLangSpec(AddLanguage(d, lang, init), [chars[|chars| - 1]], lang, [], "");
    }
  }

  lemma {:induction false} AddLanguageSpec(d: LangMap, lang: string, chars: string, ch: string, l: string)
    requires WellFormed(d)
    ensures ch in AddLanguage(d, lang, chars).vals <==> ch in d.vals || (|ch| == 1 && ch[0] in chars)
    ensures ch in AddLanguage(d, lang, chars).vals ==>
      (l in AddLanguage(d, lang, chars).vals[ch] <==> (ch in d.vals && l in d.vals[ch]) || (l == lang && |ch| == 1 && ch[0] in chars))
  {
    if chars != [] {
      var init := chars[..|chars| - 1];
      var c := [chars[|chars| - 1]];
      AddLanguageSpec(d, lang, init, ch, l);
      AddLanguageWellFormed(d, lang, init);
      AddLangSpec(AddLanguage(d, lang, init), c, lang, ch, l);
      assert chars == init + [chars[|chars| - 1]];
      assert ch == c <==> |ch| == 1 && ch[0] == chars[|chars| - 1];
    }
  }

  /**
   * The collected letters are exactly the letters of the languages, each a
   * single character, and each lists exactly the languages that use it,
   * with none twice.
   */
  lemma {:induction false} AllCharsSpec(langs: seq<(string, string)>, ch: string, l: string)
    ensures WellFormed(AllChars(langs))
    ensures ch in AllChars(langs).vals <==> |ch| == 1 && exists i :: 0 <= i < |langs| && ch[0] in langs[i].1
    ensures ch in AllChars(langs).vals ==>
      (l in AllChars(langs).vals[ch] <==> exists i :: 0 <= i < |langs| && langs[i].0 == l && ch[0] in langs[i].1)
  {
    if langs != [] {
      var init := langs[..|langs| - 1];
      var last := langs[|langs| - 1];
      AllCharsSpec(init, ch, l);
      AddLanguageWellFormed(AllChars(init), last.0, last.1);
      AddLanguageSpec(AllChars(init), last.0, last.1, ch, l);
      assert forall i :: 0 <= i < |init| ==> init[i] == langs[i];
    }
  }

  // ---- character entries ------------------------------------------------------

  /** A ROM's record for `ch`: its position if the ROM has it, else the computed fallbacks. */
  function Availability(db: Db, ch: string, lookup: ReverseLookup): RomAvailability {
    if ch in lookup.vals then RomAvailability(true, Some(lookup.vals[ch]), [])
    else RomAvailability(false, None, Fallbacks(db, ch, lookup.keys))
  }

  /** A ROM whose JSON file is missing has an empty lookup. */
  function LookupFor(lookups: PerVariant<Option<ReverseLookup>>, v: Variant): ReverseLookup {
    if lookups.Get(v).Some? then lookups.Get(v).value else Empty()
  }

  /** The `U+XXXX` label of a one-letter string. */
  function UnicodeLabel(ch: string): string
    requires |ch| == 1
  {
    "U+" + HexUpper(ch[0] as nat, 4)
  }

  function EntryFor(db: Db, ch: string, langs: seq<string>, lookups: PerVariant<Option<ReverseLookup>>): BalticEntry
    requires |ch| == 1
  {
    BalticEntry(UnicodeLabel(ch), langs, PerVariant(
      Some(Availability(db, ch, LookupFor(lookups, A))),
      Some(Availability(db, ch, LookupFor(lookups, B))),
      Some(Availability(db, ch, LookupFor(lookups, C)))))
  }

  /** The `characters` object after the letters `ks` (in that order). */
  function Characters(db: Db, allChars: LangMap, lookups: PerVariant<Option<ReverseLookup>>, ks: seq<string>): BalticMap
    requires Collected(allChars, ks)
  {
    if ks == [] then Empty()
    else
      var ch := ks[|ks| - 1];
      Put(Characters(db, allChars, lookups, ks[..|ks| - 1]), ch, EntryFor(db, ch, allChars.vals[ch], lookups))
  }

  /** The letters in code point order. */
  function SortedLetters(allChars: LangMap): seq<string> {
    SortBy(CodePoint, allChars.keys)
  }

  lemma SortedLettersSpec(allChars: LangMap)
    ensures SortedBy(CodePoint, SortedLetters(allChars))
    ensures multiset(SortedLetters(allChars)) == multiset(allChars.keys)
    ensures NoDup(SortedLetters(allChars))
    ensures forall i :: 0 <= i < |SortedLetters(allChars)| ==> SortedLetters(allChars)[i] in allChars.vals
  {
    var ks := SortedLetters(allChars);
    SortBySpec(CodePoint, allChars.keys);
    NoDupMultiset(allChars.keys, ks);
    forall i | 0 <= i < |ks| ensures ks[i] in allChars.vals {
      assert ks[i] in multiset(ks);
      assert ks[i] in allChars.keys;
    }
  }

  /** The entry-building loop of `main`, over the letters sorted by code point. */
  method BuildCharacters(db: Db, allChars: LangMap, lookups: PerVariant<Option<ReverseLookup>>) returns (characters: BalticMap)
    requires WellFormed(allChars)
    ensures Collected(allChars, SortedLetters(allChars))
    ensures characters == Characters(db, allChars, lookups, SortedLetters(allChars))
  {
    var ks := SortedLetters(allChars);
    SortedLettersSpec(allChars);
    characters := Empty();
    var i := 0;
    while i < |ks|
      invariant i <= |ks|
      invariant characters == Characters(db, allChars, lookups, ks[..i])
    {
      characters := AddCharacter(db, allChars, lookups, ks, i, characters);
      i := i + 1;
    }
    assert ks[..i] == ks;
  }

  /** One turn of the loop over the sorted letters: letter `i` is added with its entry. */
  method AddCharacter(db: Db, allChars: LangMap, lookups: PerVariant<Option<ReverseLookup>>, ks: seq<string>, i: nat,
                      characters: BalticMap) returns (r: BalticMap)
    requires Collected(allChars, ks) && i < |ks|
    requires characters == Characters(db, allChars, lookups, ks[..i])
    ensures r == Characters(db, allChars, lookups, ks[..i + 1])
  {
    var pre := ks[..i + 1];
    assert pre[..|pre| - 1] == ks[..i] && pre[|pre| - 1] == ks[i];
    var ch := ks[i];
    r := Put(characters, ch, EntryFor(db, ch, allChars.vals[ch], lookups));
  }

  lemma {:induction false} CharactersSpec(db: Db, allChars: LangMap, lookups: PerVariant<Option<ReverseLookup>>, ks: seq<string>, ch: string)
    requires Collected(allChars, ks)
    requires NoDup(ks)
    ensures Characters(db, allChars, lookups, ks).keys == ks
    ensures ch in ks ==> Characters(db, allChars, lookups, ks).vals[ch] == EntryFor(db, ch, allChars.vals[ch], lookups)
  {
    if ks != [] {
      var init := ks[..|ks| - 1];
      assert ks == init + [ks[|ks| - 1]];
      CharactersSpec(db, allChars, lookups, init, ch);
    }
  }

  /**
   * The characters are the collected letters in code point order; for each
   * ROM a letter is available exactly when the ROM's lookup has it, and
   * then carries its position and no fallbacks, and otherwise carries no
   * position and the computed fallbacks.
   */
  lemma EntriesSpec(db: Db, allChars: LangMap, lookups: PerVariant<Option<ReverseLookup>>, ch: string, v: Variant)
    requires WellFormed(allChars)
    ensures var ks := SortedLetters(allChars);
      Collected(allChars, ks)
      && var characters := Characters(db, allChars, lookups, ks);
      characters.keys == ks && SortedBy(CodePoint, ks) && multiset(ks) == multiset(allChars.keys)
      && (ch in characters.vals ==>
        var lookup := LookupFor(lookups, v);
        var e := characters.vals[ch];
        e.roms.Get(v).Some? && e.languages == allChars.vals[ch]
        && (e.roms.Get(v).value.available <==> ch in lookup.vals)
        && (ch in lookup.vals ==> e.roms.Get(v).value.byteCode == Some(lookup.vals[ch]) && e.roms.Get(v).value.fallbacks == [])
        && (ch !in lookup.vals ==> e.roms.Get(v).value.byteCode == None && e.roms.Get(v).value.fallbacks == Fallbacks(db, ch, lookup.keys)))
  {
    var ks := SortedLetters(allChars);
    SortedLettersSpec(allChars);
    CharactersSpec(db, allChars, lookups, ks, ch);
  }

  // ---- summary ----------------------------------------------------------------

  predicate AvailableIn(e: BalticEntry, v: Variant) {
    e.roms.Get(v).Some? && e.roms.Get(v).value.available
  }

  /** How many of the entries a ROM has. */
  function AvailableCount(entries: seq<BalticEntry>, v: Variant): (n: nat)
    ensures n <= |entries|
  {
    if entries == [] then 0
    else AvailableCount(entries[..|entries| - 1], v) + (if AvailableIn(entries[|entries| - 1], v) then 1 else 0)
  }

  datatype RomCoverage = RomCoverage(available: nat, missing: nat)

  datatype Summary = Summary(total: nat, coverage: PerVariant<RomCoverage>, bestRom: Variant)

  function CoverageOf(entries: seq<BalticEntry>, v: Variant): RomCoverage {
    RomCoverage(AvailableCount(entries, v), |entries| - AvailableCount(entries, v))
  }

  /** `max(coverage, key=coverage.get)` over A, B, C: the first ROM with the largest coverage. */
  function BestRom(a: nat, b: nat, c: nat): Variant {
    if a >= b && a >= c then A else if b >= c then B else C
  }

  /** The values of the `characters` object in order. */
  function Entries(characters: BalticMap): seq<BalticEntry> {
    seq(|characters.keys|, i requires 0 <= i < |characters.keys| => ItemAt(characters, i).1)
  }

  function SummaryOf(characters: BalticMap): Summary {
    var es := Entries(characters);
    var cov := PerVariant(CoverageOf(es, A), CoverageOf(es, B), CoverageOf(es, C));
    Summary(|es|, cov, BestRom(cov.a.available, cov.b.available, cov.c.available))
  }

  /**
   * For every ROM the available and missing counts add up to the number of
   * Baltic letters, and the best ROM has the largest coverage, ahead of every
   * ROM listed before it.
   */
  lemma SummarySpec(characters: BalticMap, v: Variant)
    ensures var s := SummaryOf(characters);
      s.total == |characters.keys|
      && s.coverage.Get(v).available + s.coverage.Get(v).missing == s.total
      && s.coverage.Get(v).available == |set i | 0 <= i < |characters.keys| && AvailableIn(Entries(characters)[i], v)|
      && s.coverage.Get(v).available <= s.coverage.Get(s.bestRom).available
      && forall i :: 0 <= i < |Variants| && Variants[i] == s.bestRom ==>
        forall j :: 0 <= j < i ==> s.coverage.Get(Variants[j]).available < s.coverage.Get(s.bestRom).available
  {
    AvailableCountSet(Entries(characters), v);
  }

  /** The count is the number of entries available in the ROM. */
  lemma {:induction false} AvailableCountSet(entries: seq<BalticEntry>, v: Variant)
    ensures AvailableCount(entries, v) == |AvailableSet(entries, v)|
  {
    if entries != [] {
      var n := |entries| - 1;
      AvailableCountSet(entries[..n], v);
      AvailableSetSnoc(entries, v);
      assert n !in AvailableSet(entries[..n], v);
    }
  }

  /** The positions of the entries a ROM has. */
  function AvailableSet(entries: seq<BalticEntry>, v: Variant): set<int> {
    set i | 0 <= i < |entries| && AvailableIn(entries[i], v)
  }

  lemma AvailableSetSnoc(entries: seq<BalticEntry>, v: Variant)
    requires entries != []
    ensures var n := |entries| - 1;
      AvailableSet(entries, v) == AvailableSet(entries[..n], v) + (if AvailableIn(entries[n], v) then {n} else {})
  {
    var n := |entries| - 1;
    var before := AvailableSet(entries[..n], v);
    var after := AvailableSet(entries, v);
    forall i ensures i in after <==> i in before || (i == n && AvailableIn(entries[n], v)) {
      if 0 <= i < n {
        assert entries[..n][i] == entries[i];
      }
    }
  }

  // ---- CSV output -------------------------------------------------------------

  /** The values in first-seen order, each once. */
  function Dedupe<T(==)>(xs: seq<T>): seq<T> {
    if xs == [] then []
    else
      var prior := Dedupe(xs[..|xs| - 1]);
      if xs[|xs| - 1] in prior then prior else prior + [xs[|xs| - 1]]
  }

  /** The index of the first `x` in `xs`. */
  function FirstIndex<T(==)>(xs: seq<T>, x: T): (k: nat)
    requires x in xs
    ensures k < |xs| && xs[k] == x && forall j :: 0 <= j < k ==> xs[j] != x
  {
    if xs[0] == x then 0 else 1 + FirstIndex(xs[1..], x)
  }

  lemma {:induction false} FirstIndexPrefix<T>(p: seq<T>, q: seq<T>, x: T)
    requires x in p
    ensures FirstIndex(p + q, x) == FirstIndex(p, x)
  {
    var k := FirstIndex(p, x);
    var m := FirstIndex(p + q, x);
    assert (p + q)[k] == x;
    assert forall j :: 0 <= j < k ==> (p + q)[j] == p[j];
  }

  lemma DedupeSnoc<T>(p: seq<T>, x: T)
    ensures Dedupe(p + [x]) == if x in Dedupe(p) then Dedupe(p) else Dedupe(p) + [x]
  {
    assert (p + [x])[..|p|] == p;
  }

  lemma {:induction false} DedupeMembers<T>(xs: seq<T>)
    ensures NoDup(Dedupe(xs))
    ensures forall x :: x in Dedupe(xs) <==> x in xs
  {
    if xs != [] {
      var n := |xs| - 1;
      var init := xs[..n];
      DedupeMembers(init);
      assert xs == init + [xs[n]];
      DedupeSnoc(init, xs[n]);
      if xs[n] !in Dedupe(init) {
        NoDupConcat(Dedupe(init), [xs[n]]);
      }
    }
  }

  /**
   * The union keeps every value of the input once and in the order of its
   * first occurrence.
   */
  lemma {:induction false} DedupeSpec<T>(xs: seq<T>)
    ensures NoDup(Dedupe(xs))
    ensures forall x :: x in Dedupe(xs) <==> x in xs
    ensures forall i, j :: 0 <= i < j < |Dedupe(xs)| ==> FirstIndex(xs, Dedupe(xs)[i]) < FirstIndex(xs, Dedupe(xs)[j])
  {
    DedupeMembers(xs);
    if xs != [] {
      var n := |xs| - 1;
      var init := xs[..n];
      DedupeSpec(init);
      assert xs == init + [xs[n]];
      DedupeSnoc(init, xs[n]);
      DedupeOrderStep(init, xs[n]);
    }
  }

  lemma DedupeOrderStep<T>(init: seq<T>, x: T)
    requires forall y :: y in Dedupe(init) <==> y in init
    requires forall i, j :: 0 <= i < j < |Dedupe(init)| ==> FirstIndex(init, Dedupe(init)[i]) < FirstIndex(init, Dedupe(init)[j])
    ensures var xs := init + [x]; var r := Dedupe(xs);
      forall i, j :: 0 <= i < j < |r| ==> FirstIndex(xs, r[i]) < FirstIndex(xs, r[j])
  {
    var xs := init + [x];
    var prior := Dedupe(init);
    DedupeSnoc(init, x);
    var r := Dedupe(xs);
    forall i, j | 0 <= i < j < |r| ensures FirstIndex(xs, r[i]) < FirstIndex(xs, r[j]) {
      assert r[i] == prior[i] && r[i] in init;
      FirstIndexPrefix(init, [x], r[i]);
      if j < |prior| {
        assert r[j] == prior[j];
        FirstIndexPrefix(init, [x], r[j]);
      } else {
        assert r[j] == x && x !in init;
        assert FirstIndex(xs, x) == |init|;
      }
    }
  }

  function FallbacksIn(e: BalticEntry, v: Variant): seq<string> {
    if e.roms.Get(v).Some? then e.roms.Get(v).value.fallbacks else []
  }

  /** The fallbacks of the ROMs A, B, C in turn. */
  function AllFallbacks(e: BalticEntry): seq<string> {
    FallbacksIn(e, A) + FallbacksIn(e, B) + FallbacksIn(e, C)
  }

  /** The `fallback` column's loop: every fallback of the ROMs in turn, skipping those already collected. */
  method FallbackUnion(e: BalticEntry) returns (allFb: seq<string>)
    ensures allFb == Dedupe(AllFallbacks(e))
  {
    allFb := [];
    ghost var done: seq<string> := [];
    var v := 0;
    while v < |Variants|
      invariant v <= |Variants|
      invariant done == if v == 0 then [] else if v == 1 then FallbacksIn(e, A) else if v == 2 then FallbacksIn(e, A) + FallbacksIn(e, B) else AllFallbacks(e)
      invariant allFb == Dedupe(done)
    {
      var fbs := FallbacksIn(e, Variants[v]);
      allFb := AddNew(allFb, done, fbs);
      done := done + fbs;
      v := v + 1;
    }
  }

  /** One turn of the inner loop: `x` is appended when it is not yet collected. */
  method AddOne(acc: seq<string>, ghost done: seq<string>, x: string) returns (r: seq<string>)
    requires acc == Dedupe(done)
    ensures r == Dedupe(done + [x])
  {
    DedupeSnoc(done, x);
    r := acc;
    if x !in r {
      r := r + [x];
    }
  }

  method AddNew(acc: seq<string>, ghost done: seq<string>, xs: seq<string>) returns (r: seq<string>)
    requires acc == Dedupe(done)
    ensures r == Dedupe(done + xs)
  {
    r := acc;
    var j := 0;
    assert done + xs[..0] == done;
    while j < |xs|
      invariant j <= |xs|
      invariant r == Dedupe(done + xs[..j])
    {
      assert done + xs[..j + 1] == (done + xs[..j]) + [xs[j]];
      r := AddOne(r, done + xs[..j], xs[j]);
      j := j + 1;
    }
    assert xs[..j] == xs;
  }

  /** A position cell: the `0xHH` code, or empty. */
  function ByteCell(e: BalticEntry, v: Variant): string {
    if e.roms.Get(v).Some? && e.roms.Get(v).value.byteCode.Some? then e.roms.Get(v).value.byteCode.value else ""
  }

  /** One CSV row: character, label, languages, the three positions and the fallback union. */
  function CsvRow(ch: string, e: BalticEntry): seq<string> {
    [ch, e.unicode, Join(e.languages, "; "), ByteCell(e, A), ByteCell(e, B), ByteCell(e, C), Join(Dedupe(AllFallbacks(e)), ", ")]
  }

  /** A row's position cell is filled exactly for the ROMs that have the letter at a known position. */
  lemma CsvRowSpec(ch: string, e: BalticEntry, v: Variant)
    requires e.roms.Get(v).Some? && (e.roms.Get(v).value.available <==> e.roms.Get(v).value.byteCode.Some?)
    ensures |CsvRow(ch, e)| == 7 && CsvRow(ch, e)[0] == ch
    ensures var cell := CsvRow(ch, e)[if v == A then 3 else if v == B then 4 else 5];
      (e.roms.Get(v).value.available ==> cell == e.roms.Get(v).value.byteCode.value)
      && (!e.roms.Get(v).value.available ==> cell == "")
  {
  }

  // ---- main -------------------------------------------------------------------

  function LookupOfFile(file: Option<seq<RomRecord>>): Option<ReverseLookup> {
    if file.Some? then Some(ReverseOf(file.value)) else None
  }

  /** The lookups of the first `n` ROMs; a ROM whose file is missing has none. */
  function LookupsFirst(files: PerVariant<Option<seq<RomRecord>>>, n: nat): PerVariant<Option<ReverseLookup>>
    requires n <= |Variants|
  {
    if n == 0 then PerVariant(None, None, None)
    else LookupsFirst(files, n - 1).With(Variants[n - 1], LookupOfFile(files.Get(Variants[n - 1])))
  }

  /** The letters to build entries for are collected ones, each a single character. */
  predicate Collected(allChars: LangMap, ks: seq<string>) {
    forall i :: 0 <= i < |ks| ==> ks[i] in allChars.vals && |ks[i]| == 1
  }

  /**
   * The data part of `main`: the reverse lookup of every ROM file found,
   * the letters of `BALTIC_CHARS`, their entries and the summary.
   */
  method GenerateBalticMap(db: Db, files: PerVariant<Option<seq<RomRecord>>>) returns (characters: BalticMap, summary: Summary)
    ensures Collected(AllChars(BalticLanguages), SortedLetters(AllChars(BalticLanguages)))
    ensures characters == Characters(db, AllChars(BalticLanguages), LookupsFirst(files, |Variants|), SortedLetters(AllChars(BalticLanguages)))
    ensures summary == SummaryOf(characters)
  {
    var lookups: PerVariant<Option<ReverseLookup>> := PerVariant(None, None, None);
    var i := 0;
    while i < |Variants|
      invariant i <= |Variants|
      invariant lookups == LookupsFirst(files, i)
    {
      var romId := Variants[i];
      if files.Get(romId).Some? {
        var lookup := LoadRomReverseLookup(files.Get(romId).value);
        lookups := lookups.With(romId, Some(lookup));
      } else {
        lookups := lookups.With(romId, None);
      }
      i := i + 1;
    }
    var allChars := CollectBalticChars(BalticLanguages);
    AllCharsSpec(BalticLanguages, [], "");
    characters := BuildCharacters(db, allChars, lookups);
    summary := SummaryOf(characters);
  }
}
