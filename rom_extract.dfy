/**
 * The ROM extractor (`oled-convertor/data/extract_rom_maps.py`): it reads
 * the 16 x 16 character tables of the US2066 controller from the C# source
 * of a driver, completes the unmapped positions from the glyph bitmaps and
 * writes one record per byte position.
 */
module RomExtract {
  import opened Wrappers
  import opened Strings
  import opened UnicodeDb
  import opened Dicts
  import opened TableFolds
  import opened ByteKeys
  import opened RomTables

  /** The C# sentinel for a position the ROM leaves undefined (`c_undef`). */
  const CUndef: string := "\U{F800}"

  /** The C# sentinel for a glyph with no known character (`c_unmap`). */
  const CUnmap: string := "\U{E200}"

  // ---- tokenizing one row of the C# table ------------------------------

  /**
   * Why the model cannot tokenize a row. The first three stand for
   * exceptions Python raises; the last is the model's own: Python's `chr`
   * accepts a surrogate, which a Dafny `char` cannot hold.
   */
  datatype TokError =
    | CommentNotClosed   // `s.index("*/", i)` finds nothing
    | LiteralCutShort    // the row ends inside a character literal
    | BadHexEscape       // the digits of a `\u` escape are not one to four hex digits
    | SurrogateEscape    // the escape names a surrogate code point

  /** The text the tokenizer scans: stripped, one leading `{` and one trailing `}` dropped, stripped again. */
  function RowBody(row: string): string {
    PyStrip(DropBraces(PyStrip(row)))
  }

  function DropBraces(s: string): string {
    var s1 := if |s| >= 1 && s[0] == '{' then s[1..] else s;
    if |s1| >= 1 && s1[|s1| - 1] == '}' then s1[..|s1| - 1] else s1
  }

  predicate IsBlank(c: char) {
    c == ' ' || c == '\t' || c == '\n' || c == '\r'
  }

  predicate StartsName(db: Db, c: char) {
    PyIsAlpha(db, c) || c == '_'
  }

  predicate InName(db: Db, c: char) {
    PyIsAlnum(db, c) || c == '_'
  }

  /** The index just past the name characters of `s` from `j` on. */
  function NameEnd(db: Db, s: string, j: nat): (e: nat)
    requires j <= |s|
    ensures j <= e <= |s|
    decreases |s| - j
  {
    if j < |s| && InName(db, s[j]) then NameEnd(db, s, j + 1) else j
  }

  /** Name characters on `[i, j)` and none at `j`: the name ends at `j`. */
  lemma {:induction false} NameEndUnique(db: Db, s: string, i: nat, j: nat)
    requires i <= j <= |s|
    requires forall k :: i <= k < j ==> InName(db, s[k])
    requires j < |s| ==> !InName(db, s[j])
    ensures NameEnd(db, s, i) == j
    decreases j - i
  {
    if i < j {
      NameEndUnique(db, s, i + 1, j);
    }
  }

  function Min(a: int, b: int): int {
    if a <= b then a else b
  }

  /** `16^n`. */
  function Pow16(n: nat): (p: nat)
    ensures p >= 1
  {
    if n == 0 then 1 else 16 * Pow16(n - 1)
  }

  lemma {:induction false} HexValueBound(h: string)
    ensures DigitsValue(h, 16) < Pow16(|h|)
  {
    if h != [] {
      HexValueBound(h[..|h| - 1]);
    }
  }

  /** `chr(int(h, 16))` for the up to four characters after `\u`, read as plain hex digits only. */
  function HexEscape(h: string): (r: Result<char, TokError>)
    requires |h| <= 4
  {
    if h == [] || HexEnd(h, 0) < |h| then Failure(BadHexEscape)
    else
      var v := DigitsValue(h, 16);
      HexValueBound(h);
      assert Pow16(|h|) <= Pow16(4) == 0x10000 by {
        if |h| < 4 {
          PowMonotone(|h|, 4);
        }
      }
      if 0xD800 <= v < 0xE000 then Failure(SurrogateEscape) else Success(v as char)
  }

  /** In the model an escape reads as a character exactly when it has one to four hex digits and names no surrogate; the character is the one they spell. */
  lemma HexEscapeSpec(h: string)
    requires |h| <= 4
    ensures HexEscape(h).Success? <==> 1 <= |h| && (forall k :: 0 <= k < |h| ==> IsHexDigit(h[k]))
                                       && !(0xD800 <= DigitsValue(h, 16) < 0xE000)
    ensures HexEscape(h).Success? ==> HexEscape(h).value as int == DigitsValue(h, 16)
    ensures HexEscape(h).Failure? && (exists k :: 0 <= k < |h| && !IsHexDigit(h[k])) ==> HexEscape(h).error == BadHexEscape
  {
    HexEndSpec(h, 0);
    HexValueBound(h);
    PowMonotone(|h|, 4);
    assert Pow16(4) == 0x10000;
    if forall k :: 0 <= k < |h| ==> IsHexDigit(h[k]) {
      HexEndAll(h, 0);
    }
  }

  lemma {:induction false} PowMonotone(m: nat, n: nat)
    requires m <= n
    ensures Pow16(m) <= Pow16(n)
    decreases n - m
  {
    if m < n {
      PowMonotone(m + 1, n);
    }
  }

  /** Python `s.index` of the comment terminator from `i`, `None` where Python raises. */
  function CommentEnd(s: string, i: nat): (r: Option<nat>)
    ensures r.Some? ==> i <= r.value && r.value + 2 <= |s| && s[r.value] == '*' && s[r.value + 1] == '/'
    decreases |s| - i
  {
    if i + 2 > |s| then None
    else if s[i] == '*' && s[i + 1] == '/' then Some(i)
    else CommentEnd(s, i + 1)
  }

  /** The terminator found is the first one from `i`, and the search fails only when there is none. */
  lemma {:induction false} CommentEndFirst(s: string, i: nat, k: nat)
    requires i <= k && k + 1 < |s| && s[k] == '*' && s[k + 1] == '/'
    ensures CommentEnd(s, i).Some? && CommentEnd(s, i).value <= k
    decreases k - i
  {
    if !(s[i] == '*' && s[i + 1] == '/') {
      CommentEndFirst(s, i + 1, k);
    }
  }

  /** One more token in front of a tokenizing outcome. */
  function Cons(tok: string, r: Result<seq<string>, TokError>): Result<seq<string>, TokError> {
    match r
    case Success(ts) => Success([tok] + ts)
    case Failure(e) => Failure(e)
  }

  /** The tokens found so far in front of the outcome for the rest of the row. */
  function Then(ts: seq<string>, r: Result<seq<string>, TokError>): Result<seq<string>, TokError> {
    match r
    case Success(more) => Success(ts + more)
    case Failure(e) => Failure(e)
  }

  lemma ThenNil(r: Result<seq<string>, TokError>)
    ensures Then([], r) == r
  {
    if r.Success? {
      assert [] + r.value == r.value;
    }
  }

  lemma ThenCons(ts: seq<string>, tok: string, r: Result<seq<string>, TokError>)
    ensures Then(ts, Cons(tok, r)) == Then(ts + [tok], r)
  {
    if r.Success? {
      assert ts + ([tok] + r.value) == ts + [tok] + r.value;
    }
  }

  /** What one pass of the tokenizer loop does: move `i` on by `n`, append a token and move on by `n`, or raise. */
  datatype Step = Skip(n: nat) | Take(tok: string, n: nat) | Stop(e: TokError)

  /**
   * One pass of the tokenizer loop at index `i` of `s`: blanks and commas
   * are skipped, a comment is skipped up to the first star-slash found from
   * where its opening slash-star starts, a name runs while the characters
   * are alphanumeric or `_`, and a character literal is a quote, one
   * character or a backslash escape, and one more character that is taken to
   * be the closing quote; any other character is skipped.
   */
  function NextStep(db: Db, s: string, i: nat): (st: Step)
    requires i < |s|
    ensures !st.Stop? ==> st.n >= 1
  {
    if IsBlank(s[i]) || s[i] == ',' then Skip(1)
    else if i + 1 < |s| && s[i] == '/' && s[i + 1] == '*' then CommentStep(s, i)
    else if StartsName(db, s[i]) then
      var e := NameEnd(db, s, i);
      Take(s[i..e], e - i)
    else if s[i] == '\'' then LiteralStep(s, i)
    else Skip(1)
  }

  /** A comment from `i`: skipped up to and including the first star-slash found from `i`. */
  function CommentStep(s: string, i: nat): (st: Step)
    ensures !st.Stop? ==> st.n >= 1
  {
    var e := CommentEnd(s, i);
    if e.None? then Stop(CommentNotClosed) else Skip(e.value + 2 - i)
  }

  /** A character literal whose opening quote is at `i`. */
  function LiteralStep(s: string, i: nat): (st: Step)
    requires i < |s|
    ensures !st.Stop? ==> st.n >= 1
  {
    if i + 1 >= |s| then Stop(LiteralCutShort)
    else if s[i + 1] != '\\' then Take([s[i + 1]], 3)
    else if i + 2 >= |s| then Stop(LiteralCutShort)
    else if s[i + 2] != 'u' then Take([s[i + 2]], 4)
    else
      var c := HexEscape(s[i + 3..Min(i + 7, |s|)]);
      if c.Failure? then Stop(c.error) else Take([c.value], 8)
  }


  /** The tokens of `s` from index `i` on, or the exception the tokenizer raises. */
  function Scan(db: Db, s: string, i: nat): Result<seq<string>, TokError>
    decreases if i <= |s| then |s| - i else 0
  {
    if i >= |s| then Success([])
    else
      match NextStep(db, s, i)
      case Skip(n) => Scan(db, s, i + n)
      case Take(tok, n) => Cons(tok, Scan(db, s, i + n))
      case Stop(e) => Failure(e)
  }

  /** The tokens from `i` on, after the step taken there. */
  lemma ScanAt(db: Db, s: string, i: nat, st: Step)
    requires i < |s| && st == NextStep(db, s, i)
    ensures Scan(db, s, i) == match st
      case Skip(n) => Scan(db, s, i + n)
      case Take(tok, n) => Cons(tok, Scan(db, s, i + n))
      case Stop(e) => Failure(e)
  {
  }

  /** One pass of the `tokenize_row` loop at index `i`: how far it moves `i`, and the token it appends, or the exception it raises. */
  method ReadStep(db: Db, s: string, i: nat) returns (st: Step)
    requires i < |s|
    ensures st == NextStep(db, s, i)
  {
    if s[i] in " \t\n\r" {
      return Skip(1);
    }
    if s[i] == ',' {
      return Skip(1);
    }
    if i + 1 < |s| && s[i] == '/' && s[i + 1] == '*' {
      var end := CommentEnd(s, i);
      if end.None? {
        return Stop(CommentNotClosed);
      }
      return Skip(end.value + 2 - i);
    }
    if PyIsAlpha(db, s[i]) || s[i] == '_' {
      var j := i;
      while j < |s| && (PyIsAlnum(db, s[j]) || s[j] == '_')
        invariant i <= j <= |s|
        invariant forall k :: i <= k < j ==> InName(db, s[k])
      {
        j := j + 1;
      }
      NameEndUnique(db, s, i, j);
      return Take(s[i..j], j - i);
    }
    if s[i] == '\'' {
      if i + 1 >= |s| {
        return Stop(LiteralCutShort);
      }
      if s[i + 1] == '\\' {
        if i + 2 >= |s| {
          return Stop(LiteralCutShort);
        }
        var esc := s[i + 2];
        if esc == 'u' {
          var c := HexEscape(s[i + 3..Min(i + 7, |s|)]);
          if c.Failure? {
            return Stop(c.error);
          }
          return Take([c.value], 8);
        }
        return Take([esc], 4);
      }
      return Take([s[i + 1]], 3);
    }
    return Skip(1);
  }

  /** The `while` loop of `tokenize_row` over the prepared text `s`. */
  method ScanText(db: Db, s: string) returns (r: Result<seq<string>, TokError>)
    ensures r == Scan(db, s, 0)
  {
    var tokens: seq<string> := [];
    var i: nat := 0;
    ThenNil(Scan(db, s, 0));
    while i < |s|
      invariant Scan(db, s, 0) == Then(tokens, Scan(db, s, i))
      decreases |s| - i
    {
      var st := ReadStep(db, s, i);
      ScanAt(db, s, i, st);
      match st
      case Skip(n) =>
        i := i + n;
      case Take(tok, n) =>
        ThenCons(tokens, tok, Scan(db, s, i + n));
        tokens := tokens + [tok];
        i := i + n;
      case Stop(e) =>
        return Failure(e);
    }
    assert tokens + [] == tokens;
    r := Success(tokens);
  }

  /** `tokenize_row`: the tokens of one row of a C# character table. */
  method TokenizeRow(db: Db, row: string) returns (r: Result<seq<string>, TokError>)
    ensures r == Scan(db, RowBody(row), 0)
  {
    var s := PyStrip(row);
    s := StripBraces(s);
    s := PyStrip(s);
    r := ScanText(db, s);
  }

  /** The two brace checks of `tokenize_row`: a leading `{` and a trailing `}` are dropped. */
  method StripBraces(s0: string) returns (s: string)
    ensures s == DropBraces(s0)
  {
    s := s0;
    if |s| >= 1 && s[0] == '{' {
      s := s[1..];
    }
    if |s| >= 1 && s[|s| - 1] == '}' {
      s := s[..|s| - 1];
    }
  }

  // ---- the tokenizer reads only forward --------------------------------

  lemma {:induction false} NameEndShift(db: Db, a: string, b: string, j: nat)
    requires j <= |b|
    ensures NameEnd(db, a + b, |a| + j) == |a| + NameEnd(db, b, j)
    decreases |b| - j
  {
    if j < |b| && InName(db, b[j]) {
      NameEndShift(db, a, b, j + 1);
    }
  }

  lemma {:induction false} CommentEndShift(a: string, b: string, j: nat)
    ensures CommentEnd(a + b, |a| + j) == match CommentEnd(b, j) case None => None case Some(e) => Some(|a| + e)
    decreases |b| - j
  {
    if j + 2 <= |b| && !(b[j] == '*' && b[j + 1] == '/') {
      CommentEndShift(a, b, j + 1);
    }
  }

  lemma NextStepShift(db: Db, a: string, b: string, j: nat)
    requires j < |b|
    ensures NextStep(db, a + b, |a| + j) == NextStep(db, b, j)
  {
    var s := a + b;
    var i := |a| + j;
    assert s[i] == b[j];
    assert |s| - i == |b| - j;
    assert j + 1 < |b| ==> s[i + 1] == b[j + 1];
    assert j + 2 < |b| ==> s[i + 2] == b[j + 2];
    if IsBlank(b[j]) || b[j] == ',' {
    } else if j + 1 < |b| && b[j] == '/' && b[j + 1] == '*' {
      CommentEndShift(a, b, j);
    } else if StartsName(db, b[j]) {
      NameEndShift(db, a, b, j);
      var e := NameEnd(db, b, j);
      assert s[i..|a| + e] == b[j..e];
    } else if b[j] == '\'' && j + 2 < |b| && b[j + 1] == '\\' && b[j + 2] == 'u' {
      assert s[i + 3..Min(i + 7, |s|)] == b[j + 3..Min(j + 7, |b|)];
    }
  }

  /** What the tokenizer finds after a prefix depends only on the text after it. */
  lemma {:induction false} ScanShift(db: Db, a: string, b: string, j: nat)
    ensures Scan(db, a + b, |a| + j) == Scan(db, b, j)
    decreases if j <= |b| then |b| - j else 0
  {
    if j < |b| {
      NextStepShift(db, a, b, j);
      var st := NextStep(db, b, j);
      if !st.Stop? {
        ScanShift(db, a, b, j + st.n);
      }
      SameStep(db, a + b, |a| + j, b, j, st);
    }
  }

  /** Two positions taking the same step, with the same tokens after it, have the same tokens. */
  lemma SameStep(db: Db, s: string, i: nat, t: string, j: nat, st: Step)
    requires i < |s| && j < |t| && st == NextStep(db, s, i) && st == NextStep(db, t, j)
    requires !st.Stop? ==> Scan(db, s, i + st.n) == Scan(db, t, j + st.n)
    ensures Scan(db, s, i) == Scan(db, t, j)
  {
  }

  // ---- writing a row and reading it back --------------------------------

  /** A cell of a C# table row: a name such as `c_undef`, or a character literal. */
  datatype Cell = Name(id: string) | Literal(c: char)

  predicate IsAsciiNameChar(c: char) {
    IsAsciiLetter(c) || IsAsciiDigit(c) || c == '_'
  }

  /** Names are C# identifiers in ASCII; any character can be a literal. */
  predicate CellOk(cell: Cell) {
    cell.Name? ==>
      |cell.id| >= 1 && (IsAsciiLetter(cell.id[0]) || cell.id[0] == '_')
      && forall k :: 0 <= k < |cell.id| ==> IsAsciiNameChar(cell.id[k])
  }

  /** The C# source text of a cell; a quote or a backslash literal is escaped. */
  function CellText(cell: Cell): string {
    match cell
    case Name(id) => id
    case Literal(c) => if c == '\'' || c == '\\' then ['\'', '\\', c, '\''] else ['\'', c, '\'']
  }

  /** The token the cell stands for. */
  function CellToken(cell: Cell): string {
    match cell
    case Name(id) => id
    case Literal(c) => [c]
  }

  function CellTexts(cells: seq<Cell>): (ts: seq<string>)
    ensures |ts| == |cells| && forall k :: 0 <= k < |cells| ==> ts[k] == CellText(cells[k])
  {
    seq(|cells|, k requires 0 <= k < |cells| => CellText(cells[k]))
  }

  function CellTokens(cells: seq<Cell>): (ts: seq<string>)
    ensures |ts| == |cells| && forall k :: 0 <= k < |cells| ==> ts[k] == CellToken(cells[k])
  {
    seq(|cells|, k requires 0 <= k < |cells| => CellToken(cells[k]))
  }

  /** A row as the C# source writes it: the cells between braces, separated by `, `. */
  function RowText(cells: seq<Cell>): string {
    "{" + Join(CellTexts(cells), ", ") + "}"
  }

  /** A cell followed by the end of the text or a comma reads back as its token. */
  lemma ScanCell(db: Db, cell: Cell, rest: string)
    requires CellOk(cell)
    requires rest == [] || rest[0] == ','
    ensures Scan(db, CellText(cell) + rest, 0) == Cons(CellToken(cell), Scan(db, rest, 0))
  {
    var x := CellText(cell);
    var t := x + rest;
    CellStep(db, cell, rest);
    ScanAt(db, t, 0, Take(CellToken(cell), |x|));
    ScanShift(db, x, rest, 0);
  }

  /** The tokenizer's step at the start of a cell takes the cell's token and moves past the cell. */
  lemma CellStep(db: Db, cell: Cell, rest: string)
    requires CellOk(cell)
    requires rest == [] || rest[0] == ','
    ensures |CellText(cell) + rest| > 0
    ensures NextStep(db, CellText(cell) + rest, 0) == Take(CellToken(cell), |CellText(cell)|)
  {
    var x := CellText(cell);
    var t := x + rest;
    var n := |x|;
    match cell
    case Name(id) =>
      assert forall k :: 0 <= k < n ==> t[k] == id[k];
      NameEndUnique(db, t, 0, n);
      assert t[0..n] == id;
    case Literal(c) =>
      assert t[0] == '\'';
  }

  /** The separator between two cells is skipped. */
  lemma ScanSeparator(db: Db, rest: string)
    ensures Scan(db, ", " + rest, 0) == Scan(db, rest, 0)
  {
    var t := ", " + rest;
    assert NextStep(db, t, 0) == Skip(1);
    assert NextStep(db, t, 1) == Skip(1);
    ScanShift(db, ", ", rest, 0);
  }

  /** The cells joined by `, ` read back as their tokens. */
  lemma {:induction false} ScanCells(db: Db, cells: seq<Cell>)
    requires forall k :: 0 <= k < |cells| ==> CellOk(cells[k])
    ensures Scan(db, Join(CellTexts(cells), ", "), 0) == Success(CellTokens(cells))
  {
    if |cells| == 1 {
      assert Join(CellTexts(cells), ", ") == CellText(cells[0]) + [];
      ScanCell(db, cells[0], []);
      assert CellTokens(cells) == [CellToken(cells[0])] + [];
    } else if |cells| >= 2 {
      var rest := Join(CellTexts(cells[1..]), ", ");
      assert CellTexts(cells)[1..] == CellTexts(cells[1..]);
      assert Join(CellTexts(cells), ", ") == CellText(cells[0]) + (", " + rest);
      ScanCell(db, cells[0], ", " + rest);
      ScanSeparator(db, rest);
      ScanCells(db, cells[1..]);
      assert CellTokens(cells) == [CellToken(cells[0])] + CellTokens(cells[1..]);
    }
  }

  lemma {:induction false} JoinEnds(parts: seq<string>, sep: string)
    requires |parts| >= 1 && forall k :: 0 <= k < |parts| ==> |parts[k]| >= 1
    ensures var j := Join(parts, sep);
      |j| >= 1 && j[0] == parts[0][0] && j[|j| - 1] == parts[|parts| - 1][|parts[|parts| - 1]| - 1]
  {
    if |parts| >= 2 {
      JoinEnds(parts[1..], sep);
    }
  }

  lemma CellTextEnds(cell: Cell)
    requires CellOk(cell)
    ensures var t := CellText(cell); |t| >= 1 && !PyIsSpace(t[0]) && !PyIsSpace(t[|t| - 1])
  {
    if cell.Name? {
      assert IsAsciiNameChar(cell.id[|cell.id| - 1]);
    }
  }

  /** Text whose ends are not white space is left alone by `strip`. */
  lemma StripKeeps(x: string)
    requires x == [] || (!PyIsSpace(x[0]) && !PyIsSpace(x[|x| - 1]))
    ensures PyStrip(x) == x
  {
  }

  lemma BracedBody(x: string)
    requires x == [] || (!PyIsSpace(x[0]) && !PyIsSpace(x[|x| - 1]))
    ensures RowBody("{" + x + "}") == x
  {
    var row := "{" + x + "}";
    assert row[0] == '{' && row[|row| - 1] == '}';
    StripKeeps(row);
    assert row[1..] == x + "}";
    assert (x + "}")[..|x|] == x;
    assert DropBraces(row) == x;
    StripKeeps(x);
  }

  /** The body the tokenizer scans in a written row is the cells and separators between the braces. */
  lemma RowBodyOfRowText(cells: seq<Cell>)
    requires forall k :: 0 <= k < |cells| ==> CellOk(cells[k])
    ensures RowBody(RowText(cells)) == Join(CellTexts(cells), ", ")
  {
    if cells != [] {
      var ts := CellTexts(cells);
      forall k | 0 <= k < |ts|
        ensures |ts[k]| >= 1
      {
        CellTextEnds(cells[k]);
      }
      JoinEnds(ts, ", ");
      CellTextEnds(cells[0]);
      CellTextEnds(cells[|cells| - 1]);
    }
    BracedBody(Join(CellTexts(cells), ", "));
  }

  /** Tokenizing a written row gives back the tokens of its cells. */
  lemma RowRoundTrip(db: Db, cells: seq<Cell>)
    requires forall k :: 0 <= k < |cells| ==> CellOk(cells[k])
    ensures Scan(db, RowBody(RowText(cells)), 0) == Success(CellTokens(cells))
  {
    RowBodyOfRowText(cells);
    ScanCells(db, cells);
  }

  // ---- parse_rom_map ---------------------------------------------------

  type Nibble = n: nat | n < 16

  /** A line of the C# source: a table row `/* 0x_L */ { … }` (its low nibble and the text inside the braces), or anything else. */
  datatype SourceLine = TableRow(lo: Nibble, content: string) | OtherLine

  datatype ParseError =
    | RowUnreadable(lo: Nibble, cause: TokError)
    | WrongTokenCount(lo: Nibble, count: nat)   // the `ValueError` for a row without 16 tokens

  /** The character a token stands for: the two C# sentinels by name, otherwise the token itself. */
  function TokenChar(tok: string): string {
    if tok == "c_undef" then CUndef else if tok == "c_unmap" then CUnmap else tok
  }

  /** The tokens of the row with low nibble `lo` from column `hi` on, each stored in turn at `(hi << 4) | lo`. */
  function StoreRow(d: ODict<nat, string>, lo: Nibble, toks: seq<string>, hi: nat): ODict<nat, string>
    requires hi <= |toks|
    decreases |toks| - hi
  {
    if hi == |toks| then d else StoreRow(Put(d, hi * 16 + lo, TokenChar(toks[hi])), lo, toks, hi + 1)
  }

  /** A source line with its row, if any, already tokenized. */
  datatype TokLine = TokRow(lo: Nibble, toks: Result<seq<string>, TokError>) | TokOther

  /** Every table row of the source run through `tokenize_row`. */
  function TokenizeLines(db: Db, lines: seq<SourceLine>): (ts: seq<TokLine>)
    ensures |ts| == |lines|
    ensures forall i :: 0 <= i < |lines| ==> ts[i] == TokenizeLine(db, lines[i])
  {
    seq(|lines|, i requires 0 <= i < |lines| => TokenizeLine(db, lines[i]))
  }

  function TokenizeLine(db: Db, line: SourceLine): TokLine {
    match line
    case TableRow(lo, content) => TokRow(lo, Scan(db, RowBody(content), 0))
    case OtherLine => TokOther
  }

  /**
   * The character map of the tokenized lines, or the first error: a row
   * that did not tokenize, or one without sixteen tokens.
   */
  function ParseLines(ts: seq<TokLine>): Result<ODict<nat, string>, ParseError> {
    if ts == [] then Success(Empty())
    else
      var prior := ParseLines(ts[..|ts| - 1]);
      var t := ts[|ts| - 1];
      if prior.Failure? || t.TokOther? then prior
      else if t.toks.Failure? then Failure(RowUnreadable(t.lo, t.toks.error))
      else if |t.toks.value| != 16 then Failure(WrongTokenCount(t.lo, |t.toks.value|))
      else Success(StoreRow(prior.value, t.lo, t.toks.value, 0))
  }

  lemma ParseLinesStep(ts: seq<TokLine>, k: nat, d: ODict<nat, string>)
    requires k < |ts| && ParseLines(ts[..k]) == Success(d)
    ensures ParseLines(ts[..k + 1]) == if ts[k].TokOther? then Success(d)
      else if ts[k].toks.Failure? then Failure(RowUnreadable(ts[k].lo, ts[k].toks.error))
      else if |ts[k].toks.value| != 16 then Failure(WrongTokenCount(ts[k].lo, |ts[k].toks.value|))
      else Success(StoreRow(d, ts[k].lo, ts[k].toks.value, 0))
  {
    assert ts[..k + 1][..k] == ts[..k];
  }

  /** The first error is the outcome: later lines are not read. */
  lemma {:induction false} ParseLinesStops(ts: seq<TokLine>, k: nat)
    requires k <= |ts| && ParseLines(ts[..k]).Failure?
    ensures ParseLines(ts) == ParseLines(ts[..k])
  {
    if k < |ts| {
      var pre := ts[..|ts| - 1];
      assert pre[..k] == ts[..k];
      ParseLinesStops(pre, k);
    } else {
      assert ts[..k] == ts;
    }
  }

  /** After storing row `lo` from column `hi` on, byte `b` holds the token of column `b / 16` when it lies in that part of the row, and is untouched otherwise. */
  lemma StoreRowSpec(d: ODict<nat, string>, lo: Nibble, toks: seq<string>, hi: nat, b: nat)
    requires hi <= |toks|
    ensures Get(StoreRow(d, lo, toks, hi), b) ==
      if b % 16 == lo && hi <= b / 16 < |toks| then Some(TokenChar(toks[b / 16])) else Get(d, b)
  {
    StoreRowVals(d, lo, toks, hi);
    StoreRowCells(d.vals, lo, toks, hi, b);
  }

  /** `StoreRow` on the underlying map, where the order of the keys plays no part. */
  function StoreRowMap(m: map<nat, string>, lo: Nibble, toks: seq<string>, hi: nat): map<nat, string>
    requires hi <= |toks|
    decreases |toks| - hi
  {
    if hi == |toks| then m else StoreRowMap(m[hi * 16 + lo := TokenChar(toks[hi])], lo, toks, hi + 1)
  }

  lemma {:induction false} StoreRowVals(d: ODict<nat, string>, lo: Nibble, toks: seq<string>, hi: nat)
    requires hi <= |toks|
    ensures StoreRow(d, lo, toks, hi).vals == StoreRowMap(d.vals, lo, toks, hi)
    decreases |toks| - hi
  {
    if hi < |toks| {
      StoreRowVals(Put(d, hi * 16 + lo, TokenChar(toks[hi])), lo, toks, hi + 1);
    }
  }

  lemma {:induction false} StoreRowCells(m: map<nat, string>, lo: Nibble, toks: seq<string>, hi: nat, b: nat)
    requires hi <= |toks|
    ensures (b in StoreRowMap(m, lo, toks, hi)) == ((b % 16 == lo && hi <= b / 16 < |toks|) || b in m)
    ensures b in StoreRowMap(m, lo, toks, hi) ==>
      StoreRowMap(m, lo, toks, hi)[b] == if b % 16 == lo && hi <= b / 16 < |toks| then TokenChar(toks[b / 16]) else m[b]
    decreases |toks| - hi
  {
    if hi < |toks| {
      StoreRowCells(m[hi * 16 + lo := TokenChar(toks[hi])], lo, toks, hi + 1, b);
      KeyOf(b, hi, lo);
    }
  }

  /** Byte `b` is `(q << 4) | lo` exactly when its high nibble is `q` and its low nibble `lo`. */
  lemma KeyOf(b: nat, q: nat, lo: Nibble)
    ensures b == q * 16 + lo <==> b / 16 == q && b % 16 == lo
  {
    if b == q * 16 + lo {
      SplitByte(b, q, lo);
    }
  }

  /** `b == 16 * q + r` with `r < 16` determines the quotient and remainder. */
  lemma SplitByte(b: nat, q: nat, r: nat)
    requires r < 16 && b == 16 * q + r
    ensures b / 16 == q && b % 16 == r
  {
  }

  /** The index of the last table row with low nibble `lo`. */
  function LastRowWith(ts: seq<TokLine>, lo: Nibble): (r: Option<nat>)
    ensures r.Some? ==> r.value < |ts| && ts[r.value].TokRow? && ts[r.value].lo == lo
    ensures r.Some? ==> forall i :: r.value < i < |ts| ==> !(ts[i].TokRow? && ts[i].lo == lo)
    ensures r.None? ==> forall i :: 0 <= i < |ts| ==> !(ts[i].TokRow? && ts[i].lo == lo)
  {
    if ts == [] then None
    else
      var t := ts[|ts| - 1];
      if t.TokRow? && t.lo == lo then Some(|ts| - 1) else LastRowWith(ts[..|ts| - 1], lo)
  }

  /** The character a table row puts in column `hi`, when the row has sixteen tokens. */
  function RowCell(t: TokLine, hi: nat): Option<string>
    requires t.TokRow? && hi < 16
  {
    if t.toks.Success? && |t.toks.value| == 16 then Some(TokenChar(t.toks.value[hi])) else None
  }

  /** A line `parse_rom_map` gets past: not a table row, or one with sixteen tokens. */
  predicate RowReadable(t: TokLine) {
    t.TokRow? ==> t.toks.Success? && |t.toks.value| == 16
  }

  /** `parse_rom_map` succeeds exactly when every table row has sixteen readable tokens. */
  lemma ParseLinesOk(ts: seq<TokLine>)
    ensures ParseLines(ts).Success? <==> forall i :: 0 <= i < |ts| ==> RowReadable(ts[i])
  {
    if ParseLines(ts).Success? {
      forall i | 0 <= i < |ts| ensures RowReadable(ts[i]) {
        ParseLinesReadable(ts, i);
      }
    } else {
      ParseLinesUnreadable(ts);
    }
  }

  lemma {:induction false} ParseLinesReadable(ts: seq<TokLine>, i: nat)
    requires i < |ts| && ParseLines(ts).Success?
    ensures RowReadable(ts[i])
  {
    var n := |ts| - 1;
    var pre := ts[..n];
    if i < n {
      ParseLinesReadable(pre, i);
      assert pre[i] == ts[i];
    }
  }

  lemma {:induction false} ParseLinesUnreadable(ts: seq<TokLine>)
    requires ParseLines(ts).Failure?
    ensures exists i :: 0 <= i < |ts| && !RowReadable(ts[i])
  {
    var n := |ts| - 1;
    var pre := ts[..n];
    if ParseLines(pre).Failure? {
      ParseLinesUnreadable(pre);
      var j :| 0 <= j < n && !RowReadable(pre[j]);
      assert !RowReadable(ts[j]);
    } else {
      assert !RowReadable(ts[n]);
    }
  }

  /**
   * The parsed map holds byte `b` exactly when `b < 256` and some table row
   * has its low nibble; the character is the one in column `b / 16` of the
   * last such row, since a later row overwrites an earlier one.
   */
  lemma {:induction false} ParseLinesCell(ts: seq<TokLine>, b: nat)
    requires ParseLines(ts).Success?
    ensures var i := LastRowWith(ts, b % 16);
      Get(ParseLines(ts).value, b) == if b < 256 && i.Some? then RowCell(ts[i.value], b / 16) else None
  {
    if ts != [] {
      var pre := ts[..|ts| - 1];
      var t := ts[|ts| - 1];
      assert ParseLines(pre).Success?;
      ParseLinesCell(pre, b);
      if t.TokRow? {
        StoreRowSpec(ParseLines(pre).value, t.lo, t.toks.value, 0, b);
        assert b == 16 * (b / 16) + b % 16;
      }
    }
  }

  /** The inner loop of `parse_rom_map`: the sixteen tokens of a row, stored column by column. */
  method StoreRowMethod(d: ODict<nat, string>, lo: Nibble, toks: seq<string>) returns (r: ODict<nat, string>)
    requires |toks| == 16
    ensures r == StoreRow(d, lo, toks, 0)
  {
    r := d;
    var hi := 0;
    while hi < 16
      invariant hi <= 16
      invariant StoreRow(r, lo, toks, hi) == StoreRow(d, lo, toks, 0)
    {
      // `(hi << 4) | lo` with `lo < 16`
      r := Put(r, hi * 16 + lo, TokenChar(toks[hi]));
      hi := hi + 1;
    }
  }

  /** `parse_rom_map`: byte position to character for every table row of the source. */
  method ParseRomMap(db: Db, lines: seq<SourceLine>) returns (r: Result<ODict<nat, string>, ParseError>)
    ensures r == ParseLines(TokenizeLines(db, lines))
  {
    ghost var ts := TokenizeLines(db, lines);
    var charMap: ODict<nat, string> := Empty();
    var k := 0;
    assert ts[..0] == [];
    while k < |lines|
      invariant k <= |lines|
      invariant ParseLines(ts[..k]) == Success(charMap)
    {
      ParseLinesStep(ts, k, charMap);
      var line := lines[k];
      if line.TableRow? {
        var lo := line.lo;
        var tokens := TokenizeRow(db, line.content);
        assert ts[k] == TokRow(lo, tokens);
        if tokens.Failure? {
          ParseLinesStops(ts, k + 1);
          return Failure(RowUnreadable(lo, tokens.error));
        }
        if |tokens.value| != 16 {
          ParseLinesStops(ts, k + 1);
          return Failure(WrongTokenCount(lo, |tokens.value|));
        }
        charMap := StoreRowMethod(charMap, lo, tokens.value);
      }
      k := k + 1;
    }
    assert ts[..k] == ts;
    r := Success(charMap);
  }
}
