/**
 * The browser fleet-settings updater: it reads controller IDs and a JSON
 * object of device settings from a form, merges the settings into each
 * controller's current configuration and posts the result, tracks which
 * controllers were updated and which failed, and can then schedule a
 * firmware update plan for the updated ones. Every HTTP reply is an input.
 */
module AssetUpdater {
  import opened Wrappers
  import opened Strings
  import opened Dicts
  import opened JsonValues
  import UC = UpdateController

  // ---- omit -----------------------------------------------------------------------

  /** The entries whose key is not in `drop`, in order. */
  function Keep(es: seq<(string, Json)>, drop: seq<string>): (r: seq<(string, Json)>)
    ensures forall i :: 0 <= i < |r| ==> r[i] in es && r[i].0 !in drop
  {
    if es == [] then []
    else Keep(es[..|es| - 1], drop) + (if es[|es| - 1].0 in drop then [] else [es[|es| - 1]])
  }

  /** The keys not in `drop`, in order. */
  function KeepKeys(ks: seq<string>, drop: seq<string>): seq<string> {
    if ks == [] then []
    else KeepKeys(ks[..|ks| - 1], drop) + (if ks[|ks| - 1] in drop then [] else [ks[|ks| - 1]])
  }

  /** `omit(obj, keysToOmit)`: the own properties of `obj` outside the list; `{}` for a falsy value. */
  function Omit(obj: Json, drop: seq<string>): ODict<string, Json> {
    FromPairs(Keep(OwnEntries(obj), drop))
  }

  lemma {:induction false} KeepFirsts(es: seq<(string, Json)>, drop: seq<string>)
    ensures Firsts(Keep(es, drop)) == KeepKeys(Firsts(es), drop)
  {
    if es != [] {
      KeepFirsts(es[..|es| - 1], drop);
      assert Firsts(es)[..|es| - 1] == Firsts(es[..|es| - 1]);
    }
  }

  lemma {:induction false} KeepKeysSpec(ks: seq<string>, drop: seq<string>)
    requires NoDup(ks)
    ensures NoDup(KeepKeys(ks, drop))
    ensures forall k :: k in KeepKeys(ks, drop) <==> k in ks && k !in drop
  {
    if ks != [] {
      var init := ks[..|ks| - 1];
      var last := ks[|ks| - 1];
      assert forall k :: k in ks <==> k in init || k == last;
      assert NoDup(init) by {
        forall i, j | 0 <= i < j < |init| ensures init[i] != init[j] {
          assert init[i] == ks[i] && init[j] == ks[j];
        }
      }
      KeepKeysSpec(init, drop);
      assert last !in init by {
        forall j | 0 <= j < |init| ensures init[j] != last {
          assert ks[j] != ks[|ks| - 1];
        }
      }
      NoDupConcat(KeepKeys(init, drop), if last in drop then [] else [last]);
    }
  }

  /**
   * For an object, `omit` keeps exactly the keys outside the list, in their
   * order, with their values; for a falsy value it gives `{}`.
   */
  lemma OmitSpec(obj: Json, drop: seq<string>)
    ensures !Truthy(obj) ==> Omit(obj, drop) == Empty()
    ensures obj.JObj? ==> Omit(obj, drop).keys == KeepKeys(obj.obj.keys, drop)
    ensures obj.JObj? ==> forall k :: (k in Omit(obj, drop).vals <==> k in obj.obj.vals && k !in drop)
    ensures obj.JObj? ==> forall k :: k in Omit(obj, drop).vals ==> Omit(obj, drop).vals[k] == obj.obj.vals[k]
  {
    if obj.JObj? {
      var d := obj.obj;
      var es := Keep(Items(d), drop);
      assert Firsts(Items(d)) == d.keys;
      KeepFirsts(Items(d), drop);
      KeepKeysSpec(d.keys, drop);
      FromPairsDistinct(es);
      var r := Omit(obj, drop);
      forall k | k in r.vals ensures k in d.vals && k !in drop && r.vals[k] == d.vals[k] {
        assert k in r.keys;
        var i :| 0 <= i < |es| && Firsts(es)[i] == k;
        assert es[i] in Items(d);
      }
    }
  }

  // ---- mergeConfigurations ----------------------------------------------------------

  /** The value a user change stores: an object-typed `fileSetIds` is shallow-copied, anything else is taken as it is. */
  function MergedValue(key: string, v: Json): Json {
    if key == "fileSetIds" && IsObjectType(v) then JObj(Spread(v)) else v
  }

  /** The configuration after the first `n` keys of the changes. */
  function MergeFrom(current: ODict<string, Json>, changes: ODict<string, Json>, n: nat): ODict<string, Json>
    requires n <= |changes.keys|
  {
    if n == 0 then current
    else
      var k := changes.keys[n - 1];
      assert k in changes.vals;
      Put(MergeFrom(current, changes, n - 1), k, MergedValue(k, changes.vals[k]))
  }

  lemma MergeFromStep(current: ODict<string, Json>, changes: ODict<string, Json>, n: nat)
    requires n < |changes.keys|
    ensures changes.keys[n] in changes.vals
    ensures MergeFrom(current, changes, n + 1)
      == Put(MergeFrom(current, changes, n), changes.keys[n], MergedValue(changes.keys[n], changes.vals[changes.keys[n]]))
  {
  }

  function Merge(current: ODict<string, Json>, changes: ODict<string, Json>): ODict<string, Json> {
    MergeFrom(current, changes, |changes.keys|)
  }

  /** `mergeConfigurations`: a copy of the current configuration with every user change applied. */
  method MergeConfigurations(currentConfig: ODict<string, Json>, userChanges: ODict<string, Json>) returns (result: ODict<string, Json>)
    ensures result == Merge(currentConfig, userChanges)
  {
    result := currentConfig;
    var i := 0;
    while i < |userChanges.keys|
      invariant i <= |userChanges.keys|
      invariant result == MergeFrom(currentConfig, userChanges, i)
    {
      result := MergeChange(currentConfig, userChanges, i, result);
      i := i + 1;
    }
  }

  /** The loop body for the `i`-th key of the changes. */
  method MergeChange(currentConfig: ODict<string, Json>, userChanges: ODict<string, Json>, i: nat, result: ODict<string, Json>)
    returns (r: ODict<string, Json>)
    requires i < |userChanges.keys| && result == MergeFrom(currentConfig, userChanges, i)
    ensures r == MergeFrom(currentConfig, userChanges, i + 1)
  {
    var key := userChanges.keys[i];
    MergeFromStep(currentConfig, userChanges, i);
    r := MergeKey(result, key, userChanges.vals[key]);
  }

  /**
   * One step of the merge loop: `fileSetIds` given as an object is copied,
   * any other value is stored as it is. The key reads back its merged value,
   * every other key keeps its value, and the existing keys keep their order
   * ahead of a new one.
   */
  method MergeKey(result: ODict<string, Json>, key: string, value: Json) returns (r: ODict<string, Json>)
    ensures r == Put(result, key, MergedValue(key, value))
    ensures r.vals == result.vals[key := MergedValue(key, value)]
    ensures key in result.vals ==> r.keys == result.keys
    ensures key !in result.vals ==> r.keys == result.keys + [key]
  {
    if key == "fileSetIds" && IsObjectType(value) {
      r := Put(result, key, JObj(Spread(value)));
    } else {
      r := Put(result, key, value);
    }
  }

  lemma {:induction false} MergeFromSet(current: ODict<string, Json>, changes: ODict<string, Json>, n: nat, k: string)
    requires n <= |changes.keys|
    requires k in changes.keys[..n]
    ensures k in changes.vals
    ensures k in MergeFrom(current, changes, n).vals
    ensures MergeFrom(current, changes, n).vals[k] == MergedValue(k, changes.vals[k])
  {
    PrefixStep(changes.keys, n, k);
    var last := changes.keys[n - 1];
    assert last in changes.vals;
    var prev := MergeFrom(current, changes, n - 1);
    assert MergeFrom(current, changes, n) == Put(prev, last, MergedValue(last, changes.vals[last]));
    if k != last {
      MergeFromSet(current, changes, n - 1, k);
    }
  }

  lemma {:induction false} MergeFromKeep(current: ODict<string, Json>, changes: ODict<string, Json>, n: nat, k: string)
    requires n <= |changes.keys|
    requires k !in changes.keys[..n]
    ensures Get(MergeFrom(current, changes, n), k) == Get(current, k)
  {
    if n > 0 {
      PrefixStep(changes.keys, n, k);
      MergeFromKeep(current, changes, n - 1, k);
    }
  }

  lemma PrefixStep(ks: seq<string>, n: nat, k: string)
    requires n <= |ks|
    ensures n > 0 ==> (k in ks[..n] <==> k in ks[..n - 1] || k == ks[n - 1])
    ensures n == 0 ==> k !in ks[..n]
  {
    if n > 0 {
      assert ks[..n] == ks[..n - 1] + [ks[n - 1]];
    }
  }

  lemma {:induction false} MergeFromKeys(current: ODict<string, Json>, changes: ODict<string, Json>, n: nat)
    requires n <= |changes.keys|
    ensures |current.keys| <= |MergeFrom(current, changes, n).keys|
    ensures MergeFrom(current, changes, n).keys[..|current.keys|] == current.keys
  {
    if n > 0 {
      MergeFromKeys(current, changes, n - 1);
      var prev := MergeFrom(current, changes, n - 1);
      var r := MergeFrom(current, changes, n);
      assert r.keys[..|current.keys|] == prev.keys[..|current.keys|];
    }
  }

  /**
   * After the merge every key of the changes holds the user's value (an
   * object-typed `fileSetIds` as a shallow copy), every other key holds the
   * current value, and the current keys keep their order at the front.
   */
  lemma MergeSpec(current: ODict<string, Json>, changes: ODict<string, Json>, k: string)
    ensures k in changes.vals ==> (k in Merge(current, changes).vals
      && Merge(current, changes).vals[k] == MergedValue(k, changes.vals[k]))
    ensures k !in changes.vals ==> Get(Merge(current, changes), k) == Get(current, k)
    ensures |current.keys| <= |Merge(current, changes).keys|
    ensures Merge(current, changes).keys[..|current.keys|] == current.keys
  {
    assert changes.keys[..|changes.keys|] == changes.keys;
    assert k in changes.vals <==> k in changes.keys;
    if k in changes.vals {
      MergeFromSet(current, changes, |changes.keys|, k);
    } else {
      MergeFromKeep(current, changes, |changes.keys|, k);
    }
    MergeFromKeys(current, changes, |changes.keys|);
  }

  /** An object given for `fileSetIds` replaces the old one whole: none of the old entries survive. */
  lemma FileSetIdsReplaced(current: ODict<string, Json>, changes: ODict<string, Json>)
    requires "fileSetIds" in changes.vals && changes.vals["fileSetIds"].JObj?
    ensures "fileSetIds" in Merge(current, changes).vals
    ensures Merge(current, changes).vals["fileSetIds"] == changes.vals["fileSetIds"]
  {
    MergeSpec(current, changes, "fileSetIds");
    SpreadObject(changes.vals["fileSetIds"]);
  }

  /** The configuration endpoint's reply is usable when it and its `fData` are truthy. */
  predicate Usable(currentData: Json) {
    var fData := Member(currentData, "fData");
    Truthy(currentData) && fData.Some? && Truthy(fData.value)
  }

  /** The body posted for a controller, from the configuration endpoint's reply and the user's settings. */
  function ConfigToPost(currentData: Json, userSettings: ODict<string, Json>): (r: Result<ODict<string, Json>, string>)
    ensures r.Success? <==> Usable(currentData)
  {
    if !Usable(currentData) then Failure("Invalid response format from configuration endpoint")
    else
      var deviceSettings := OrEmptyObject(Member(Member(currentData, "fData").value, "deviceSettings"));
      Success(Merge(Omit(deviceSettings, ["meta"]), userSettings))
  }

  /** The current `meta` never reaches the posted body: it is there only if the user's settings have one. */
  lemma MetaDropped(currentData: Json, userSettings: ODict<string, Json>)
    requires ConfigToPost(currentData, userSettings).Success?
    ensures "meta" in ConfigToPost(currentData, userSettings).value.vals <==> "meta" in userSettings.vals
  {
    var fData := Member(currentData, "fData").value;
    var deviceSettings := OrEmptyObject(Member(fData, "deviceSettings"));
    OmitSpec(deviceSettings, ["meta"]);
    MergeSpec(Omit(deviceSettings, ["meta"]), userSettings, "meta");
    if !deviceSettings.JObj? {
      assert !Truthy(deviceSettings) || deviceSettings.JArr? || deviceSettings.JStr? || deviceSettings.JBool? || deviceSettings.JNum?;
      OmitNonObject(deviceSettings, ["meta"]);
    }
  }

  /** On an array or a string `omit` sees only index keys, so a non-index key is never kept. */
  lemma OmitNonObject(obj: Json, drop: seq<string>)
    requires !obj.JObj?
    ensures "meta" !in Omit(obj, drop).vals
  {
    var es := Keep(OwnEntries(obj), drop);
    if "meta" in Omit(obj, drop).vals {
      FromPairsFrom(es, "meta");
      var i :| 0 <= i < |es| && es[i].0 == "meta";
      var j :| 0 <= j < |OwnEntries(obj)| && OwnEntries(obj)[j] == es[i];
      DecimalNotMeta(j);
    }
  }

  lemma DecimalNotMeta(j: int)
    ensures IntToDecimal(j) != "meta"
  {
    var s := IntToDecimal(j);
    if j < 0 {
      assert s[0] == '-';
    } else {
      DigitsChars(j);
      if |s| > 0 {
        assert s[0] != 'm';
      }
    }
  }

  lemma {:induction false} DigitsChars(n: nat)
    ensures forall i :: 0 <= i < |Digits(n, 10)| ==> '0' <= Digits(n, 10)[i] <= '9'
    decreases n
  {
    if n >= 10 {
      DigitsChars(n / 10);
    }
  }

  // ---- parseControllerIds -------------------------------------------------------------

  predicate IsDecimalDigits(s: string) {
    |s| > 0 && forall i :: 0 <= i < |s| ==> '0' <= s[i] <= '9'
  }

  /** `Number(s)` for a trimmed, non-empty string written as an optionally signed decimal integer; `None` is `NaN`. */
  function JsNumber(s: string): Option<int> {
    if |s| > 0 && (s[0] == '-' || s[0] == '+') && IsDecimalDigits(s[1..]) then
      var v: int := DigitsValue(s[1..], 10);
      Some(if s[0] == '-' then -v else v)
    else if IsDecimalDigits(s) then Some(DigitsValue(s, 10))
    else None
  }

  /** The numbers the comma-separated parts stand for, in order; empty and non-numeric parts are dropped. */
  function IdsOf(parts: seq<string>): seq<int> {
    if parts == [] then []
    else
      var id := JsTrim(parts[|parts| - 1]);
      IdsOf(parts[..|parts| - 1]) + (if id != "" && JsNumber(id).Some? then [JsNumber(id).value] else [])
  }

  /** `parseControllerIds`. */
  function ParseControllerIds(text: string): seq<int> {
    IdsOf(Split(text, ','))
  }

  /** Parsing keeps the order of the parts: the IDs of two runs of parts are the IDs of each, one after the other. */
  lemma {:induction false} IdsOfConcat(a: seq<string>, b: seq<string>)
    ensures IdsOf(a + b) == IdsOf(a) + IdsOf(b)
    decreases |b|
  {
    if b == [] {
      assert a + b == a;
    } else {
      assert (a + b)[..|a + b| - 1] == a + b[..|b| - 1];
      IdsOfConcat(a, b[..|b| - 1]);
    }
  }

  /** The decimal forms of a list of numbers. */
  function Decimals(ids: seq<int>): (ds: seq<string>)
    ensures |ds| == |ids| && forall i :: 0 <= i < |ids| ==> ds[i] == IntToDecimal(ids[i])
  {
    seq(|ids|, i requires 0 <= i < |ids| => IntToDecimal(ids[i]))
  }

  lemma TrimNoSpace(s: string)
    requires forall i :: 0 <= i < |s| ==> !IsJsSpace(s[i])
    ensures JsTrim(s) == s
  {
    assert SpaceEnd(s, 0) == 0;
    assert SpaceStart(s, 0, |s|) == |s|;
  }

  /** A number written in decimal is read back as itself. */
  lemma DecimalRead(i: int)
    ensures JsTrim(IntToDecimal(i)) == IntToDecimal(i)
    ensures JsNumber(IntToDecimal(i)) == Some(i)
    ensures forall j :: 0 <= j < |IntToDecimal(i)| ==> IntToDecimal(i)[j] != ','
  {
    var s := IntToDecimal(i);
    var n := if i < 0 then -i else i;
    DigitsChars(n);
    DigitsRoundTrip(n, 10);
    if i < 0 {
      assert s[1..] == Digits(n, 10);
    }
    TrimNoSpace(s);
  }

  /** A part that is already trimmed and reads as a number appends that number. */
  lemma IdsOfNumberLast(init: seq<string>, part: string, id: int)
    requires JsTrim(part) == part && part != "" && JsNumber(part) == Some(id)
    ensures IdsOf(init + [part]) == IdsOf(init) + [id]
  {
    assert (init + [part])[..|init|] == init;
  }

  lemma DecimalsSnoc(init: seq<int>, last: int)
    ensures Decimals(init + [last]) == Decimals(init) + [IntToDecimal(last)]
  {
  }

  lemma {:induction false} IdsOfDecimals(ids: seq<int>)
    ensures IdsOf(Decimals(ids)) == ids
  {
    if ids != [] {
      var init, last := ids[..|ids| - 1], ids[|ids| - 1];
      DecimalsSnoc(init, last);
      assert ids == init + [last];
      IdsOfDecimals(init);
      DecimalRead(last);
      IdsOfNumberLast(Decimals(init), IntToDecimal(last), last);
    }
  }

  /** Writing numbers out comma-separated and parsing them gives the same numbers back, in order. */
  lemma ParseIdsRoundTrip(ids: seq<int>)
    ensures ParseControllerIds(Join(Decimals(ids), ",")) == ids
  {
    if ids == [] {
      assert Split("", ',') == [""];
      assert JsTrim("") == "";
    } else {
      forall i, j | 0 <= i < |Decimals(ids)| && 0 <= j < |Decimals(ids)[i]| ensures Decimals(ids)[i][j] != ',' {
        DecimalRead(ids[i]);
      }
      SplitJoin(Decimals(ids), ',');
      IdsOfDecimals(ids);
    }
  }

  /** A part that is blank or not a number contributes nothing, wherever it stands. */
  lemma JunkPartDropped(a: seq<string>, junk: string, b: seq<string>)
    requires JsTrim(junk) == "" || JsNumber(JsTrim(junk)).None?
    ensures IdsOf(a + [junk] + b) == IdsOf(a) + IdsOf(b)
  {
    IdsOfConcat(a + [junk], b);
    IdsOfConcat(a, [junk]);
    IdsOfOne(junk);
  }

  lemma IdsOfOne(p: string)
    ensures IdsOf([p]) == if JsTrim(p) != "" && JsNumber(JsTrim(p)).Some? then [JsNumber(JsTrim(p)).value] else []
  {
    assert [p][..0] == [];
  }

  // ---- form validation -------------------------------------------------------------

  /**
   * `validateJsonInput`: `parsed` is what `JSON.parse` makes of the trimmed
   * text (`None` when it throws). The input must be non-empty and parse to
   * something of object type that is neither an array nor `null`.
   */
  predicate ValidJsonInput(text: string, parsed: Option<Json>) {
    JsTrim(text) != "" && parsed.Some? && IsObjectType(parsed.value) && !parsed.value.JArr? && !parsed.value.JNull?
  }

  /** The accepted inputs are exactly the non-blank texts that parse to an object. */
  lemma ValidJsonIsObject(text: string, parsed: Option<Json>)
    ensures ValidJsonInput(text, parsed) <==> JsTrim(text) != "" && parsed.Some? && parsed.value.JObj?
  {
  }

  /** `getDeviceSettings`: the parsed text, or `{}` for a blank text or one that does not parse. */
  function DeviceSettings(text: string, parsed: Option<Json>): Json {
    if JsTrim(text) == "" || parsed.None? then JObj(Empty()) else parsed.value
  }

  /** `validateForm`: at least one controller ID, a valid JSON object, and at least one setting in it. */
  predicate FormValid(idsText: string, text: string, parsed: Option<Json>) {
    |ParseControllerIds(idsText)| != 0 && ValidJsonInput(text, parsed) && |OwnEntries(DeviceSettings(text, parsed))| != 0
  }

  /** A form passes exactly when it names some controller and its settings are an object with at least one key. */
  lemma FormValidSpec(idsText: string, text: string, parsed: Option<Json>)
    ensures FormValid(idsText, text, parsed) <==>
      (|ParseControllerIds(idsText)| >= 1 && JsTrim(text) != "" && parsed.Some? && parsed.value.JObj?
       && |parsed.value.obj.keys| >= 1)
  {
    if parsed.Some? && parsed.value.JObj? {
      assert |Items(parsed.value.obj)| == |parsed.value.obj.keys|;
    }
  }

  // ---- progress ----------------------------------------------------------------------

  /** `Math.round((completed / total) * 100)`, computed exactly: the nearest integer, halves rounded up. */
  function Progress(completed: nat, total: nat): int
    requires total > 0
  {
    Quotient(200 * completed + total, 2 * total)
  }

  /** Integer division by repeated subtraction, which keeps the arithmetic of the loops that use it linear. */
  function Quotient(a: nat, b: nat): nat
    requires b > 0
    decreases a
  {
    if a < b then 0 else 1 + Quotient(a - b, b)
  }

  lemma {:induction false} QuotientIsDiv(a: nat, b: nat)
    requires b > 0
    ensures Quotient(a, b) == a / b
    decreases a
  {
    if a < b {
      DivModUnique(a, b, 0, a);
    } else {
      QuotientIsDiv(a - b, b);
      var q, r := (a - b) / b, (a - b) % b;
      assert a - b == b * q + r && r < b;
      assert a == b * (q + 1) + r;
      DivModUnique(a, b, q + 1, r);
    }
  }

  /** The progress is the nearest integer to the exact percentage, stays within 0..100 and reaches 100 at the end. */
  lemma ProgressSpec(completed: nat, total: nat)
    requires total > 0 && completed <= total
    ensures 2 * total * Progress(completed, total) <= 200 * completed + total < 2 * total * (Progress(completed, total) + 1)
    ensures 0 <= Progress(completed, total) <= 100
    ensures completed == total ==> Progress(completed, total) == 100
  {
    var q := Progress(completed, total);
    var d := 2 * total;
    var v := 200 * completed + total;
    QuotientIsDiv(v, d);
    assert v == d * q + v % d && 0 <= v % d < d;
    assert d * (q + 1) == d * q + d;
    assert v < d * 101 by {
      MulLe(200, completed, total);
    }
    if q > 100 {
      MulLe(d, 101, q);
    }
    if completed == total {
      DivModUnique(v, d, 100, total);
    }
  }

  /** One more completed controller never makes the progress go down. */
  lemma ProgressMonotone(a: nat, b: nat, total: nat)
    requires total > 0 && a <= b
    ensures Progress(a, total) <= Progress(b, total)
  {
    QuotientIsDiv(200 * a + total, 2 * total);
    QuotientIsDiv(200 * b + total, 2 * total);
    DivMonotone(200 * a + total, 200 * b + total, 2 * total);
  }

  lemma DivMonotone(x: nat, y: nat, d: nat)
    requires d > 0 && x <= y
    ensures x / d <= y / d
  {
    var qx, qy := x / d, y / d;
    DivModBounds(x, d);
    DivModBounds(y, d);
    if qx > qy {
      MulLe(d, qy + 1, qx);
    }
  }

  // ---- the settings pass ------------------------------------------------------------

  /** The replies one controller's settings requests get: the configuration (`None` when the GET fails) and whether the POST succeeded. */
  datatype SettingsReply = SettingsReply(current: Option<Json>, postOk: bool)

  /** The body posted for a controller, when its configuration arrives in a usable form. */
  function BodyOf(reply: SettingsReply, userSettings: ODict<string, Json>): Option<ODict<string, Json>> {
    if reply.current.None? then None
    else
      var r := ConfigToPost(reply.current.value, userSettings);
      if r.Success? then Some(r.value) else None
  }

  /** A controller is updated when its configuration is usable and the post of the merged body succeeds. */
  predicate SettingsOk(reply: SettingsReply) {
    reply.current.Some? && Usable(reply.current.value) && reply.postOk
  }

  /** The first `n` IDs whose flag is `want`, in their order. */
  function SelectUpTo(ids: seq<int>, oks: seq<bool>, want: bool, n: nat): seq<int>
    requires |oks| == |ids| && n <= |ids|
  {
    if n == 0 then []
    else SelectUpTo(ids, oks, want, n - 1) + (if oks[n - 1] == want then [ids[n - 1]] else [])
  }

  /** The IDs whose flag is `want`, in their order. */
  function Select(ids: seq<int>, oks: seq<bool>, want: bool): seq<int>
    requires |oks| == |ids|
  {
    SelectUpTo(ids, oks, want, |ids|)
  }

  /** Every controller lands in exactly one of the two lists. */
  lemma SelectPartition(ids: seq<int>, oks: seq<bool>)
    requires |oks| == |ids|
    ensures |Select(ids, oks, true)| + |Select(ids, oks, false)| == |ids|
    ensures multiset(Select(ids, oks, true)) + multiset(Select(ids, oks, false)) == multiset(ids)
  {
    SelectMultiset(ids, oks, |ids|);
    assert ids[..|ids|] == ids;
    assert |multiset(ids)| == |ids|;
  }

  lemma {:induction false} SelectMultiset(ids: seq<int>, oks: seq<bool>, n: nat)
    requires |oks| == |ids| && n <= |ids|
    ensures multiset(SelectUpTo(ids, oks, true, n)) + multiset(SelectUpTo(ids, oks, false, n)) == multiset(ids[..n])
  {
    if n > 0 {
      var x, ok, pre := ids[n - 1], oks[n - 1], ids[..n - 1];
      var t, f := SelectUpTo(ids, oks, true, n - 1), SelectUpTo(ids, oks, false, n - 1);
      assert multiset(t) + multiset(f) == multiset(pre) by {
        SelectMultiset(ids, oks, n - 1);
      }
      assert ids[..n] == pre + [x];
      SplitStep(t, f, pre, x, ok);
    }
  }

  lemma SplitStep(t: seq<int>, f: seq<int>, pre: seq<int>, x: int, ok: bool)
    requires multiset(t) + multiset(f) == multiset(pre)
    ensures multiset(t + (if ok then [x] else [])) + multiset(f + (if ok then [] else [x])) == multiset(pre + [x])
  {
  }

  /** Each controller is in the list its flag names. */
  lemma {:induction false} SelectHas(ids: seq<int>, oks: seq<bool>, n: nat, i: int)
    requires |oks| == |ids| && 0 <= i < n <= |ids|
    ensures ids[i] in SelectUpTo(ids, oks, oks[i], n)
  {
    if i < n - 1 {
      SelectHas(ids, oks, n - 1, i);
    }
  }

  /** No failures means every controller was updated. */
  lemma {:induction false} NoFailuresAllUpdated(ids: seq<int>, oks: seq<bool>, n: nat)
    requires |oks| == |ids| && n <= |ids| && SelectUpTo(ids, oks, false, n) == []
    ensures SelectUpTo(ids, oks, true, n) == ids[..n]
  {
    if n > 0 {
      NoFailuresAllUpdated(ids, oks, n - 1);
      assert ids[..n] == ids[..n - 1] + [ids[n - 1]];
    }
  }

  function SettingsOks(replies: seq<SettingsReply>): (oks: seq<bool>)
    ensures |oks| == |replies| && forall i :: 0 <= i < |replies| ==> oks[i] == SettingsOk(replies[i])
  {
    seq(|replies|, i requires 0 <= i < |replies| => SettingsOk(replies[i]))
  }

  /** The bodies posted for the first `n` controllers, with the controller each went to. */
  function BodiesUpTo(ids: seq<int>, replies: seq<SettingsReply>, userSettings: ODict<string, Json>, n: nat): seq<(int, ODict<string, Json>)>
    requires |replies| == |ids| && n <= |ids|
  {
    if n == 0 then []
    else
      var b := BodyOf(replies[n - 1], userSettings);
      BodiesUpTo(ids, replies, userSettings, n - 1) + (if b.Some? then [(ids[n - 1], b.value)] else [])
  }

  function Bodies(ids: seq<int>, replies: seq<SettingsReply>, userSettings: ODict<string, Json>): seq<(int, ODict<string, Json>)>
    requires |replies| == |ids|
  {
    BodiesUpTo(ids, replies, userSettings, |ids|)
  }

  /** Every posted body keeps the user's settings and drops the current `meta`. */
  lemma {:induction false} BodiesMerged(ids: seq<int>, replies: seq<SettingsReply>, userSettings: ODict<string, Json>, n: nat, j: int)
    requires |replies| == |ids| && n <= |ids| && 0 <= j < |BodiesUpTo(ids, replies, userSettings, n)|
    ensures exists i :: (0 <= i < n && BodiesUpTo(ids, replies, userSettings, n)[j].0 == ids[i]
      && replies[i].current.Some? && ConfigToPost(replies[i].current.value, userSettings).Success?
      && BodiesUpTo(ids, replies, userSettings, n)[j].1 == ConfigToPost(replies[i].current.value, userSettings).value)
  {
    var prev := BodiesUpTo(ids, replies, userSettings, n - 1);
    if j < |prev| {
      BodiesMerged(ids, replies, userSettings, n - 1, j);
    } else {
      assert BodiesUpTo(ids, replies, userSettings, n)[j].0 == ids[n - 1];
    }
  }

  /** The button rule after the settings pass: whether `scheduleUpdateBtn` stays disabled. */
  function ScheduleDisabledAfter(updated: seq<int>, failed: seq<int>, checked: bool): bool {
    if |failed| == 0 then !checked else !(|updated| > 0 && checked)
  }

  /** The schedule button is enabled exactly when the firmware box is ticked and either nothing failed or something succeeded. */
  lemma ScheduleButtonRule(updated: seq<int>, failed: seq<int>, checked: bool)
    ensures !ScheduleDisabledAfter(updated, failed, checked) <==> checked && (|failed| == 0 || |updated| > 0)
  {
  }

  /**
   * The body of the loop of `updateDeviceSettings` for one controller: check
   * the configuration reply, drop its `meta`, merge in the user's settings
   * and post. `ok` says whether the controller counts as updated.
   */
  method ProcessController(reply: SettingsReply, userSettings: ODict<string, Json>)
    returns (body: Option<ODict<string, Json>>, ok: bool)
    ensures body == BodyOf(reply, userSettings)
    ensures ok == SettingsOk(reply)
  {
    if reply.current.None? {
      return None, false;
    }
    var currentData := reply.current.value;
    var fData := Member(currentData, "fData");
    if !Truthy(currentData) || fData.None? || !Truthy(fData.value) {
      return None, false;
    }
    var fullConfigNoFilesets := Omit(OrEmptyObject(Member(fData.value, "deviceSettings")), ["meta"]);
    var mergedConfig := MergeConfigurations(fullConfigNoFilesets, userSettings);
    body := Some(mergedConfig);
    ok := reply.postOk;
  }

  /** One turn of the loop of `updateDeviceSettings`: the lists grow by controller `k`'s outcome. */
  method SettingsStep(ids: seq<int>, userSettings: ODict<string, Json>, replies: seq<SettingsReply>, k: nat,
                      updated: seq<int>, failed: seq<int>, bodies: seq<(int, ODict<string, Json>)>)
    returns (updated': seq<int>, failed': seq<int>, bodies': seq<(int, ODict<string, Json>)>)
    requires |replies| == |ids| && k < |ids|
    requires updated == SelectUpTo(ids, SettingsOks(replies), true, k)
    requires failed == SelectUpTo(ids, SettingsOks(replies), false, k)
    requires bodies == BodiesUpTo(ids, replies, userSettings, k)
    ensures updated' == SelectUpTo(ids, SettingsOks(replies), true, k + 1)
    ensures failed' == SelectUpTo(ids, SettingsOks(replies), false, k + 1)
    ensures bodies' == BodiesUpTo(ids, replies, userSettings, k + 1)
  {
    var body, ok := ProcessController(replies[k], userSettings);
    bodies' := if body.Some? then bodies + [(ids[k], body.value)] else bodies;
    if ok {
      updated', failed' := updated + [ids[k]], failed;
    } else {
      updated', failed' := updated, failed + [ids[k]];
    }
  }

  /**
   * The loop of `updateDeviceSettings`: fetch, merge and post for each controller
   * in turn, sorting it into updated or failed and recording the progress.
   */
  method SettingsPass(ids: seq<int>, userSettings: ODict<string, Json>, replies: seq<SettingsReply>, progress0: int)
    returns (updated: seq<int>, failed: seq<int>, bodies: seq<(int, ODict<string, Json>)>, progress: int)
    requires |replies| == |ids|
    ensures updated == Select(ids, SettingsOks(replies), true)
    ensures failed == Select(ids, SettingsOks(replies), false)
    ensures bodies == Bodies(ids, replies, userSettings)
    ensures progress == if ids == [] then progress0 else Progress(|ids|, |ids|)
  {
    updated, failed, bodies, progress := [], [], [], progress0;
    var completedCount := 0;
    while completedCount < |ids|
      invariant completedCount <= |ids|
      invariant updated == SelectUpTo(ids, SettingsOks(replies), true, completedCount)
      invariant failed == SelectUpTo(ids, SettingsOks(replies), false, completedCount)
      invariant bodies == BodiesUpTo(ids, replies, userSettings, completedCount)
      invariant progress == if completedCount == 0 then progress0 else Progress(completedCount, |ids|)
    {
      updated, failed, bodies := SettingsStep(ids, userSettings, replies, completedCount, updated, failed, bodies);
      completedCount := completedCount + 1;
      progress := Progress(completedCount, |ids|);
    }
  }

  // ---- scheduleUpdate ---------------------------------------------------------------

  /** The body of `POST /f-updates` for one controller. */
  datatype PlanPayload = PlanPayload(controllerId: int, customField1: string, comment: string,
                                     configType: string, mainFw: Option<string>)

  const DefaultComment := "Publisher Update"

  /** The form inputs of the firmware card, as typed. */
  datatype FirmwareForm = FirmwareForm(firmwareVersion: string, updateType: string, customField1: string, comment: string)

  function PayloadFor(controllerId: int, form: FirmwareForm): PlanPayload {
    var version := JsTrim(form.firmwareVersion);
    var comment := JsTrim(form.comment);
    PlanPayload(controllerId, JsTrim(form.customField1), if comment != "" then comment else DefaultComment,
                form.updateType, if version != "" then Some(version) else None)
  }

  /**
   * The payload carries the trimmed inputs and the select's value as they are,
   * the comment falls back to "Publisher Update" when blank, and `fwUpdates`
   * is present exactly when a version was typed.
   */
  lemma PayloadForSpec(controllerId: int, form: FirmwareForm)
    ensures PayloadFor(controllerId, form).controllerId == controllerId
    ensures PayloadFor(controllerId, form).customField1 == JsTrim(form.customField1)
    ensures PayloadFor(controllerId, form).configType == form.updateType
    ensures JsTrim(form.comment) == "" ==> PayloadFor(controllerId, form).comment == DefaultComment
    ensures JsTrim(form.comment) != "" ==> PayloadFor(controllerId, form).comment == JsTrim(form.comment)
    ensures PayloadFor(controllerId, form).mainFw.Some? <==> JsTrim(form.firmwareVersion) != ""
    ensures PayloadFor(controllerId, form).mainFw.Some? ==> PayloadFor(controllerId, form).mainFw.value == JsTrim(form.firmwareVersion)
  {
  }

  /** The replies one controller's firmware requests get: the plan creation, then the activation. */
  datatype PlanReply = PlanReply(create: UC.CreateReply, activated: bool)

  /** A plan counts as scheduled when it was created with a truthy ID and then activated. */
  predicate PlanOk(reply: PlanReply) {
    reply.create.Created? && UC.Truthy(reply.create.id) && reply.activated
  }

  function PlanOks(replies: seq<PlanReply>): (oks: seq<bool>)
    ensures |oks| == |replies| && forall i :: 0 <= i < |replies| ==> oks[i] == PlanOk(replies[i])
  {
    seq(|replies|, i requires 0 <= i < |replies| => PlanOk(replies[i]))
  }

  /** The activation request goes out only after a creation reply with a truthy ID, to that plan's URL. */
  function ActivateUrl(reply: PlanReply): (url: Option<string>)
    ensures url.Some? <==> reply.create.Created? && UC.Truthy(reply.create.id)
    ensures url.Some? ==> url.value == "/f-updates/" + UC.IdText(reply.create.id) + "/activate"
  {
    if reply.create.Created? && UC.Truthy(reply.create.id) then Some("/f-updates/" + UC.IdText(reply.create.id) + "/activate") else None
  }

  /** One turn of the loop of `scheduleUpdate`: controller `k`'s payload is sent and it lands in one of the lists. */
  method ScheduleStep(ids: seq<int>, form: FirmwareForm, replies: seq<PlanReply>, k: nat,
                      payloads: seq<PlanPayload>, fwUpdated: seq<int>, fwFailed: seq<int>)
    returns (payloads': seq<PlanPayload>, fwUpdated': seq<int>, fwFailed': seq<int>)
    requires |replies| == |ids| && k < |ids|
    requires |payloads| == k && forall i :: 0 <= i < k ==> payloads[i] == PayloadFor(ids[i], form)
    requires fwUpdated == SelectUpTo(ids, PlanOks(replies), true, k)
    requires fwFailed == SelectUpTo(ids, PlanOks(replies), false, k)
    ensures |payloads'| == k + 1 && forall i :: 0 <= i < k + 1 ==> payloads'[i] == PayloadFor(ids[i], form)
    ensures fwUpdated' == SelectUpTo(ids, PlanOks(replies), true, k + 1)
    ensures fwFailed' == SelectUpTo(ids, PlanOks(replies), false, k + 1)
  {
    payloads' := payloads + [PayloadFor(ids[k], form)];
    var reply := replies[k];
    if reply.create.Created? && UC.Truthy(reply.create.id) && reply.activated {
      fwUpdated', fwFailed' := fwUpdated + [ids[k]], fwFailed;
    } else {
      fwUpdated', fwFailed' := fwUpdated, fwFailed + [ids[k]];
    }
  }

  /** The loop of `scheduleUpdate`: one plan per updated controller. */
  method SchedulePass(ids: seq<int>, form: FirmwareForm, replies: seq<PlanReply>, progress0: int)
    returns (payloads: seq<PlanPayload>, fwUpdated: seq<int>, fwFailed: seq<int>, progress: int)
    requires |replies| == |ids|
    ensures |payloads| == |ids| && forall i :: 0 <= i < |ids| ==> payloads[i] == PayloadFor(ids[i], form)
    ensures fwUpdated == Select(ids, PlanOks(replies), true)
    ensures fwFailed == Select(ids, PlanOks(replies), false)
    ensures progress == if ids == [] then progress0 else Progress(|ids|, |ids|)
  {
    payloads, fwUpdated, fwFailed, progress := [], [], [], progress0;
    var completedCount := 0;
    while completedCount < |ids|
      invariant completedCount <= |ids|
      invariant |payloads| == completedCount && forall i :: 0 <= i < completedCount ==> payloads[i] == PayloadFor(ids[i], form)
      invariant fwUpdated == SelectUpTo(ids, PlanOks(replies), true, completedCount)
      invariant fwFailed == SelectUpTo(ids, PlanOks(replies), false, completedCount)
      invariant progress == if completedCount == 0 then progress0 else Progress(completedCount, |ids|)
    {
      payloads, fwUpdated, fwFailed := ScheduleStep(ids, form, replies, completedCount, payloads, fwUpdated, fwFailed);
      completedCount := completedCount + 1;
      progress := Progress(completedCount, |ids|);
    }
  }

  // ---- the updater's state -------------------------------------------------------------

  class Updater {
    var updatedControllers: seq<int>
    var failedControllers: seq<int>
    var currentProgress: int
    var scheduleDisabled: bool
    var filesetsDisabled: bool

    /** Fresh page state. The constructor sets only the lists and the progress; the button flags stand for the page's initial markup (schedule disabled, as `resetForm` sets it; file sets enabled). */
    constructor ()
      ensures updatedControllers == [] && failedControllers == [] && currentProgress == 0
      ensures scheduleDisabled && !filesetsDisabled
    {
      updatedControllers := [];
      failedControllers := [];
      currentProgress := 0;
      scheduleDisabled := true;
      filesetsDisabled := false;
    }

    /** `updateDeviceSettings`: appends each controller to updated or failed, sets the progress, then applies the button rule. */
    method UpdateDeviceSettings(controllerIds: seq<int>, userSettings: ODict<string, Json>, replies: seq<SettingsReply>, checked: bool)
      returns (bodies: seq<(int, ODict<string, Json>)>)
      requires |replies| == |controllerIds|
      modifies this
      ensures updatedControllers == old(updatedControllers) + Select(controllerIds, SettingsOks(replies), true)
      ensures failedControllers == old(failedControllers) + Select(controllerIds, SettingsOks(replies), false)
      ensures bodies == Bodies(controllerIds, replies, userSettings)
      ensures currentProgress == if controllerIds == [] then old(currentProgress) else Progress(|controllerIds|, |controllerIds|)
      ensures scheduleDisabled == ScheduleDisabledAfter(updatedControllers, failedControllers, checked)
      ensures filesetsDisabled == old(filesetsDisabled)
    {
      var updated, failed, progress;
      updated, failed, bodies, progress := SettingsPass(controllerIds, userSettings, replies, currentProgress);
      updatedControllers := updatedControllers + updated;
      failedControllers := failedControllers + failed;
      currentProgress := progress;
      if |failedControllers| == 0 {
        scheduleDisabled := !checked;
      } else {
        scheduleDisabled := !(|updatedControllers| > 0 && checked);
      }
    }

    /** `startUpdateProcess`, which runs only after the form passed: the lists and the progress are reset, then the settings pass runs. */
    method StartUpdateProcess(idsText: string, text: string, parsed: Option<Json>, replies: seq<SettingsReply>, checked: bool)
      returns (bodies: seq<(int, ODict<string, Json>)>)
      requires FormValid(idsText, text, parsed)
      requires |replies| == |ParseControllerIds(idsText)|
      modifies this
      ensures parsed.Some? && parsed.value.JObj?
      ensures updatedControllers == Select(ParseControllerIds(idsText), SettingsOks(replies), true)
      ensures failedControllers == Select(ParseControllerIds(idsText), SettingsOks(replies), false)
      ensures bodies == Bodies(ParseControllerIds(idsText), replies, parsed.value.obj)
      ensures currentProgress == 100
      ensures scheduleDisabled == ScheduleDisabledAfter(updatedControllers, failedControllers, checked)
      ensures filesetsDisabled == old(filesetsDisabled)
    {
      FormValidSpec(idsText, text, parsed);
      var ids := ParseControllerIds(idsText);
      var settings := DeviceSettings(text, parsed);
      updatedControllers := [];
      failedControllers := [];
      currentProgress := 0;
      ProgressSpec(|ids|, |ids|);
      bodies := UpdateDeviceSettings(ids, settings.obj, replies, checked);
    }

    /** The form's submit handler: a form that does not pass changes nothing. */
    method Submit(idsText: string, text: string, parsed: Option<Json>, replies: seq<SettingsReply>, checked: bool)
      returns (started: bool, bodies: seq<(int, ODict<string, Json>)>)
      requires |replies| == |ParseControllerIds(idsText)|
      modifies this
      ensures started == FormValid(idsText, text, parsed)
      ensures !started ==> bodies == [] && unchanged(this)
      ensures started ==> (currentProgress == 100
        && |updatedControllers| + |failedControllers| == |ParseControllerIds(idsText)|
        && multiset(updatedControllers) + multiset(failedControllers) == multiset(ParseControllerIds(idsText)))
    {
      started := FormValid(idsText, text, parsed);
      if !started {
        return started, [];
      }
      bodies := StartUpdateProcess(idsText, text, parsed, replies, checked);
      SelectPartition(ParseControllerIds(idsText), SettingsOks(replies));
    }

    /** `resetForm`: empty lists, progress 0, schedule button disabled. */
    method ResetForm()
      modifies this
      ensures updatedControllers == [] && failedControllers == [] && currentProgress == 0
      ensures scheduleDisabled && filesetsDisabled == old(filesetsDisabled)
    {
      currentProgress := 0;
      scheduleDisabled := true;
      updatedControllers := [];
      failedControllers := [];
    }

    /**
     * `scheduleUpdate`: nothing happens without updated controllers; otherwise
     * one plan per updated controller, the progress reaches 100 and both
     * buttons are enabled again.
     */
    method ScheduleUpdate(form: FirmwareForm, replies: seq<PlanReply>)
      returns (payloads: seq<PlanPayload>, fwUpdated: seq<int>, fwFailed: seq<int>)
      requires |replies| == |updatedControllers|
      modifies this
      ensures updatedControllers == old(updatedControllers) && failedControllers == old(failedControllers)
      ensures old(updatedControllers) == [] ==> (payloads == [] && fwUpdated == [] && fwFailed == []
        && currentProgress == old(currentProgress) && scheduleDisabled == old(scheduleDisabled)
        && filesetsDisabled == old(filesetsDisabled))
      ensures old(updatedControllers) != [] ==> (|payloads| == |updatedControllers|
        && (forall i :: 0 <= i < |payloads| ==> payloads[i] == PayloadFor(updatedControllers[i], form))
        && fwUpdated == Select(updatedControllers, PlanOks(replies), true)
        && fwFailed == Select(updatedControllers, PlanOks(replies), false)
        && currentProgress == 100 && !scheduleDisabled && !filesetsDisabled)
    {
      if |updatedControllers| == 0 {
        return [], [], [];
      }
      scheduleDisabled := true;
      filesetsDisabled := true;
      var progress;
      payloads, fwUpdated, fwFailed, progress := SchedulePass(updatedControllers, form, replies, currentProgress);
      ProgressSpec(|updatedControllers|, |updatedControllers|);
      currentProgress := progress;
      scheduleDisabled := false;
      filesetsDisabled := false;
    }
  }
}
