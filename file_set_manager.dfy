/**
 * The file-set manager page: it lists the project's file sets with a search
 * box, shows one set's files, and uploads picked files into the current set.
 * Every HTTP reply and every file read is an input.
 */
module FileSetManager {
  import opened Wrappers
  import opened Strings
  import opened Dicts
  import opened JsonValues

  // ---- file sets and the search filter ------------------------------------------------

  datatype Creator = Creator(name: string)

  /** A file set as the list endpoint returns it; `filesStats` maps a file type to its count. */
  datatype FileSet = FileSet(id: int, name: string, group: string, creator: Option<Creator>,
                             filesStats: Option<ODict<string, int>>)

  /** `toLowerCase` on the ASCII letters. */
  function LowerChar(c: char): char {
    if 'A' <= c <= 'Z' then (c as int + 32) as char else c
  }

  function Lower(s: string): (r: string)
    ensures |r| == |s| && forall i :: 0 <= i < |s| ==> r[i] == LowerChar(s[i])
  {
    seq(|s|, i requires 0 <= i < |s| => LowerChar(s[i]))
  }

  /** Lower-casing twice is lower-casing once. */
  lemma LowerIdempotent(s: string)
    ensures Lower(Lower(s)) == Lower(s)
  {
  }

  /** The test a set passes for a non-empty search term: the term, lower-cased, occurs in the lower-cased name, group or creator's name. */
  predicate Matches(fs: FileSet, filter: string) {
    var searchLower := Lower(filter);
    Contains(Lower(fs.name), searchLower) || Contains(Lower(fs.group), searchLower)
    || (fs.creator.Some? && Contains(Lower(fs.creator.value.name), searchLower))
  }

  /** The sets `renderFileSets` shows for a search term, in list order. */
  function FilterSets(sets: seq<FileSet>, filter: string): (r: seq<FileSet>)
    ensures forall i :: 0 <= i < |r| ==> r[i] in sets && (filter == "" || Matches(r[i], filter))
  {
    if sets == [] then []
    else
      var last := sets[|sets| - 1];
      FilterSets(sets[..|sets| - 1], filter) + (if filter == "" || Matches(last, filter) then [last] else [])
  }

  /** An empty search term shows every set in its order. */
  lemma {:induction false} EmptyFilterKeepsAll(sets: seq<FileSet>)
    ensures FilterSets(sets, "") == sets
  {
    if sets != [] {
      EmptyFilterKeepsAll(sets[..|sets| - 1]);
    }
  }

  /** Every set that matches is shown. */
  lemma {:induction false} FilterComplete(sets: seq<FileSet>, filter: string, i: int)
    requires 0 <= i < |sets| && Matches(sets[i], filter)
    ensures sets[i] in FilterSets(sets, filter)
  {
    if i < |sets| - 1 {
      FilterComplete(sets[..|sets| - 1], filter, i);
    }
  }

  /** Filtering keeps the list order: the shown sets of two runs of sets are those of each, one after the other. */
  lemma {:induction false} FilterConcat(a: seq<FileSet>, b: seq<FileSet>, filter: string)
    ensures FilterSets(a + b, filter) == FilterSets(a, filter) + FilterSets(b, filter)
    decreases |b|
  {
    if b == [] {
      assert a + b == a;
    } else {
      assert (a + b)[..|a + b| - 1] == a + b[..|b| - 1];
      FilterConcat(a, b[..|b| - 1], filter);
    }
  }

  /** The search ignores the case of the term. */
  lemma MatchesIgnoresCase(fs: FileSet, filter: string)
    ensures Matches(fs, filter) <==> Matches(fs, Lower(filter))
  {
    LowerIdempotent(filter);
  }

  // ---- file counts --------------------------------------------------------------------

  function SumOf(xs: seq<int>): int {
    if xs == [] then 0 else SumOf(xs[..|xs| - 1]) + xs[|xs| - 1]
  }

  /** `Object.values(d)`, in key order. */
  function Values(d: ODict<string, int>): (vs: seq<int>)
    ensures |vs| == |d.keys| && forall i :: 0 <= i < |vs| ==> vs[i] == ItemAt(d, i).1
  {
    seq(|d.keys|, i requires 0 <= i < |d.keys| => ItemAt(d, i).1)
  }

  /** The badge count of a set: the sum of its per-type counts, 0 without `filesStats`. */
  function TotalFiles(fs: FileSet): int {
    if fs.filesStats.None? then 0 else SumOf(Values(fs.filesStats.value))
  }

  lemma {:induction false} SumOfSnoc(xs: seq<int>, x: int)
    ensures SumOf(xs + [x]) == SumOf(xs) + x
  {
    assert (xs + [x])[..|xs|] == xs;
  }

  /** A new file type with `c` files adds exactly `c` to the total. */
  lemma TotalFilesPut(fs: FileSet, d: ODict<string, int>, k: string, c: int)
    requires fs.filesStats == Some(d) && k !in d.vals
    ensures TotalFiles(fs.(filesStats := Some(Put(d, k, c)))) == TotalFiles(fs) + c
  {
    var d2 := Put(d, k, c);
    assert d2.keys == d.keys + [k];
    forall i | 0 <= i < |d.keys| ensures Values(d2)[i] == Values(d)[i] {
      assert d2.keys[i] == d.keys[i];
      assert d.keys[i] != k by {
        assert d.keys[i] in d.vals;
      }
    }
    assert Values(d2) == Values(d) + [c];
    SumOfSnoc(Values(d), c);
  }

  /** With no negative counts, each count is at most the total. */
  lemma {:induction false} SumOfBounds(xs: seq<int>)
    requires forall i :: 0 <= i < |xs| ==> xs[i] >= 0
    ensures SumOf(xs) >= 0
    ensures forall i :: 0 <= i < |xs| ==> xs[i] <= SumOf(xs)
  {
    if xs != [] {
      SumOfBounds(xs[..|xs| - 1]);
      assert forall i :: 0 <= i < |xs| - 1 ==> xs[..|xs| - 1][i] == xs[i];
    }
  }

  // ---- makeRequest --------------------------------------------------------------------

  /** The `body` argument: a value to be sent as JSON, or a form. */
  datatype BodyArg = JsonArg(v: Json) | FormArg(fields: seq<(string, string)>)

  /** What goes into `options.body`: the argument itself, or the argument through `JSON.stringify`. */
  datatype SentBody = AsIs(arg: BodyArg) | Stringified(arg: BodyArg)

  datatype Request = Request(url: string, verb: string, headers: ODict<string, string>, body: Option<SentBody>)

  /** `if (body)`: a form is an object and always truthy. */
  predicate BodyTruthy(b: BodyArg) {
    b.FormArg? || Truthy(b.v)
  }

  /** The request `makeRequest` hands to `fetch`. */
  function MakeRequest(baseUrl: string, apiKey: string, projectId: string, endpoint: string, verb: string,
                       body: Option<BodyArg>, isFormData: bool): Request {
    var headers := Put(Put(Empty(), "api-key", apiKey), "project-id", projectId);
    var headers := if !isFormData then Put(headers, "Content-Type", "application/json") else headers;
    var sent := if body.Some? && BodyTruthy(body.value) then Some(if isFormData then AsIs(body.value) else Stringified(body.value)) else None;
    Request(baseUrl + endpoint, verb, headers, sent)
  }

  /**
   * Every request carries the API key and the project ID; `Content-Type:
   * application/json` is added exactly when the body is not a form; a truthy
   * body is sent, through `JSON.stringify` exactly when it is not a form.
   */
  lemma MakeRequestSpec(baseUrl: string, apiKey: string, projectId: string, endpoint: string, verb: string,
                        body: Option<BodyArg>, isFormData: bool)
    ensures var r := MakeRequest(baseUrl, apiKey, projectId, endpoint, verb, body, isFormData);
      && r.url == baseUrl + endpoint && r.verb == verb
      && Get(r.headers, "api-key") == Some(apiKey) && Get(r.headers, "project-id") == Some(projectId)
      && ("Content-Type" in r.headers.vals <==> !isFormData)
      && (!isFormData ==> r.headers.vals["Content-Type"] == "application/json")
      && (r.body.Some? <==> body.Some? && BodyTruthy(body.value))
      && (r.body.Some? ==> r.body.value.arg == body.value && (r.body.value.Stringified? <==> !isFormData))
  {
  }

  /** What `fetch` answers: `json` is what `response.json()` gives, or the message of the error it throws. */
  datatype Response = Response(ok: bool, status: int, text: string, json: Result<Json, string>)

  /** The reply `makeRequest` resolves with: `None` is `null`. */
  function HandleResponse(r: Response): (res: Result<Option<Json>, string>)
    ensures !r.ok ==> res == Failure("HTTP " + IntToDecimal(r.status) + ": " + r.text)
  {
    if !r.ok then Failure("HTTP " + IntToDecimal(r.status) + ": " + r.text)
    else if r.status == 204 then Success(None)
    else if r.json.Failure? then Failure(r.json.error)
    else Success(Some(r.json.value))
  }

  /** A reply fails exactly when its status is not OK or its body does not parse; a 204 resolves with `null`. */
  lemma HandleResponseSpec(r: Response)
    ensures HandleResponse(r).Failure? <==> !r.ok || (r.status != 204 && r.json.Failure?)
    ensures r.ok && r.status == 204 ==> HandleResponse(r) == Success(None)
    ensures r.ok && r.status != 204 && r.json.Success? ==> HandleResponse(r) == Success(Some(r.json.value))
    ensures r.ok && r.status != 204 && r.json.Failure? ==> HandleResponse(r) == Failure(r.json.error)
  {
  }

  // ---- data URLs ----------------------------------------------------------------------

  /** `reader.result.split(',')[1]`: the text after the first comma up to the next one; `None` is `undefined`. */
  function Base64Of(dataUrl: string): (r: Option<string>)
    ensures r.Some? <==> |Split(dataUrl, ',')| >= 2
  {
    var parts := Split(dataUrl, ',');
    if |parts| >= 2 then Some(parts[1]) else None
  }

  /** The data URL `getFileDataUrl` builds from a file's base64 content. */
  function JpegDataUrl(base64: string): string {
    "data:image/jpeg;base64," + base64
  }

  predicate NoComma(s: string) {
    forall i :: 0 <= i < |s| ==> s[i] != ','
  }

  /**
   * For a data URL of the form in section 3 of RFC 2397, `data:` media type
   * `;base64,` data, with no comma in the media type or the data, the reader
   * gets exactly the data back.
   */
  lemma Base64OfDataUrl(mediaType: string, data: string)
    requires NoComma(mediaType) && NoComma(data)
    ensures Base64Of("data:" + mediaType + ";base64," + data) == Some(data)
  {
    var prefix := "data:" + mediaType + ";base64";
    assert NoComma(prefix) by {
      forall i | 0 <= i < |prefix| ensures prefix[i] != ',' {
        if 5 <= i < 5 + |mediaType| {
          assert prefix[i] == mediaType[i - 5];
        }
      }
    }
    assert "data:" + mediaType + ";base64," + data == Join([prefix, data], ",");
    SplitJoin([prefix, data], ',');
  }

  /** Reading back a thumbnail's data URL recovers the base64 content. */
  lemma JpegRoundTrip(base64: string)
    requires NoComma(base64)
    ensures Base64Of(JpegDataUrl(base64)) == Some(base64)
  {
    var prefix := "data:image/jpeg;base64";
    assert JpegDataUrl(base64) == Join([prefix, base64], ",");
    SplitJoin([prefix, base64], ',');
  }

  /** `getFileDataUrl`: a data URL when the reply has content, `null` otherwise. */
  function FileDataUrl(reply: Result<Option<Json>, string>): (r: Option<string>)
    ensures r.Some? <==> reply.Success? && reply.value.Some? && Member(reply.value.value, "dataBinBase64").Some?
                         && Member(reply.value.value, "dataBinBase64").value.JStr?
                         && Member(reply.value.value, "dataBinBase64").value.s != ""
    ensures r.Some? ==> r.value == JpegDataUrl(Member(reply.value.value, "dataBinBase64").value.s)
  {
    if reply.Success? && reply.value.Some? then
      var b := Member(reply.value.value, "dataBinBase64");
      if b.Some? && b.value.JStr? && b.value.s != "" then Some(JpegDataUrl(b.value.s)) else None
    else None
  }

  // ---- toasts -------------------------------------------------------------------------

  const Icons: map<string, string> :=
    map["success" := "check-circle-fill", "error" := "x-circle-fill", "info" := "info-circle-fill"]

  /** `getToastIcon`: the icon for the type, or the info icon. */
  function ToastIcon(kind: string): string {
    if kind in Icons && Icons[kind] != "" then Icons[kind] else Icons["info"]
  }

  /** The three known types get their own icons; anything else falls back to the info icon. */
  lemma ToastIconSpec(kind: string)
    ensures kind == "success" ==> ToastIcon(kind) == "check-circle-fill"
    ensures kind == "error" ==> ToastIcon(kind) == "x-circle-fill"
    ensures kind != "success" && kind != "error" ==> ToastIcon(kind) == "info-circle-fill"
  {
  }

  datatype ToastKind = SuccessToast | InfoToast | ErrorToast
  datatype Toast = Toast(kind: ToastKind, message: string)

  // ---- uploads ------------------------------------------------------------------------

  /** A picked file: its name and the data URL the reader produces for it. */
  datatype PickedFile = PickedFile(name: string, dataUrl: string)

  /** The body of `POST /f-file-sets/files`. */
  datatype UploadBody = UploadBody(setId: int, fileType: string, path: string, binSerializer: string,
                                   dataBinStr: Option<string>)

  function UploadBodyOf(setId: int, fileType: string, file: PickedFile): UploadBody {
    UploadBody(setId, fileType, file.name, "base64", Base64Of(file.dataUrl))
  }

  function CountTrue(oks: seq<bool>): (n: nat)
    ensures n <= |oks|
  {
    if oks == [] then 0 else CountTrue(oks[..|oks| - 1]) + (if oks[|oks| - 1] then 1 else 0)
  }

  lemma {:induction false} CountTrueAll(oks: seq<bool>)
    ensures CountTrue(oks) == |oks| <==> forall i :: 0 <= i < |oks| ==> oks[i]
  {
    if oks != [] {
      var init := oks[..|oks| - 1];
      CountTrueAll(init);
      assert forall i :: 0 <= i < |init| ==> init[i] == oks[i];
    }
  }

  lemma {:induction false} CountTrueNone(oks: seq<bool>)
    ensures CountTrue(oks) == 0 <==> forall i :: 0 <= i < |oks| ==> !oks[i]
  {
    if oks != [] {
      var init := oks[..|oks| - 1];
      CountTrueNone(init);
      assert forall i :: 0 <= i < |init| ==> init[i] == oks[i];
    }
  }

  /** The summary toast after the uploads. */
  function UploadSummary(successCount: nat, failCount: nat, totalFiles: nat): Toast {
    if successCount == totalFiles then Toast(SuccessToast, "Successfully uploaded " + IntToDecimal(successCount) + " file(s)")
    else if successCount > 0 then Toast(InfoToast, "Uploaded " + IntToDecimal(successCount) + " file(s), " + IntToDecimal(failCount) + " failed")
    else Toast(ErrorToast, "All uploads failed")
  }

  /** The loop of `uploadFiles`: one POST per file, in order, counting successes and failures. */
  method UploadPass(files: seq<PickedFile>, fileType: string, setId: int, oks: seq<bool>)
    returns (bodies: seq<UploadBody>, successCount: nat, failCount: nat)
    requires |oks| == |files|
    ensures |bodies| == |files| && forall i :: 0 <= i < |files| ==> bodies[i] == UploadBodyOf(setId, fileType, files[i])
    ensures successCount == CountTrue(oks)
    ensures successCount + failCount == |files|
  {
    bodies, successCount, failCount := [], 0, 0;
    var i := 0;
    while i < |files|
      invariant i <= |files|
      invariant |bodies| == i && forall j :: 0 <= j < i ==> bodies[j] == UploadBodyOf(setId, fileType, files[j])
      invariant successCount == CountTrue(oks[..i])
      invariant successCount + failCount == i
    {
      var file := files[i];
      var requestBody := UploadBody(setId, fileType, file.name, "base64", Base64Of(file.dataUrl));
      bodies := bodies + [requestBody];
      if oks[i] {
        successCount := successCount + 1;
      } else {
        failCount := failCount + 1;
      }
      assert oks[..i + 1][..i] == oks[..i];
      i := i + 1;
    }
    assert oks[..|files|] == oks;
  }

  /**
   * The summary is a success toast when every file went up, an info toast
   * when only some did, and an error toast when none did.
   */
  lemma UploadSummarySpec(oks: seq<bool>)
    requires |oks| > 0
    ensures var s := CountTrue(oks);
      && (UploadSummary(s, |oks| - s, |oks|).kind == SuccessToast <==> forall i :: 0 <= i < |oks| ==> oks[i])
      && (UploadSummary(s, |oks| - s, |oks|).kind == ErrorToast <==> forall i :: 0 <= i < |oks| ==> !oks[i])
      && (UploadSummary(s, |oks| - s, |oks|).kind == InfoToast <==> 0 < s < |oks|)
  {
    CountTrueAll(oks);
    CountTrueNone(oks);
  }

  /** A file's detail as the detail endpoint returns it. */
  datatype FileSetDetail = FileSetDetail(fileSet: FileSet, files: Option<seq<string>>)

  // ---- the page's state ---------------------------------------------------------------

  class Manager {
    var baseUrl: string
    var apiKey: string
    var projectId: string
    var fileSets: seq<FileSet>
    var currentFileSet: Option<FileSet>
    var currentFiles: seq<string>

    constructor ()
      ensures baseUrl == "" && apiKey == "" && projectId == ""
      ensures fileSets == [] && currentFileSet == None && currentFiles == []
    {
      baseUrl, apiKey, projectId := "", "", "";
      fileSets := [];
      currentFileSet := None;
      currentFiles := [];
    }

    /** `updateUIState`'s test: the page counts as connected when all three settings are non-empty. */
    predicate Connected()
      reads this
    {
      baseUrl != "" && apiKey != "" && projectId != ""
    }

    /** `connect`: stores the trimmed settings; `ready` says whether all three were filled in and the list is to be loaded. */
    method Connect(baseUrlInput: string, apiKeyInput: string, projectIdInput: string) returns (ready: bool)
      modifies this
      ensures baseUrl == JsTrim(baseUrlInput) && apiKey == JsTrim(apiKeyInput) && projectId == JsTrim(projectIdInput)
      ensures ready <==> Connected()
      ensures fileSets == old(fileSets) && currentFileSet == old(currentFileSet) && currentFiles == old(currentFiles)
    {
      baseUrl := JsTrim(baseUrlInput);
      apiKey := JsTrim(apiKeyInput);
      projectId := JsTrim(projectIdInput);
      ready := !(baseUrl == "" || apiKey == "" || projectId == "");
    }

    /** `loadFileSets`: on success the list becomes the reply's rows (`[]` when the reply has no `rows`); a failure leaves it.
        A `null` (204) reply is a `Failure` here: `data.rows` throws on it and the old list stays (unlike `LoadFileSetDetail`, where `None` is `null`). */
    method LoadFileSets(reply: Result<Option<seq<FileSet>>, string>)
      modifies this
      ensures reply.Success? ==> fileSets == reply.value.GetOr([])
      ensures reply.Failure? ==> fileSets == old(fileSets)
      ensures currentFileSet == old(currentFileSet) && currentFiles == old(currentFiles)
      ensures baseUrl == old(baseUrl) && apiKey == old(apiKey) && projectId == old(projectId)
    {
      if reply.Success? {
        fileSets := if reply.value.Some? then reply.value.value else [];
      }
    }

    /**
     * `loadFileSetDetail`: on success the detail becomes current and its
     * files (`[]` without files) are listed. A `null` reply (`None`, a 204)
     * is stored as the current set before reading its files throws, so
     * nothing is selected and the file list is left as it was.
     */
    method LoadFileSetDetail(reply: Result<Option<FileSetDetail>, string>)
      modifies this
      ensures reply.Success? && reply.value.Some? ==>
        currentFileSet == Some(reply.value.value.fileSet) && currentFiles == reply.value.value.files.GetOr([])
      ensures reply.Success? && reply.value.None? ==> currentFileSet == None && currentFiles == old(currentFiles)
      ensures reply.Failure? ==> currentFileSet == old(currentFileSet) && currentFiles == old(currentFiles)
      ensures fileSets == old(fileSets)
      ensures baseUrl == old(baseUrl) && apiKey == old(apiKey) && projectId == old(projectId)
    {
      if reply.Success? {
        match reply.value {
          case None =>
            currentFileSet := None;
          case Some(detail) =>
            currentFileSet := Some(detail.fileSet);
            currentFiles := if detail.files.Some? then detail.files.value else [];
        }
      }
    }

    /** `selectFileSet`: the picked set becomes current, then its detail is loaded. */
    method SelectFileSet(fileSet: FileSet, reply: Result<Option<FileSetDetail>, string>)
      modifies this
      ensures reply.Failure? ==> currentFileSet == Some(fileSet) && currentFiles == old(currentFiles)
      ensures reply.Success? && reply.value.Some? ==>
        currentFileSet == Some(reply.value.value.fileSet) && currentFiles == reply.value.value.files.GetOr([])
      ensures reply.Success? && reply.value.None? ==> currentFileSet == None && currentFiles == old(currentFiles)
      ensures fileSets == old(fileSets)
      ensures baseUrl == old(baseUrl) && apiKey == old(apiKey) && projectId == old(projectId)
    {
      currentFileSet := Some(fileSet);
      LoadFileSetDetail(reply);
    }

    /**
     * `uploadFiles`: with no files or no current set only an error toast
     * appears; otherwise one POST per file into the current set, and the
     * summary toast. `oks[i]` says whether the i-th upload succeeded.
     */
    method UploadFiles(files: seq<PickedFile>, fileType: string, oks: seq<bool>)
      returns (bodies: seq<UploadBody>, toast: Toast)
      requires |oks| == |files|
      ensures files == [] ==> bodies == [] && toast == Toast(ErrorToast, "Please select file(s) to upload")
      ensures files != [] && currentFileSet.None? ==> bodies == [] && toast == Toast(ErrorToast, "Please select a file set first")
      ensures files != [] && currentFileSet.Some? ==>
        (|bodies| == |files|
        && (forall i :: 0 <= i < |files| ==> bodies[i] == UploadBodyOf(currentFileSet.value.id, fileType, files[i]))
        && toast == UploadSummary(CountTrue(oks), |files| - CountTrue(oks), |files|))
    {
      if |files| == 0 {
        return [], Toast(ErrorToast, "Please select file(s) to upload");
      }
      if currentFileSet.None? {
        return [], Toast(ErrorToast, "Please select a file set first");
      }
      var successCount, failCount;
      bodies, successCount, failCount := UploadPass(files, fileType, currentFileSet.value.id, oks);
      toast := UploadSummary(successCount, failCount, |files|);
    }
  }
}
