/**
 * The command-line fleet updater: it reads the base URL, the API key, a
 * comma-separated list of controller IDs, an optional settings file and
 * firmware-update flags from its arguments, posts the settings to each
 * controller and, when firmware flags were given, schedules and activates
 * an update plan for each controller whose settings were accepted. Every
 * HTTP reply is an input.
 */
module UpdateController {
  import opened Wrappers
  import opened Strings

  // ---- Arguments --------------------------------------------------------------

  /** The firmware options object; it only ever exists with `enabled: true`. */
  datatype FwOptions = FwOptions(firmwareVersion: Option<string>, updateType: Option<string>,
                                 customField1: Option<string>, comment: Option<string>)

  const Fresh := FwOptions(None, None, None, None)
  const DefaultSettingsFile := "./update-settings.json"

  datatype Field = Fw | Type | Custom | Comment

  /** What one step of the flag loop does with the arguments at its position. */
  datatype Action = Set(field: Field, value: string) | Reset | Skip

  /** The flag that sets each field. */
  function FlagOf(f: Field): string {
    match f
    case Fw => "--fw"
    case Type => "--type"
    case Custom => "--custom"
    case Comment => "--comment"
  }

  function FieldOfFlag(a: string): Option<Field> {
    if a == "--fw" then Some(Fw) else if a == "--type" then Some(Type)
    else if a == "--custom" then Some(Custom) else if a == "--comment" then Some(Comment)
    else None
  }

  lemma FieldOfFlagInverse(f: Field, a: string)
    ensures FieldOfFlag(FlagOf(f)) == Some(f)
    ensures FieldOfFlag(a) == Some(f) ==> a == FlagOf(f)
  {
  }

  /** How many arguments an action consumes. */
  function Width(a: Action): nat {
    if a.Set? then 2 else 1
  }

  /** The arguments from position `i` read as actions: a value flag takes the next argument when there is one. */
  function Actions(args: seq<string>, i: nat): seq<Action>
    decreases |args| - i
  {
    if i >= |args| then []
    else if FieldOfFlag(args[i]).Some? && i + 1 < |args| then [Set(FieldOfFlag(args[i]).value, args[i + 1])] + Actions(args, i + 2)
    else if args[i] == "--update" then [Reset] + Actions(args, i + 1)
    else [Skip] + Actions(args, i + 1)
  }

  function TotalWidth(acts: seq<Action>): nat {
    if acts == [] then 0 else Width(acts[0]) + TotalWidth(acts[1..])
  }

  /** Every argument after the fixed ones is consumed by exactly one action. */
  lemma {:induction false} ActionsConsumeAll(args: seq<string>, i: nat)
    requires i <= |args|
    ensures TotalWidth(Actions(args, i)) == |args| - i
    decreases |args| - i
  {
    if i < |args| {
      var acts := Actions(args, i);
      if FieldOfFlag(args[i]).Some? && i + 1 < |args| {
        ActionsConsumeAll(args, i + 2);
      } else {
        ActionsConsumeAll(args, i + 1);
      }
      assert acts[1..] == Actions(args, i + Width(acts[0]));
    }
  }

  function SetField(o: FwOptions, f: Field, v: string): FwOptions {
    match f
    case Fw => o.(firmwareVersion := Some(v))
    case Type => o.(updateType := Some(v))
    case Custom => o.(customField1 := Some(v))
    case Comment => o.(comment := Some(v))
  }

  function GetField(o: FwOptions, f: Field): Option<string> {
    match f
    case Fw => o.firmwareVersion
    case Type => o.updateType
    case Custom => o.customField1
    case Comment => o.comment
  }

  /** A value flag creates the options if needed and sets one field; `--update` starts over. */
  function Apply(o: Option<FwOptions>, a: Action): Option<FwOptions> {
    match a
    case Set(f, v) => Some(SetField(if o.None? then Fresh else o.value, f, v))
    case Reset => Some(Fresh)
    case Skip => o
  }

  function ApplyAll(o: Option<FwOptions>, acts: seq<Action>): Option<FwOptions>
    decreases acts
  {
    if acts == [] then o else ApplyAll(Apply(o, acts[0]), acts[1..])
  }

  lemma {:induction false} ApplyAllConcat(o: Option<FwOptions>, a: seq<Action>, b: seq<Action>)
    ensures ApplyAll(o, a + b) == ApplyAll(ApplyAll(o, a), b)
    decreases a
  {
    if a == [] {
      assert a + b == b;
    } else {
      ApplyAllConcat(Apply(o, a[0]), a[1..], b);
      assert (a + b)[0] == a[0];
      assert (a + b)[1..] == a[1..] + b;
    }
  }

  /** `--update` discards every field set before it. */
  lemma ResetDiscards(o: Option<FwOptions>, before: seq<Action>, after: seq<Action>)
    ensures ApplyAll(o, before + [Reset] + after) == ApplyAll(Some(Fresh), after)
  {
    ApplyAllConcat(o, before + [Reset], after);
    ApplyAllConcat(o, before, [Reset]);
  }

  /** Once created, the options are never dropped. */
  lemma {:induction false} OptionsStay(o: Option<FwOptions>, acts: seq<Action>)
    requires o.Some?
    ensures ApplyAll(o, acts).Some?
    decreases acts
  {
    if acts != [] {
      OptionsStay(Apply(o, acts[0]), acts[1..]);
    }
  }

  /** Without a recognised flag the options are what they were. */
  lemma {:induction false} SkipsOnly(o: Option<FwOptions>, acts: seq<Action>)
    requires forall k :: 0 <= k < |acts| ==> acts[k] == Skip
    ensures ApplyAll(o, acts) == o
  {
    if acts != [] {
      SkipsOnly(o, acts[1..]);
    }
  }

  /** The last flag for a field gives its value, when no `--update` follows it. */
  lemma {:induction false} LastSetWins(o: Option<FwOptions>, f: Field, v: string, after: seq<Action>)
    requires forall k :: 0 <= k < |after| ==> after[k] != Reset && !(after[k].Set? && after[k].field == f)
    ensures ApplyAll(Apply(o, Set(f, v)), after).Some?
    ensures GetField(ApplyAll(Apply(o, Set(f, v)), after).value, f) == Some(v)
  {
    KeepsField(Apply(o, Set(f, v)), f, after);
  }

  lemma {:induction false} KeepsField(o: Option<FwOptions>, f: Field, acts: seq<Action>)
    requires o.Some?
    requires forall k :: 0 <= k < |acts| ==> acts[k] != Reset && !(acts[k].Set? && acts[k].field == f)
    ensures ApplyAll(o, acts).Some? && GetField(ApplyAll(o, acts).value, f) == GetField(o.value, f)
    decreases acts
  {
    if acts != [] {
      KeepsField(Apply(o, acts[0]), f, acts[1..]);
    }
  }

  /** A flag that is the last argument is skipped rather than read as a flag with a value. */
  lemma TrailingFlagSkipped(args: seq<string>, f: Field)
    requires |args| >= 1 && args[|args| - 1] == FlagOf(f)
    ensures Actions(args, |args| - 1) == [Skip]
  {
  }

  /**
   * A value flag with an argument after it takes that argument as its value,
   * whatever it is (even another flag such as `--update`), and the loop
   * resumes after it: the argument is never read as a flag of its own.
   */
  lemma ValueMayLookLikeFlag(o: Option<FwOptions>, args: seq<string>, i: nat)
    requires i + 1 < |args| && FieldOfFlag(args[i]).Some?
    ensures Actions(args, i)[0] == Set(FieldOfFlag(args[i]).value, args[i + 1])
    ensures ApplyAll(o, Actions(args, i)) == ApplyAll(Apply(o, Set(FieldOfFlag(args[i]).value, args[i + 1])), Actions(args, i + 2))
  {
    var acts := Actions(args, i);
    assert acts[1..] == Actions(args, i + 2);
  }

  /** What the arguments ask for: the usage text, or a run. */
  datatype Invocation =
    | Usage
    | Run(baseUrl: string, apiKey: string, controllerIds: seq<string>, settingsFile: string, fw: Option<FwOptions>)

  /** The IDs as given: split on commas and trimmed, nothing dropped. */
  function TrimAll(parts: seq<string>): (r: seq<string>)
    ensures |r| == |parts| && forall k :: 0 <= k < |r| ==> r[k] == JsTrim(parts[k])
  {
    if parts == [] then [] else [JsTrim(parts[0])] + TrimAll(parts[1..])
  }

  /** Where the flags start: after the settings file when the fourth argument is not a flag. */
  function FlagStart(args: seq<string>): nat {
    if |args| > 3 && !StartsWith(args[3], "--") then 4 else 3
  }

  /** The argument handling of `main`, for the arguments after the script name. */
  method ParseArgs(args: seq<string>) returns (inv: Invocation)
    ensures |args| < 3 <==> inv == Usage
    ensures inv.Run? ==> (inv.baseUrl == args[0] && inv.apiKey == args[1]
      && inv.controllerIds == TrimAll(Split(args[2], ',')))
    ensures inv.Run? ==> inv.settingsFile == if FlagStart(args) == 4 then args[3] else DefaultSettingsFile
    ensures inv.Run? ==> inv.fw == ApplyAll(None, Actions(args, FlagStart(args)))
  {
    if |args| < 3 {
      return Usage;
    }
    var baseUrl := args[0];
    var apiKey := args[1];
    var controllerIdsArg := args[2];
    var settingsFile := DefaultSettingsFile;
    var controllerIds := TrimAll(Split(controllerIdsArg, ','));
    var firmwareOptions: Option<FwOptions> := None;
    var i := 3;
    if |args| > i && !StartsWith(args[i], "--") {
      settingsFile := args[i];
      i := i + 1;
    }
    ghost var start := i;
    while i < |args|
      invariant start <= i <= |args|
      invariant ApplyAll(firmwareOptions, Actions(args, i)) == ApplyAll(None, Actions(args, start))
      decreases |args| - i
    {
      var field := FieldOfFlag(args[i]);
      if field.Some? && i + 1 < |args| {
        var current := if firmwareOptions.None? then Fresh else firmwareOptions.value;
        firmwareOptions := Some(SetField(current, field.value, args[i + 1]));
        i := i + 2;
      } else if args[i] == "--update" {
        firmwareOptions := Some(Fresh);
        i := i + 1;
      } else {
        i := i + 1;
      }
    }
    inv := Run(baseUrl, apiKey, controllerIds, settingsFile, firmwareOptions);
  }

  // ---- scheduleUpdate -----------------------------------------------------------

  /** JavaScript `s || d` on a string: the empty string is falsy. */
  function OrElse(s: string, d: string): string {
    if s != "" then s else d
  }

  /** `o.field || d` on an optional string field. */
  function FieldOr(o: Option<string>, d: string): (r: string)
    ensures o.Some? && o.value != "" ==> r == o.value
    ensures o.None? || o.value == "" ==> r == d
  {
    if o.Some? then OrElse(o.value, d) else d
  }

  /** Defaulting a second time changes nothing. */
  lemma OrElseTwice(o: Option<string>, d: string)
    ensures OrElse(FieldOr(o, d), d) == FieldOr(o, d)
  {
  }

  /** The options `updateControllers` passes to `scheduleUpdate`, defaults applied. */
  datatype CallOptions = CallOptions(baseUrl: string, apiKey: string, firmwareVersion: Option<string>,
                                     updateType: string, customField1: string, comment: string)

  const DefaultType := "sleep"
  const DefaultComment := "Publisher Update"

  function CallOptionsOf(baseUrl: string, apiKey: string, fw: FwOptions): CallOptions {
    CallOptions(baseUrl, apiKey, fw.firmwareVersion, FieldOr(fw.updateType, DefaultType),
                FieldOr(fw.customField1, ""), FieldOr(fw.comment, DefaultComment))
  }

  /** The body of the plan-creation request; `mainFw` is absent when there is no version. */
  datatype Payload = Payload(controllerId: string, customField1: string, comment: string,
                             configType: string, mainFw: Option<string>)

  function PayloadOf(controllerId: string, options: CallOptions): Payload {
    Payload(controllerId, OrElse(options.customField1, ""), OrElse(options.comment, DefaultComment),
            OrElse(options.updateType, DefaultType),
            if options.firmwareVersion.Some? && options.firmwareVersion.value != "" then options.firmwareVersion else None)
  }

  /**
   * The plan for a controller carries each flag's value when it was given
   * and not empty, and otherwise the defaults: no custom field, the comment
   * `Publisher Update` and the type `sleep`; a firmware version is only
   * sent when one was given.
   */
  lemma PayloadDefaults(controllerId: string, baseUrl: string, apiKey: string, fw: FwOptions)
    ensures var p := PayloadOf(controllerId, CallOptionsOf(baseUrl, apiKey, fw));
      && p.controllerId == controllerId
      && p.customField1 == FieldOr(fw.customField1, "")
      && p.comment == FieldOr(fw.comment, DefaultComment)
      && p.configType == FieldOr(fw.updateType, DefaultType)
      && (p.mainFw.Some? <==> fw.firmwareVersion.Some? && fw.firmwareVersion.value != "")
      && (p.mainFw.Some? ==> p.mainFw == fw.firmwareVersion)
  {
    OrElseTwice(fw.customField1, "");
    OrElseTwice(fw.comment, DefaultComment);
    OrElseTwice(fw.updateType, DefaultType);
  }

  /** The `id` of the created plan as the reply gives it. */
  datatype PlanId = NoId | NumId(n: int) | TextId(s: string)

  predicate Truthy(id: PlanId) {
    (id.NumId? && id.n != 0) || (id.TextId? && id.s != "")
  }

  function IdText(id: PlanId): string {
    match id
    case NoId => "undefined"
    case NumId(n) => IntToDecimal(n)
    case TextId(s) => s
  }

  /** The creation request's outcome: an HTTP error, or a reply with an id. */
  datatype CreateReply = CreateFailed | Created(id: PlanId)

  /** What `scheduleUpdate` sends and returns, given the replies to its two requests. */
  datatype Schedule = Schedule(payload: Payload, activateUrl: Option<string>, ok: bool)

  function ScheduleUpdate(controllerId: string, options: CallOptions, create: CreateReply, activated: bool): (r: Schedule)
    ensures r.payload == PayloadOf(controllerId, options)
    ensures r.activateUrl.Some? <==> create.Created? && Truthy(create.id)
    ensures r.activateUrl.Some? ==> r.activateUrl.value == "/f-updates/" + IdText(create.id) + "/activate"
    ensures r.ok <==> create.Created? && Truthy(create.id) && activated
  {
    var payload := PayloadOf(controllerId, options);
    if create.CreateFailed? || !Truthy(create.id) then Schedule(payload, None, false)
    else Schedule(payload, Some("/f-updates/" + IdText(create.id) + "/activate"), activated)
  }

  // ---- updateControllers ----------------------------------------------------------

  /** How one controller fared. */
  datatype Outcome = SettingsFailed | SettingsOnly | FirmwareScheduled | FirmwareFailed

  /** The replies a controller's requests get: the settings post, then the two firmware requests if they are made. */
  datatype Replies = Replies(settingsOk: bool, create: CreateReply, activated: bool)

  function OutcomeOf(baseUrl: string, apiKey: string, id: string, fw: Option<FwOptions>, r: Replies): Outcome {
    if !r.settingsOk then SettingsFailed
    else if fw.None? then SettingsOnly
    else if ScheduleUpdate(id, CallOptionsOf(baseUrl, apiKey, fw.value), r.create, r.activated).ok then FirmwareScheduled
    else FirmwareFailed
  }

  datatype Tally = Tally(successCount: nat, failCount: nat, fwSuccessCount: nat, fwFailCount: nat)

  function Count(outcomes: seq<Outcome>, o: Outcome): nat {
    if outcomes == [] then 0 else Count(outcomes[..|outcomes| - 1], o) + (if outcomes[|outcomes| - 1] == o then 1 else 0)
  }

  /** The outcomes of the first `n` controllers, in order. */
  function Outcomes(baseUrl: string, apiKey: string, ids: seq<string>, fw: Option<FwOptions>, replies: seq<Replies>, n: nat): (r: seq<Outcome>)
    requires n <= |ids| == |replies|
    ensures |r| == n
  {
    if n == 0 then [] else Outcomes(baseUrl, apiKey, ids, fw, replies, n - 1) + [OutcomeOf(baseUrl, apiKey, ids[n - 1], fw, replies[n - 1])]
  }

  function TallyOf(outcomes: seq<Outcome>): Tally {
    Tally(Count(outcomes, SettingsOnly) + Count(outcomes, FirmwareScheduled) + Count(outcomes, FirmwareFailed),
          Count(outcomes, SettingsFailed), Count(outcomes, FirmwareScheduled), Count(outcomes, FirmwareFailed))
  }

  /** One more controller's outcome adds one to the matching counters. */
  function Bump(t: Tally, o: Outcome): Tally {
    match o
    case SettingsFailed => t.(failCount := t.failCount + 1)
    case SettingsOnly => t.(successCount := t.successCount + 1)
    case FirmwareScheduled => t.(successCount := t.successCount + 1, fwSuccessCount := t.fwSuccessCount + 1)
    case FirmwareFailed => t.(successCount := t.successCount + 1, fwFailCount := t.fwFailCount + 1)
  }

  lemma TallySnoc(outcomes: seq<Outcome>, o: Outcome)
    ensures TallyOf(outcomes + [o]) == Bump(TallyOf(outcomes), o)
  {
    assert (outcomes + [o])[..|outcomes|] == outcomes;
  }

  lemma TallyStep(baseUrl: string, apiKey: string, ids: seq<string>, fw: Option<FwOptions>, replies: seq<Replies>, i: nat)
    requires i < |ids| == |replies|
    ensures TallyOf(Outcomes(baseUrl, apiKey, ids, fw, replies, i + 1))
      == Bump(TallyOf(Outcomes(baseUrl, apiKey, ids, fw, replies, i)), OutcomeOf(baseUrl, apiKey, ids[i], fw, replies[i]))
  {
    TallySnoc(Outcomes(baseUrl, apiKey, ids, fw, replies, i), OutcomeOf(baseUrl, apiKey, ids[i], fw, replies[i]));
  }

  /** `updateControllers`: settings first, firmware only after a settings success and only when asked for. */
  method UpdateControllers(baseUrl: string, apiKey: string, ids: seq<string>, fw: Option<FwOptions>, replies: seq<Replies>)
    returns (tally: Tally)
    requires |replies| == |ids|
    ensures tally == TallyOf(Outcomes(baseUrl, apiKey, ids, fw, replies, |ids|))
  {
    var successCount := 0;
    var failCount := 0;
    var fwSuccessCount := 0;
    var fwFailCount := 0;
    var i := 0;
    while i < |ids|
      invariant i <= |ids|
      invariant Tally(successCount, failCount, fwSuccessCount, fwFailCount) == TallyOf(Outcomes(baseUrl, apiKey, ids, fw, replies, i))
    {
      TallyStep(baseUrl, apiKey, ids, fw, replies, i);
      if replies[i].settingsOk {
        successCount := successCount + 1;
        if fw.Some? {
          var fwOptions := CallOptionsOf(baseUrl, apiKey, fw.value);
          var fwResult := ScheduleUpdate(ids[i], fwOptions, replies[i].create, replies[i].activated);
          if fwResult.ok {
            fwSuccessCount := fwSuccessCount + 1;
          } else {
            fwFailCount := fwFailCount + 1;
          }
        }
      } else {
        failCount := failCount + 1;
      }
      i := i + 1;
    }
    tally := Tally(successCount, failCount, fwSuccessCount, fwFailCount);
  }

  lemma {:induction false} CountsPartition(outcomes: seq<Outcome>)
    ensures Count(outcomes, SettingsFailed) + Count(outcomes, SettingsOnly) + Count(outcomes, FirmwareScheduled)
      + Count(outcomes, FirmwareFailed) == |outcomes|
  {
    if outcomes != [] {
      CountsPartition(outcomes[..|outcomes| - 1]);
    }
  }

  /** Without firmware flags no controller gets a firmware outcome; with them none stops at the settings. */
  lemma {:induction false} OutcomesKind(baseUrl: string, apiKey: string, ids: seq<string>, fw: Option<FwOptions>, replies: seq<Replies>, n: nat)
    requires n <= |ids| == |replies|
    ensures fw.None? ==> (Count(Outcomes(baseUrl, apiKey, ids, fw, replies, n), FirmwareScheduled) == 0
      && Count(Outcomes(baseUrl, apiKey, ids, fw, replies, n), FirmwareFailed) == 0)
    ensures fw.Some? ==> Count(Outcomes(baseUrl, apiKey, ids, fw, replies, n), SettingsOnly) == 0
  {
    if n > 0 {
      OutcomesKind(baseUrl, apiKey, ids, fw, replies, n - 1);
      assert Outcomes(baseUrl, apiKey, ids, fw, replies, n)[..n - 1] == Outcomes(baseUrl, apiKey, ids, fw, replies, n - 1);
    }
  }

  /**
   * Every controller is counted once as a settings success or failure; the
   * firmware counts add up to the settings successes when firmware flags
   * were given and are zero otherwise.
   */
  lemma TallySpec(baseUrl: string, apiKey: string, ids: seq<string>, fw: Option<FwOptions>, replies: seq<Replies>)
    requires |replies| == |ids|
    ensures var t := TallyOf(Outcomes(baseUrl, apiKey, ids, fw, replies, |ids|));
      && t.successCount + t.failCount == |ids|
      && t.fwSuccessCount + t.fwFailCount <= t.successCount
      && (fw.Some? ==> t.fwSuccessCount + t.fwFailCount == t.successCount)
      && (fw.None? ==> t.fwSuccessCount == 0 && t.fwFailCount == 0)
  {
    CountsPartition(Outcomes(baseUrl, apiKey, ids, fw, replies, |ids|));
    OutcomesKind(baseUrl, apiKey, ids, fw, replies, |ids|);
  }

  /** A controller's outcome follows its own replies: firmware is tried only after its settings succeed. */
  lemma OutcomeSpec(baseUrl: string, apiKey: string, ids: seq<string>, fw: Option<FwOptions>, replies: seq<Replies>, k: nat)
    requires k < |ids| == |replies|
    ensures var o := Outcomes(baseUrl, apiKey, ids, fw, replies, |ids|)[k];
      && (o == SettingsFailed <==> !replies[k].settingsOk)
      && (o == SettingsOnly <==> replies[k].settingsOk && fw.None?)
      && (o == FirmwareScheduled <==> (replies[k].settingsOk && fw.Some?
        && replies[k].create.Created? && Truthy(replies[k].create.id) && replies[k].activated))
  {
    OutcomesPrefix(baseUrl, apiKey, ids, fw, replies, |ids|, k);
  }

  lemma {:induction false} OutcomesPrefix(baseUrl: string, apiKey: string, ids: seq<string>, fw: Option<FwOptions>, replies: seq<Replies>, n: nat, k: nat)
    requires k < n <= |ids| == |replies|
    ensures Outcomes(baseUrl, apiKey, ids, fw, replies, n)[k] == OutcomeOf(baseUrl, apiKey, ids[k], fw, replies[k])
  {
    if k < n - 1 {
      OutcomesPrefix(baseUrl, apiKey, ids, fw, replies, n - 1, k);
    }
  }
}
