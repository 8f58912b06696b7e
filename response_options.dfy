/**
 * Model of MHD_response_set_options (src/mhd2/response_set_options.c):
 * a guarded loop that copies tagged option entries into the settings record
 * of a response that is still open.
 */
module ResponseOptions {
  import opened Wrappers

  /** The status codes the setter can return. */
  datatype StatusCode = Ok | TooLate | OptionUnknown

  /** An opaque pointer value (function pointer or closure pointer). */
  type Handle = nat

  datatype TerminationCallback = TerminationCallback(callback: Handle, closure: Handle)

  /** struct ResponseOptions: the eight per-response settings. */
  datatype ResponseSettings = ResponseSettings(
    reusable: bool,
    headOnlyResponse: bool,
    chunkedEnc: bool,
    connClose: bool,
    http10CompatibleStrict: bool,
    http10Server: bool,
    insanityHeaderContentLength: bool,
    terminationCallback: TerminationCallback)

  /** One entry of the options array: the tag together with its value. */
  datatype Opt =
    | End
    | Reusable(flag: bool)
    | HeadOnlyResponse(flag: bool)
    | ChunkedEnc(flag: bool)
    | ConnClose(flag: bool)
    | Http10CompatibleStrict(flag: bool)
    | Http10Server(flag: bool)
    | InsanityHeaderContentLength(flag: bool)
    | TerminationCb(callback: Handle, closure: Handle)
    | Sentinel
    | Unrecognised(code: int)
  {
    /** A tag that the switch assigns to a settings field. */
    predicate IsSetter() {
      !(End? || Sentinel? || Unrecognised?)
    }
  }

  /** Names of the settings fields, used to state frame conditions. */
  datatype Field =
    | ReusableField
    | HeadOnlyResponseField
    | ChunkedEncField
    | ConnCloseField
    | Http10CompatibleStrictField
    | Http10ServerField
    | InsanityHeaderContentLengthField
    | TerminationCallbackField

  datatype FieldValue = Flag(b: bool) | Callback(cb: TerminationCallback)

  function Get(s: ResponseSettings, f: Field): FieldValue {
    match f
    case ReusableField => Flag(s.reusable)
    case HeadOnlyResponseField => Flag(s.headOnlyResponse)
    case ChunkedEncField => Flag(s.chunkedEnc)
    case ConnCloseField => Flag(s.connClose)
    case Http10CompatibleStrictField => Flag(s.http10CompatibleStrict)
    case Http10ServerField => Flag(s.http10Server)
    case InsanityHeaderContentLengthField => Flag(s.insanityHeaderContentLength)
    case TerminationCallbackField => Callback(s.terminationCallback)
  }

  /** The field a recognised entry writes. */
  function FieldOf(o: Opt): Field
    requires o.IsSetter()
  {
    match o
    case Reusable(_) => ReusableField
    case HeadOnlyResponse(_) => HeadOnlyResponseField
    case ChunkedEnc(_) => ChunkedEncField
    case ConnClose(_) => ConnCloseField
    case Http10CompatibleStrict(_) => Http10CompatibleStrictField
    case Http10Server(_) => Http10ServerField
    case InsanityHeaderContentLength(_) => InsanityHeaderContentLengthField
    case TerminationCb(cb, cls) => TerminationCallbackField
  }

  /** The value a recognised entry carries. */
  function ValueOf(o: Opt): FieldValue
    requires o.IsSetter()
  {
    if o.TerminationCb? then Callback(TerminationCallback(o.callback, o.closure)) else Flag(o.flag)
  }

  /** One case of the switch: overwrite the entry's own field. */
  function Apply(s: ResponseSettings, o: Opt): ResponseSettings
    requires o.IsSetter()
  {
    match o
    case Reusable(v) => s.(reusable := v)
    case HeadOnlyResponse(v) => s.(headOnlyResponse := v)
    case ChunkedEnc(v) => s.(chunkedEnc := v)
    case ConnClose(v) => s.(connClose := v)
    case Http10CompatibleStrict(v) => s.(http10CompatibleStrict := v)
    case Http10Server(v) => s.(http10Server := v)
    case InsanityHeaderContentLength(v) => s.(insanityHeaderContentLength := v)
    case TerminationCb(cb, cls) => s.(terminationCallback := TerminationCallback(cb, cls))
  }

  /** A recognised entry overwrites its own field with its value and no other field. */
  lemma ApplyFrame(s: ResponseSettings, o: Opt, f: Field)
    requires o.IsSetter()
    ensures Get(Apply(s, o), f) == if f == FieldOf(o) then ValueOf(o) else Get(s, f)
  {
    match o
    case Reusable(_) =>
    case HeadOnlyResponse(_) =>
    case ChunkedEnc(_) =>
    case ConnClose(_) =>
    case Http10CompatibleStrict(_) =>
    case Http10Server(_) =>
    case InsanityHeaderContentLength(_) =>
    case TerminationCb(_, _) =>
  }

  /** The termination callback entry sets the callback and its closure together. */
  lemma TerminationCallbackSetsBoth(s: ResponseSettings, cb: Handle, cls: Handle)
    ensures Apply(s, TerminationCb(cb, cls)).terminationCallback.callback == cb
    ensures Apply(s, TerminationCb(cb, cls)).terminationCallback.closure == cls
  {
    ApplyFrame(s, TerminationCb(cb, cls), TerminationCallbackField);
  }

  /** Reference semantics of the loop over the entries it may read. */
  function Walk(s: ResponseSettings, opts: seq<Opt>): (StatusCode, ResponseSettings)
    decreases |opts|
  {
    if opts == [] then (Ok, s)
    else if opts[0].End? then (Ok, s)
    else if !opts[0].IsSetter() then (OptionUnknown, s)
    else Walk(Apply(s, opts[0]), opts[1..])
  }

  /** Left fold of recognised entries: applied in order, so the last duplicate wins. */
  function ApplyAll(s: ResponseSettings, opts: seq<Opt>): ResponseSettings
    requires forall j :: 0 <= j < |opts| ==> opts[j].IsSetter()
    decreases |opts|
  {
    if opts == [] then s else ApplyAll(Apply(s, opts[0]), opts[1..])
  }

  /** Index of the first entry that stops the loop (END or an unknown tag), or |opts|. */
  function FirstStop(opts: seq<Opt>): (k: nat)
    ensures k <= |opts|
    ensures forall j :: 0 <= j < k ==> opts[j].IsSetter()
    ensures k < |opts| ==> !opts[k].IsSetter()
  {
    if opts == [] || !opts[0].IsSetter() then 0 else 1 + FirstStop(opts[1..])
  }

  /** The result of the call, with the response's new settings pointer. */
  datatype Outcome = Outcome(status: StatusCode, settings: Option<ResponseSettings>)

  function Min(a: nat, b: nat): nat { if a <= b then a else b }

  /** The entries the loop may visit: at most options_max_num of them. */
  function Window(options: seq<Opt>, maxNum: nat): seq<Opt> {
    options[..Min(maxNum, |options|)]
  }

  /** Reference function for MHD_response_set_options. */
  function SetOptionsSpec(ps: Option<ResponseSettings>, options: seq<Opt>, maxNum: nat): Outcome
  {
    if ps.None? then Outcome(TooLate, None)
    else
      var (st, s) := Walk(ps.value, Window(options, maxNum));
      Outcome(st, Some(s))
  }

  /**
   * The caller's obligation: every entry the loop reads exists. Either the
   * array holds options_max_num entries, or a stopping entry ends it earlier.
   */
  predicate ReadsInBounds(options: seq<Opt>, maxNum: nat) {
    maxNum <= |options| || FirstStop(options) < |options|
  }

  /** How many entries the call reads: up to and including the first stop, at most options_max_num. */
  function ReadCount(options: seq<Opt>, maxNum: nat): nat {
    var w := Window(options, maxNum);
    var k := FirstStop(w);
    if k < |w| then k + 1 else |w|
  }

  lemma {:induction false} ApplyAllCons(s: ResponseSettings, o: Opt, rest: seq<Opt>)
    requires o.IsSetter()
    requires forall j :: 0 <= j < |rest| ==> rest[j].IsSetter()
    ensures ApplyAll(s, [o] + rest) == ApplyAll(Apply(s, o), rest)
  {
    assert ([o] + rest)[0] == o;
    assert ([o] + rest)[1..] == rest;
  }

  /**
   * The loop stops at the first END or unknown entry: its status is OK for END
   * (or for running out of entries) and OPTION_UNKNOWN otherwise, and exactly the
   * entries before the stop have been applied, in order.
   */
  lemma {:induction false} WalkStopsAtFirstStop(s: ResponseSettings, opts: seq<Opt>)
    ensures var k := FirstStop(opts);
      Walk(s, opts) ==
        (if k == |opts| || opts[k].End? then Ok else OptionUnknown, ApplyAll(s, opts[..k]))
    decreases |opts|
  {
    var k := FirstStop(opts);
    if opts == [] || !opts[0].IsSetter() {
      assert k == 0;
      assert opts[..0] == [];
    } else {
      WalkStopsAtFirstStop(Apply(s, opts[0]), opts[1..]);
      assert opts[..k] == [opts[0]] + opts[1..][..k - 1];
      ApplyAllCons(s, opts[0], opts[1..][..k - 1]);
    }
  }

  /**
   * Main result. A NULL settings pointer gives TOO_LATE and no change. Otherwise,
   * with k the index of the first stop among the first options_max_num entries,
   * the status is OPTION_UNKNOWN exactly when that stop is an unknown tag (SENTINEL
   * included), and the new settings are the left fold of the entries before k.
   */
  lemma SetOptionsOutcome(ps: Option<ResponseSettings>, options: seq<Opt>, maxNum: nat)
    ensures ps.None? ==> SetOptionsSpec(ps, options, maxNum) == Outcome(TooLate, None)
    ensures ps.Some? ==>
      var w := Window(options, maxNum);
      var k := FirstStop(w);
      SetOptionsSpec(ps, options, maxNum) ==
        Outcome(if k < |w| && !w[k].End? then OptionUnknown else Ok,
                Some(ApplyAll(ps.value, w[..k])))
  {
    if ps.Some? {
      WalkStopsAtFirstStop(ps.value, Window(options, maxNum));
    }
  }

  /** options_max_num == 0 on an open response: OK and nothing changes. */
  lemma ZeroMaxChangesNothing(s: ResponseSettings, options: seq<Opt>)
    ensures SetOptionsSpec(Some(s), options, 0) == Outcome(Ok, Some(s))
  {
    assert Window(options, 0) == [];
  }

  /** An END entry in the first position stops the call at once: nothing after it applies. */
  lemma EndFirstChangesNothing(s: ResponseSettings, rest: seq<Opt>, maxNum: nat)
    requires maxNum > 0
    ensures SetOptionsSpec(Some(s), [End] + rest, maxNum) == Outcome(Ok, Some(s))
  {
    assert Window([End] + rest, maxNum)[0] == End;
  }

  /**
   * Only the entries the loop reads matter: two arrays that agree on the first
   * ReadCount entries give the same outcome, so no entry after the first stop
   * and none at an index >= options_max_num is ever read.
   */
  lemma {:induction false} OnlyReadEntriesMatter(
    ps: Option<ResponseSettings>, o1: seq<Opt>, o2: seq<Opt>, maxNum: nat)
    requires ReadsInBounds(o1, maxNum)
    requires ReadCount(o1, maxNum) <= |o2|
    requires o1[..ReadCount(o1, maxNum)] == o2[..ReadCount(o1, maxNum)]
    ensures SetOptionsSpec(ps, o1, maxNum) == SetOptionsSpec(ps, o2, maxNum)
  {
    if ps.Some? {
      var w1, w2 := Window(o1, maxNum), Window(o2, maxNum);
      var n := ReadCount(o1, maxNum);
      var k := FirstStop(w1);
      if k < |w1| {
        assert n == k + 1;
        assert n <= |w2| by {
          assert k < maxNum;
        }
        assert forall j :: 0 <= j <= k ==> w1[j] == o1[j] == o2[j] == w2[j] by {
          forall j | 0 <= j <= k ensures o1[j] == o2[j] {
            assert o1[..n][j] == o2[..n][j];
          }
        }
        WalkAgreesUpToStop(ps.value, w1, w2);
      } else {
        if maxNum > |o1| {
          StopInPrefix(o1, |o1|);
          assert false;
        }
        assert w1 == o1[..n];
        assert w2 == o2[..n];
      }
    }
  }

  lemma StopInPrefix(opts: seq<Opt>, m: nat)
    requires m <= |opts|
    requires FirstStop(opts) < m
    ensures FirstStop(opts[..m]) == FirstStop(opts)
  {
    var k := FirstStop(opts);
    var p := opts[..m];
    assert forall j :: 0 <= j < k ==> p[j].IsSetter();
    assert !p[k].IsSetter();
    FirstStopIsFirst(p, k);
  }

  /** FirstStop is determined by the first non-setter. */
  lemma {:induction false} FirstStopIsFirst(opts: seq<Opt>, k: nat)
    requires k < |opts|
    requires forall j :: 0 <= j < k ==> opts[j].IsSetter()
    requires !opts[k].IsSetter()
    ensures FirstStop(opts) == k
  {
    if k > 0 {
      FirstStopIsFirst(opts[1..], k - 1);
    }
  }

  /** Two walks that agree up to and including the first stop agree. */
  lemma {:induction false} WalkAgreesUpToStop(s: ResponseSettings, a: seq<Opt>, b: seq<Opt>)
    requires FirstStop(a) < |a| && FirstStop(a) < |b|
    requires forall j :: 0 <= j <= FirstStop(a) ==> a[j] == b[j]
    ensures Walk(s, a) == Walk(s, b)
    decreases |a|
  {
    if a[0].IsSetter() {
      WalkAgreesUpToStop(Apply(s, a[0]), a[1..], b[1..]);
    }
  }

  /** With no stop among the entries, the last entry that names a field decides it. */
  lemma {:induction false} LastDuplicateWins(s: ResponseSettings, opts: seq<Opt>, j: nat)
    requires forall i :: 0 <= i < |opts| ==> opts[i].IsSetter()
    requires j < |opts|
    requires forall i :: j < i < |opts| ==> FieldOf(opts[i]) != FieldOf(opts[j])
    ensures Get(ApplyAll(s, opts), FieldOf(opts[j])) == ValueOf(opts[j])
    decreases |opts|
  {
    if j == 0 {
      ApplyFrame(s, opts[0], FieldOf(opts[0]));
      UntouchedFieldKept(Apply(s, opts[0]), opts[1..], FieldOf(opts[0]));
    } else {
      LastDuplicateWins(Apply(s, opts[0]), opts[1..], j - 1);
    }
  }

  /** A field that no entry names keeps its old value. */
  lemma {:induction false} UntouchedFieldKept(s: ResponseSettings, opts: seq<Opt>, f: Field)
    requires forall i :: 0 <= i < |opts| ==> opts[i].IsSetter()
    requires forall i :: 0 <= i < |opts| ==> FieldOf(opts[i]) != f
    ensures Get(ApplyAll(s, opts), f) == Get(s, f)
    decreases |opts|
  {
    if opts != [] {
      ApplyFrame(s, opts[0], f);
      UntouchedFieldKept(Apply(s, opts[0]), opts[1..], f);
    }
  }

  /** struct MHD_Response, reduced to its settings pointer. */
  class Response {
    /** NULL (None) once the response has been finalised. */
    var psettings: Option<ResponseSettings>

    constructor (settings: Option<ResponseSettings>)
      ensures psettings == settings
    {
      psettings := settings;
    }

    /** MHD_response_set_options. */
    method SetOptions(options: seq<Opt>, maxNum: nat) returns (sc: StatusCode)
      requires psettings.Some? ==> ReadsInBounds(options, maxNum)
      modifies this
      ensures Outcome(sc, psettings) == SetOptionsSpec(old(psettings), options, maxNum)
    {
      if psettings.None? {
        return TooLate;
      }
      ghost var n := Min(maxNum, |options|);
      ghost var s0 := psettings.value;
      var i := 0;
      while i < maxNum
        invariant i <= n
        invariant forall j :: 0 <= j < i ==> options[j].IsSetter()
        invariant psettings.Some?
        invariant Walk(s0, options[..n]) == Walk(psettings.value, options[i..n])
        decreases maxNum - i
      {
        if maxNum > |options| {
          assert FirstStop(options) >= i;
        }
        var settings := psettings.value;
        assert options[i..n][0] == options[i] && options[i..n][1..] == options[i + 1..n];
        match options[i] {
        case End =>
          return Ok;
        case Reusable(v) =>
          psettings := Some(settings.(reusable := v));
        case HeadOnlyResponse(v) =>
          psettings := Some(settings.(headOnlyResponse := v));
        case ChunkedEnc(v) =>
          psettings := Some(settings.(chunkedEnc := v));
        case ConnClose(v) =>
          psettings := Some(settings.(connClose := v));
        case Http10CompatibleStrict(v) =>
          psettings := Some(settings.(http10CompatibleStrict := v));
        case Http10Server(v) =>
          psettings := Some(settings.(http10Server := v));
        case InsanityHeaderContentLength(v) =>
          psettings := Some(settings.(insanityHeaderContentLength := v));
        case TerminationCb(cb, cls) =>
          psettings := Some(settings.(terminationCallback := TerminationCallback(cb, cls)));
        case Sentinel =>
          return OptionUnknown;
        case Unrecognised(_) =>
          return OptionUnknown;
        }
        i := i + 1;
      }
      return Ok;
    }
  }
}
