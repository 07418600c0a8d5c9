/** The set request: validation, the command written, and the confirmation loop
    that polls the device until the write is observed. */
module Confirmation {
  import opened Wrappers
  import opened Text
  import opened Strconv
  import opened Frame
  import opened Registry
  import opened Command
  import opened Device

  /** What ends the polling loop after a write. */
  datatype Goal =
    | LevelEquals(name: string, target: int)  // the snapshot's value for the level parameter equals the request
    | PumpState(param: string)                // `PUMP` is 1 after `PUMP_ON`, 0 after `PUMP_OFF`
    | AnySnapshot                             // a threshold write returns the first snapshot

  /** The loop's exit test on one decoded snapshot. A missing name never matches. */
  predicate Satisfies(g: Goal, snap: Frame)
  {
    match g
    case LevelEquals(name, target) => name in snap && snap[name] == target
    case PumpState(param) =>
      || (param == "PUMP_ON" && "PUMP" in snap && snap["PUMP"] == 1)
      || (param == "PUMP_OFF" && "PUMP" in snap && snap["PUMP"] == 0)
    case AnySnapshot => true
  }

  /** The index of the first snapshot that ends the loop, or `None` while every
      snapshot so far keeps it polling. */
  function Confirm(g: Goal, snaps: seq<Frame>): (r: Option<nat>)
    ensures r.Some? ==> r.value < |snaps| && Satisfies(g, snaps[r.value])
    ensures r.Some? ==> forall j :: 0 <= j < r.value ==> !Satisfies(g, snaps[j])
    ensures r.None? <==> forall j :: 0 <= j < |snaps| ==> !Satisfies(g, snaps[j])
  {
    if |snaps| == 0 then None
    else if Satisfies(g, snaps[0]) then Some(0)
    else
      match Confirm(g, snaps[1..])
      case None => None
      case Some(i) => Some(i + 1)
  }

  /** Later snapshots do not change a decision already made; while no decision is
      made, the loop carries on with the later snapshots. */
  lemma {:induction false} ConfirmExtends(g: Goal, a: seq<Frame>, b: seq<Frame>)
    ensures Confirm(g, a).Some? ==> Confirm(g, a + b) == Confirm(g, a)
    ensures Confirm(g, a).None? ==>
      Confirm(g, a + b) == (match Confirm(g, b) case None => None case Some(i) => Some(|a| + i))
  {
    if |a| > 0 {
      assert (a + b)[0] == a[0];
      assert (a + b)[1..] == a[1..] + b;
      ConfirmExtends(g, a[1..], b);
    } else {
      assert a + b == b;
    }
  }

  /** A snapshot meeting the goal after snapshots that all miss it is the decision. */
  lemma ConfirmFirst(g: Goal, snaps: seq<Frame>, i: nat)
    requires i < |snaps| && Satisfies(g, snaps[i])
    requires forall j :: 0 <= j < i ==> !Satisfies(g, snaps[j])
    ensures Confirm(g, snaps) == Some(i)
  {
    var k := Confirm(g, snaps).value;
    assert k <= i;
  }

  /** Each poll is `outputToMap(singleOutputRead())`: the frames decoded in order, up to
      the first poll whose decode panics (`true` when one does). */
  function DecodePolls(polls: seq<string>): (r: (seq<Frame>, bool))
    ensures |r.0| <= |polls|
    ensures forall i :: 0 <= i < |r.0| ==> Decode(polls[i]) == Some(r.0[i])
    ensures r.1 <==> |r.0| < |polls|
    ensures r.1 ==> Decode(polls[|r.0|]).None?
  {
    if |polls| == 0 then ([], false)
    else
      match Decode(polls[0])
      case None => ([], true)
      case Some(f) =>
        var rest := DecodePolls(polls[1..]);
        assert forall i :: 0 < i <= |rest.0| ==> polls[i] == polls[1..][i - 1];
        ([f] + rest.0, rest.1)
  }

  /** How a set request ends. `StillPolling`: the replies ran out while the loop was
      still waiting; `DecodePanic`: a reply it polled could not be decoded;
      `ValuePanic`: a level value that does not parse; `Unexpected`: the error reply
      for a parameter of no class. */
  datatype Reply = Confirmed(frame: Frame) | StillPolling | DecodePanic | ValuePanic | Unexpected

  /** The polling loop on the valid replies, each decoded as it is read. */
  function Await(g: Goal, polls: seq<string>): (r: Reply)
    ensures r.Confirmed? || r == StillPolling || r == DecodePanic
    ensures r.Confirmed? ==> Satisfies(g, r.frame)
    ensures r.Confirmed? ==> exists line :: line in polls && Decode(line) == Some(r.frame)
  {
    var decoded := DecodePolls(polls);
    match Confirm(g, decoded.0)
    case Some(i) => assert polls[i] in polls; Confirmed(decoded.0[i])
    case None => if decoded.1 then DecodePanic else StillPolling
  }

  /** The response branch of the set handler: level, then pump, then threshold. */
  function Respond(w: Window, p: string, v: string, replies: seq<string>): (r: Reply)
    ensures r.Confirmed? ==> exists line :: line in replies && OutputIsValid(w, line) && Decode(line) == Some(r.frame)
  {
    var polls := ValidReplies(w, replies);
    if StringInSlice(p, VParams) then
      match ParseInt(v, 10)
      case None => ValuePanic
      case Some(n) => Await(LevelEquals(p, n), polls)
    else if StringInSlice(p, PumpParams) then Await(PumpState(p), polls)
    else if StringInSlice(p, TParams) then Await(AnySnapshot, polls)
    else Unexpected
  }

  /** The outcome of a set request: rejected parameter, rejected value, or the command
      written and the reply. */
  datatype SetOutcome = BadParam | BadValue | Sent(command: string, reply: Reply)

  /** `setHandler` / `SetHandler`: the parameter is checked first, then the value, and
      only then is the command written and the confirmation loop entered. */
  function SetHandler(w: Window, p: string, v: string, replies: seq<string>): (o: SetOutcome)
    ensures o.Sent? ==> ParseCommand(o.command) == Some(Intended(p, v))
    ensures o.Sent? && o.reply.Confirmed? ==>
      exists line :: line in replies && OutputIsValid(w, line) && Decode(line) == Some(o.reply.frame)
  {
    if !URLParamValid(p) then BadParam
    else if !URLValueValid(p, v) then BadValue
    else
      EncodeRoundTrip(p, v);
      Sent(Encode(p, v), Respond(w, p, v, replies))
  }

  /** `getHandler` / `GetHandler`: the first valid reply, decoded. */
  function GetAll(w: Window, replies: seq<string>): (r: Reply)
    ensures r.Confirmed? || r == StillPolling || r == DecodePanic
    ensures r.Confirmed? ==> exists line :: line in replies && OutputIsValid(w, line) && Decode(line) == Some(r.frame)
  {
    Await(AnySnapshot, ValidReplies(w, replies))
  }

  /** An unknown parameter is rejected whatever the value; a bad value is rejected
      only for a known parameter; a command is written exactly when both pass, and it
      is the encoded request. */
  lemma ValidationPrecedesWrite(w: Window, p: string, v: string, replies: seq<string>)
    ensures SetHandler(w, p, v, replies) == BadParam <==> ClassOf(p) == Unknown
    ensures SetHandler(w, p, v, replies) == BadValue <==> ClassOf(p) != Unknown && !URLValueValid(p, v)
    ensures SetHandler(w, p, v, replies).Sent? <==> URLParamValid(p) && URLValueValid(p, v)
    ensures SetHandler(w, p, v, replies).Sent? ==>
      ParseCommand(SetHandler(w, p, v, replies).command) == Some(Intended(p, v))
  {
    ParamValidIffKnown(p);
    if URLParamValid(p) && URLValueValid(p, v) {
      EncodeRoundTrip(p, v);
    }
  }

  /** After validation every parameter falls in the level, pump or threshold branch,
      and a level value always parses: neither error reply can occur. */
  lemma NoUnexpectedAfterValidation(w: Window, p: string, v: string, replies: seq<string>)
    requires SetHandler(w, p, v, replies).Sent?
    ensures SetHandler(w, p, v, replies).reply != Unexpected
    ensures SetHandler(w, p, v, replies).reply != ValuePanic
  {
    var polls := ValidReplies(w, replies);
    if p in VParams {
      LevelConfirmation(w, p, v, replies);
    } else if p in PumpParams {
      ToggleTakesNoValue(p, v);
      PumpConfirmation(w, p, replies);
    } else {
      ThresholdBranch(w, p, v, replies);
    }
  }

  /** The first `n` polls all decode, and none meets the goal. */
  predicate Misses(g: Goal, polls: seq<string>, n: nat)
    requires n <= |polls|
  {
    forall j :: 0 <= j < n ==> Decode(polls[j]).Some? && !Satisfies(g, Decode(polls[j]).value)
  }

  /** Poll `i` is the first one that decodes to a snapshot meeting the goal, and every
      poll before it decodes. */
  predicate FirstHit(g: Goal, polls: seq<string>, i: nat)
  {
    i < |polls| && Misses(g, polls, i) && Decode(polls[i]).Some? && Satisfies(g, Decode(polls[i]).value)
  }

  /** Every poll up to `n` decodes, so the loop reads past poll `n`. */
  lemma DecodesThrough(polls: seq<string>, n: nat)
    requires n < |polls| && forall j :: 0 <= j <= n ==> Decode(polls[j]).Some?
    ensures n < |DecodePolls(polls).0|
  {
    var m := |DecodePolls(polls).0|;
    if m <= n {
      assert false;
    }
  }

  /** The polling loop confirms with the snapshot of the first poll meeting the goal. */
  lemma AwaitConfirmsFirstHit(g: Goal, polls: seq<string>, i: nat)
    requires FirstHit(g, polls, i)
    ensures Await(g, polls) == Confirmed(Decode(polls[i]).value)
  {
    FirstHitDecoded(g, polls, i);
    ConfirmFirst(g, DecodePolls(polls).0, i);
  }

  /** The first hit among the polls is the first hit among the decoded snapshots. */
  lemma FirstHitDecoded(g: Goal, polls: seq<string>, i: nat)
    requires FirstHit(g, polls, i)
    ensures i < |DecodePolls(polls).0| && DecodePolls(polls).0[i] == Decode(polls[i]).value
    ensures Satisfies(g, DecodePolls(polls).0[i])
    ensures forall j :: 0 <= j < i ==> !Satisfies(g, DecodePolls(polls).0[j])
  {
    var frames := DecodePolls(polls).0;
    DecodesThrough(polls, i);
    forall j | 0 <= j < i
      ensures !Satisfies(g, frames[j])
    {
      assert Decode(polls[j]) == Some(frames[j]);
    }
  }

  /** When the polling loop confirms, it is with the first poll meeting the goal. */
  lemma AwaitConfirmedIsFirstHit(g: Goal, polls: seq<string>) returns (i: nat)
    requires Await(g, polls).Confirmed?
    ensures FirstHit(g, polls, i)
    ensures Decode(polls[i]) == Some(Await(g, polls).frame)
    ensures Satisfies(g, Await(g, polls).frame)
  {
    var frames := DecodePolls(polls).0;
    i := Confirm(g, frames).value;
    assert forall j :: 0 <= j < i ==> Decode(polls[j]) == Some(frames[j]);
  }

  /** The polling loop is still waiting exactly when every poll decodes and none meets
      the goal. */
  lemma AwaitStillPolling(g: Goal, polls: seq<string>)
    ensures Await(g, polls) == StillPolling <==> Misses(g, polls, |polls|)
  {
    var decoded := DecodePolls(polls);
    var frames := decoded.0;
    if Misses(g, polls, |polls|) {
      assert forall j :: 0 <= j < |frames| ==> !Satisfies(g, frames[j]);
    }
    if Await(g, polls) == StillPolling {
      assert forall j :: 0 <= j < |polls| ==> Decode(polls[j]) == Some(frames[j]);
    }
  }

  /** The polling loop panics exactly at the first poll that does not decode, when no
      earlier poll met the goal. */
  lemma AwaitPanicsAtUndecodable(g: Goal, polls: seq<string>, k: nat)
    requires k < |polls| && Misses(g, polls, k) && Decode(polls[k]).None?
    ensures Await(g, polls) == DecodePanic
  {
    var decoded := DecodePolls(polls);
    var frames := decoded.0;
    assert forall j :: 0 <= j < |frames| ==> Decode(polls[j]) == Some(frames[j]);
    assert forall j :: 0 <= j < |frames| ==> !Satisfies(g, frames[j]);
  }

  /** A level write returns the first valid reply whose value for the parameter equals
      the requested number, and keeps polling while no such reply arrived. */
  lemma LevelConfirmation(w: Window, p: string, v: string, replies: seq<string>)
    requires p in VParams && URLValueValid(p, v)
    ensures ParseInt(v, 10).Some?
    ensures SetHandler(w, p, v, replies) == Sent(Encode(p, v),
      Await(LevelEquals(p, ParseInt(v, 10).value), ValidReplies(w, replies)))
    ensures SetHandler(w, p, v, replies).reply.Confirmed? ==>
      p in SetHandler(w, p, v, replies).reply.frame &&
      SetHandler(w, p, v, replies).reply.frame[p] == ParseInt(v, 10).value
  {
    ValidatedValueParses(p, v);
    ListsMatchClasses(p);
    if SetHandler(w, p, v, replies).reply.Confirmed? {
      var _ := AwaitConfirmedIsFirstHit(LevelEquals(p, ParseInt(v, 10).value), ValidReplies(w, replies));
    }
  }

  /** A pump write returns the first valid reply whose `PUMP` field is 1 for `PUMP_ON`
      or 0 for `PUMP_OFF`, and keeps polling while none is. */
  lemma PumpConfirmation(w: Window, p: string, replies: seq<string>)
    requires p in PumpParams
    ensures SetHandler(w, p, "", replies) == Sent("<" + p + ";>", Await(PumpState(p), ValidReplies(w, replies)))
    ensures SetHandler(w, p, "", replies).reply.Confirmed? ==>
      "PUMP" in SetHandler(w, p, "", replies).reply.frame &&
      SetHandler(w, p, "", replies).reply.frame["PUMP"] == (if p == "PUMP_ON" then 1 else 0)
  {
    ToggleTakesNoValue(p, "");
    ListsMatchClasses(p);
    PumpPrefixMatchesClass(p);
    assert URLParamValid(p) && URLValueValid(p, "");
    assert Encode(p, "") == "<" + p + ";>";
    assert !StringInSlice(p, VParams) && StringInSlice(p, PumpParams);
    var polls := ValidReplies(w, replies);
    assert Respond(w, p, "", replies) == Await(PumpState(p), polls);
    if Await(PumpState(p), polls).Confirmed? {
      var _ := AwaitConfirmedIsFirstHit(PumpState(p), polls);
    }
  }

  /** A threshold write takes the threshold branch: it polls for any snapshot. */
  lemma ThresholdBranch(w: Window, p: string, v: string, replies: seq<string>)
    requires p in TParams && URLValueValid(p, v)
    ensures SetHandler(w, p, v, replies) == Sent(Encode(p, v), Await(AnySnapshot, ValidReplies(w, replies)))
  {
    ListsMatchClasses(p);
    assert !StringInSlice(p, VParams) && !StringInSlice(p, PumpParams) && StringInSlice(p, TParams);
  }

  /** A threshold write does not compare: it returns the first valid reply, decoded. */
  lemma ThresholdReturnsFirstReply(w: Window, p: string, v: string, replies: seq<string>)
    requires p in TParams && URLValueValid(p, v)
    ensures var polls := ValidReplies(w, replies);
      && (|polls| == 0 ==> SetHandler(w, p, v, replies).reply == StillPolling)
      && (|polls| > 0 && Decode(polls[0]).Some? ==> SetHandler(w, p, v, replies).reply == Confirmed(Decode(polls[0]).value))
      && (|polls| > 0 && Decode(polls[0]).None? ==> SetHandler(w, p, v, replies).reply == DecodePanic)
  {
    ThresholdBranch(w, p, v, replies);
    AwaitAnyTakesFirst(ValidReplies(w, replies));
  }

  /** Waiting for any snapshot ends at the first poll: with it when it decodes, with a
      panic when it does not. */
  lemma AwaitAnyTakesFirst(polls: seq<string>)
    ensures |polls| == 0 ==> Await(AnySnapshot, polls) == StillPolling
    ensures |polls| > 0 && Decode(polls[0]).Some? ==> Await(AnySnapshot, polls) == Confirmed(Decode(polls[0]).value)
    ensures |polls| > 0 && Decode(polls[0]).None? ==> Await(AnySnapshot, polls) == DecodePanic
  {
  }

  /** `getHandler` answers with the first valid reply, decoded; with no valid reply it
      is still reading, and it panics when that reply does not decode. */
  lemma GetAllTakesFirstValid(w: Window, replies: seq<string>)
    ensures var polls := ValidReplies(w, replies);
      && (|polls| == 0 ==> GetAll(w, replies) == StillPolling)
      && (|polls| > 0 && Decode(polls[0]).Some? ==> GetAll(w, replies) == Confirmed(Decode(polls[0]).value))
      && (|polls| > 0 && Decode(polls[0]).None? ==> GetAll(w, replies) == DecodePanic)
  {
    AwaitAnyTakesFirst(ValidReplies(w, replies));
  }

  /** A single reply that decodes to a frame meeting the goal confirms with that frame. */
  lemma AwaitOne(g: Goal, line: string, f: Frame)
    requires Decode(line) == Some(f) && Satisfies(g, f)
    ensures Await(g, [line]) == Confirmed(f)
  {
    var decoded := DecodePolls([line]);
    assert |decoded.0| == 1 && decoded.0[0] == f;
    assert decoded.0 == [f];
  }

  /** The whole write of a level value: the request `p=n` writes `<SET_p=n;>`, and a
      device that answers with a valid line decoding to a frame whose `p` is `n`
      confirms it with that frame. `Frame.RenderRoundTrip` supplies such a line for
      any writable entries. */
  lemma LevelWriteEchoed(w: Window, p: string, n: int, line: string, f: Frame)
    requires p in VParams && 0 <= n <= 255
    requires OutputIsValid(w, line) && Decode(line) == Some(f) && p in f && f[p] == n
    ensures SetHandler(w, p, FormatInt(n, 10), [line]) ==
      Sent("<SET_" + p + "=" + FormatInt(n, 10) + ";>", Confirmed(f))
  {
    ListsMatchClasses(p);
    DecimalValueRanges(p, n);
    ParseFormat(n, 10);
    PumpPrefixMatchesClass(p);
    ValidReplyKept(w, line);
    AwaitOne(LevelEquals(p, n), line, f);
  }

  /** The whole pump write: `PUMP_ON` writes `<PUMP_ON;>`, and a valid reply decoding
      to a frame whose `PUMP` is 1 confirms it. */
  lemma PumpOnEchoed(w: Window, line: string, f: Frame)
    requires OutputIsValid(w, line) && Decode(line) == Some(f) && "PUMP" in f && f["PUMP"] == 1
    ensures SetHandler(w, "PUMP_ON", "", [line]) == Sent("<PUMP_ON;>", Confirmed(f))
  {
    PumpConfirmation(w, "PUMP_ON", [line]);
    ToggleCommands();
    ValidReplyKept(w, line);
    AwaitOne(PumpState("PUMP_ON"), line, f);
  }
}
