/**
 * The voice session hook as a pure state machine: a session value and an event give the
 * next session value and the effects the hook performs, in order (messages sent on the data
 * channel, capture and connection requests, handles closed, tool backend requests).
 *
 * `startSession` runs to completion in one step, with the outcomes of audio capture and of
 * the real-time connection as parameters. The tool backend call is split in two: the
 * function-call event posts the request, and a later `ToolResult` or `ToolFailed` event is
 * the completion of that fetch.
 */
module VoiceSession {
  import opened Wrappers

  datatype Status = Idle | Listening | Thinking | Speaking

  /** An opaque browser resource: audio context, peer connection, data channel or audio element. */
  datatype Handle = Handle(id: nat)

  /** What a successful real-time connection hands back. */
  datatype Connection = Connection(peer: Handle, channel: Handle, remoteAudio: Handle)

  /** A parsed JSON value; parsing and serialising are outside the model. */
  datatype Json =
    | JNull
    | JBool(b: bool)
    | JNum(n: int)
    | JStr(str: string)
    | JArr(items: seq<Json>)
    | JObj(fields: seq<(string, Json)>)

  /** The options a `response.create` may carry. */
  datatype ResponseOptions = ResponseOptions(modalities: seq<string>, instructions: string)

  /** Messages the client sends on the data channel. */
  datatype Outbound =
    | ResponseCreate(options: Option<ResponseOptions>)
    | ResponseCancel
    | FunctionCallOutput(callId: string, output: Json)

  /** What one step does to the outside world, in order. */
  datatype Effect =
    | Send(msg: Outbound)      // dc.send of a serialised message
    | AcquireCapture           // initializeAudioContext()
    | Connect                  // connectToRealtimeAPI(stream)
    | Close(handle: Handle)    // close() on a held handle
    | PostSearch(body: Json)   // POST /api/tools/pubmed with the re-serialised arguments

  /** A data-channel message after JSON parsing, classified by its `type`. */
  datatype Inbound =
    | AudioDelta                                                          // response.audio.delta
    | SpeechStarted                                                       // input_audio_buffer.speech_started
    | ResponseDone                                                        // response.done
    | FunctionCallDone(name: string, callId: string, arguments: Option<Json>)  // None: arguments are not JSON
    | Other(kind: string)                                                 // any other type
    | Malformed                                                           // the payload is not JSON

  datatype Event =
    | Start(capture: Option<Handle>, connection: Option<Connection>)  // None: that await rejected
    | Stop
    | ChannelOpen
    | Message(inbound: Inbound)
    | ToolResult(callId: string, data: Json)   // the tool fetch for callId answered with data
    | ToolFailed(callId: string)               // the tool fetch for callId rejected

  /** The hook's state: the status, the initialising guard, the held handles, and the call ids
      of tool fetches still in flight. */
  datatype Session = Session(
    status: Status,
    initializing: bool,
    audioCtx: Option<Handle>,
    peer: Option<Handle>,
    channel: Option<Handle>,
    remoteAudio: Option<Handle>,
    pendingCalls: seq<string>
  )

  const Initial := Session(Idle, false, None, None, None, None, [])

  const SearchTool := "search_pubmed"
  const GreetingText := "Greet the user warmly as 'Researcher Pro'. Keep it brief (1 sentence)."
  const Greeting := ResponseCreate(Some(ResponseOptions(["text", "audio"], GreetingText)))
  const Continue := ResponseCreate(None)

  /** Classify a parsed message by its `type` field. */
  function Classify(kind: string, name: string, callId: string, arguments: Option<Json>): (m: Inbound)
    ensures kind == "response.audio.delta" <==> m == AudioDelta
    ensures kind == "input_audio_buffer.speech_started" <==> m == SpeechStarted
    ensures kind == "response.done" <==> m == ResponseDone
    ensures kind == "response.function_call_arguments.done" <==> m == FunctionCallDone(name, callId, arguments)
    ensures m.Other? ==> m.kind == kind
  {
    if kind == "response.audio.delta" then AudioDelta
    else if kind == "input_audio_buffer.speech_started" then SpeechStarted
    else if kind == "response.done" then ResponseDone
    else if kind == "response.function_call_arguments.done" then FunctionCallDone(name, callId, arguments)
    else Other(kind)
  }

  /** The close calls of `stopSession`: data channel, audio context, peer connection, each
      only when held. */
  function Closes(s: Session): (r: seq<Effect>)
    ensures |r| <= 3
    ensures forall i :: 0 <= i < |r| ==> r[i].Close?
    ensures forall h :: Close(h) in r <==> Some(h) in {s.channel, s.audioCtx, s.peer}
    ensures |r| == (if s.channel.Some? then 1 else 0) + (if s.audioCtx.Some? then 1 else 0)
                   + (if s.peer.Some? then 1 else 0)
    ensures s.channel.Some? ==> r[0] == Close(s.channel.value)
    ensures s.peer.Some? ==> r[|r| - 1] == Close(s.peer.value)
  {
    (if s.channel.Some? then [Close(s.channel.value)] else [])
    + (if s.audioCtx.Some? then [Close(s.audioCtx.value)] else [])
    + (if s.peer.Some? then [Close(s.peer.value)] else [])
  }

  /** `stopSession`: from any state, to idle with no audio context, peer connection or data
      channel held, the guard cleared and no tool fetch able to answer any more. The audio
      element is left as it was. */
  function StopSession(s: Session): (r: (Session, seq<Effect>))
    ensures r.0.status == Idle && !r.0.initializing
    ensures r.0.audioCtx.None? && r.0.peer.None? && r.0.channel.None?
    ensures r.0.remoteAudio == s.remoteAudio
    ensures r.0.pendingCalls == []
    ensures r.1 == Closes(s)
  {
    (Session(Idle, false, None, None, None, s.remoteAudio, []), Closes(s))
  }

  /** The re-entry guard of `startSession`. */
  predicate StartBlocked(s: Session) {
    s.initializing || s.status == Listening || s.status == Thinking || s.status == Speaking
  }

  /** `startSession`, run to completion with the outcomes of capture and connection. */
  function StartSession(s: Session, capture: Option<Handle>, connection: Option<Connection>)
    : (r: (Session, seq<Effect>))
    ensures StartBlocked(s) ==> r == (s, [])
    ensures !StartBlocked(s) ==> !r.0.initializing && |r.1| >= 1 && r.1[0] == AcquireCapture
    ensures !StartBlocked(s) && capture.None? ==>
              r.0 == StopSession(s).0 && r.1 == [AcquireCapture] + Closes(s)
    ensures !StartBlocked(s) && capture.Some? && connection.None? ==>
              r.0 == StopSession(s).0
              && r.1 == [AcquireCapture, Connect] + Closes(s.(audioCtx := capture))
    ensures !StartBlocked(s) && capture.Some? && connection.Some? ==>
              && r.0.status == Thinking
              && r.0.audioCtx == capture
              && r.0.peer == Some(connection.value.peer)
              && r.0.channel == Some(connection.value.channel)
              && r.0.remoteAudio == Some(connection.value.remoteAudio)
              && r.0.pendingCalls == s.pendingCalls
              && r.1 == [AcquireCapture, Connect]
  {
    if StartBlocked(s) then (s, [])
    else
      var guarded := s.(initializing := true);
      match capture
      case None =>
        var (stopped, closes) := StopSession(guarded);
        (stopped.(initializing := false), [AcquireCapture] + closes)
      case Some(ctx) =>
        var captured := guarded.(audioCtx := Some(ctx), status := Thinking);
        match connection
        case None =>
          var (stopped, closes) := StopSession(captured);
          (stopped.(initializing := false), [AcquireCapture, Connect] + closes)
        case Some(c) =>
          var connected := captured.(peer := Some(c.peer), channel := Some(c.channel),
                                     remoteAudio := Some(c.remoteAudio));
          (connected.(initializing := false), [AcquireCapture, Connect])
  }

  /** `dc.onmessage` for a message on the live channel. */
  function OnMessage(s: Session, m: Inbound): (r: (Session, seq<Effect>))
    ensures r.0 == s.(status := r.0.status, pendingCalls := r.0.pendingCalls)
    ensures m == AudioDelta ==> r == (s.(status := Speaking), [])
    ensures m == ResponseDone ==> r == (s.(status := Listening), [])
    ensures m == SpeechStarted ==> r == (s.(status := Listening), [Send(ResponseCancel)])
    ensures m.Other? || m.Malformed? ==> r == (s, [])
    ensures m.FunctionCallDone? && m.name != SearchTool ==> r == (s, [])
    ensures m.FunctionCallDone? && m.name == SearchTool && m.arguments.None? ==>
              r == (s.(status := Thinking), [])
    ensures m.FunctionCallDone? && m.name == SearchTool && m.arguments.Some? ==>
              r == (s.(status := Thinking, pendingCalls := s.pendingCalls + [m.callId]),
                    [PostSearch(m.arguments.value)])
  {
    match m
    case AudioDelta => (s.(status := Speaking), [])
    case SpeechStarted => (s.(status := Listening), [Send(ResponseCancel)])
    case ResponseDone => (s.(status := Listening), [])
    case FunctionCallDone(name, callId, arguments) =>
      if name != SearchTool then (s, [])
      else
        var thinking := s.(status := Thinking);
        if arguments.None? then (thinking, [])
        else (thinking.(pendingCalls := s.pendingCalls + [callId]), [PostSearch(arguments.value)])
    case Other(_) => (s, [])
    case Malformed => (s, [])
  }

  /** `xs` with the first occurrence of `x` removed. */
  function RemoveFirst(xs: seq<string>, x: string): (r: seq<string>)
    requires x in xs
    ensures multiset(r) == multiset(xs) - multiset{x}
  {
    if xs[0] == x then
      assert xs == [x] + xs[1..];
      xs[1..]
    else
      assert xs == [xs[0]] + xs[1..];
      [xs[0]] + RemoveFirst(xs[1..], x)
  }

  /** The completion of the tool fetch for `callId`: with data, the output goes back tagged with
      the same call id and then a new response is requested. */
  function OnToolResult(s: Session, callId: string, data: Option<Json>): (r: (Session, seq<Effect>))
    ensures callId !in s.pendingCalls ==> r == (s, [])
    ensures callId in s.pendingCalls ==>
              r.0 == s.(pendingCalls := r.0.pendingCalls)
              && multiset(r.0.pendingCalls) == multiset(s.pendingCalls) - multiset{callId}
    ensures callId in s.pendingCalls && data.Some? ==>
              r.1 == [Send(FunctionCallOutput(callId, data.value)), Send(Continue)]
    ensures data.None? ==> r.1 == []
  {
    if callId !in s.pendingCalls then (s, [])
    else
      var rest := RemoveFirst(s.pendingCalls, callId);
      match data
      case Some(d) => (s.(pendingCalls := rest), [Send(FunctionCallOutput(callId, d)), Send(Continue)])
      case None => (s.(pendingCalls := rest), [])
  }

  /** Each handle `after` holds is one `before` already held: nothing was acquired. */
  predicate AcquiresNothing(before: Session, after: Session) {
    && (after.audioCtx.None? || after.audioCtx == before.audioCtx)
    && (after.peer.None? || after.peer == before.peer)
    && (after.channel.None? || after.channel == before.channel)
    && after.remoteAudio == before.remoteAudio
  }

  /** One event. Channel events reach the handlers only while a data channel is held; only a
      start acquires handles, and only a start asks for capture or a connection. */
  function Step(s: Session, e: Event): (r: (Session, seq<Effect>))
    ensures !e.Start? ==> AcquiresNothing(s, r.0) && AcquireCapture !in r.1 && Connect !in r.1
    ensures (e.ChannelOpen? || e.Message?) && s.channel.None? ==> r == (s, [])
  {
    match e
    case Start(capture, connection) => StartSession(s, capture, connection)
    case Stop => StopSession(s)
    case ChannelOpen =>
      if s.channel.None? then (s, []) else (s.(status := Listening), [Send(Greeting)])
    case Message(m) =>
      if s.channel.None? then (s, []) else OnMessage(s, m)
    case ToolResult(callId, data) => OnToolResult(s, callId, Some(data))
    case ToolFailed(callId) => OnToolResult(s, callId, None)
  }

  /** The session and all effects, in order, after a sequence of events. */
  function Run(s: Session, events: seq<Event>): (Session, seq<Effect>)
    decreases |events|
  {
    if |events| == 0 then (s, [])
    else
      var before := Run(s, events[..|events| - 1]);
      var after := Step(before.0, events[|events| - 1]);
      (after.0, before.1 + after.1)
  }

  lemma RunSnoc(s: Session, events: seq<Event>, e: Event)
    ensures Run(s, events + [e]) == (Step(Run(s, events).0, e).0, Run(s, events).1 + Step(Run(s, events).0, e).1)
  {
    assert (events + [e])[..|events|] == events;
  }

  /** The resource invariant of a settled session: idle exactly when no data channel is held,
      no handle but the audio element is held while idle, all three held otherwise, no start
      in progress, and no tool fetch in flight while idle. */
  predicate Settled(s: Session) {
    && !s.initializing
    && (s.status == Idle <==> s.channel.None?)
    && (s.status == Idle ==> s.audioCtx.None? && s.peer.None? && s.pendingCalls == [])
    && (s.status != Idle ==> s.audioCtx.Some? && s.peer.Some? && s.channel.Some?)
  }

  /** Every event keeps a settled session settled. */
  lemma StepSettled(s: Session, e: Event)
    requires Settled(s)
    ensures Settled(Step(s, e).0)
  {
    match e
    case Message(m) =>
      if s.channel.Some? {
        var r := OnMessage(s, m);
        assert r.0.status != Idle;
      }
    case _ =>
  }

  /** Every session reachable from the initial one is settled. */
  lemma {:induction false} RunSettled(events: seq<Event>)
    ensures Settled(Run(Initial, events).0)
    decreases |events|
  {
    if |events| > 0 {
      RunSettled(events[..|events| - 1]);
      StepSettled(Run(Initial, events[..|events| - 1]).0, events[|events| - 1]);
    }
  }

  /** In a settled session the channel opens only while live, with exactly one greeting
      that moves the session to listening; while idle no channel event has any effect. */
  lemma ChannelEvents(s: Session, m: Inbound)
    requires Settled(s)
    ensures s.status != Idle ==> Step(s, ChannelOpen) == (s.(status := Listening), [Send(Greeting)])
    ensures s.status == Idle ==> Step(s, ChannelOpen) == (s, []) && Step(s, Message(m)) == (s, [])
  {
  }

  /** While a session is live, starting again does nothing: no second capture, no second
      connection, and the held handles are kept. */
  lemma StartWhileLive(s: Session, capture: Option<Handle>, connection: Option<Connection>)
    requires Settled(s) && s.channel.Some?
    ensures Step(s, Start(capture, connection)) == (s, [])
  {
  }

  /** The call ids of the tool outputs among some effects. */
  function OutputIds(effects: seq<Effect>): (ids: seq<string>)
    ensures |ids| <= |effects|
  {
    if |effects| == 0 then []
    else
      var last := effects[|effects| - 1];
      OutputIds(effects[..|effects| - 1])
      + (if last.Send? && last.msg.FunctionCallOutput? then [last.msg.callId] else [])
  }

  /** The call id a single event requests, if it is a `search_pubmed` call. */
  function Requested(e: Event): (ids: seq<string>)
    ensures |ids| <= 1
  {
    if e.Message? && e.inbound.FunctionCallDone? && e.inbound.name == SearchTool
    then [e.inbound.callId] else []
  }

  /** The call ids of the `search_pubmed` calls the assistant requested in some events. */
  function RequestedIds(events: seq<Event>): (ids: seq<string>)
    ensures |ids| <= |events|
  {
    if |events| == 0 then []
    else RequestedIds(events[..|events| - 1]) + Requested(events[|events| - 1])
  }

  lemma {:induction false} OutputIdsAppend(a: seq<Effect>, b: seq<Effect>)
    ensures OutputIds(a + b) == OutputIds(a) + OutputIds(b)
    decreases |b|
  {
    if |b| > 0 {
      assert (a + b)[..|a + b| - 1] == a + b[..|b| - 1];
      OutputIdsAppend(a, b[..|b| - 1]);
    } else {
      assert a + b == a;
    }
  }

  /** One step accounts for its outputs: each tool output consumes one in-flight call id, and
      only a requested `search_pubmed` call adds one. */
  lemma StepCorrelation(s: Session, e: Event)
    ensures var r := Step(s, e);
      multiset(OutputIds(r.1)) + multiset(r.0.pendingCalls) <= multiset(s.pendingCalls) + multiset(Requested(e))
  {
    match e
    case ToolResult(callId, data) => ToolCorrelation(s, callId, Some(data));
    case ToolFailed(callId) => ToolCorrelation(s, callId, None);
    case _ => QuietCorrelation(s, e);
  }

  lemma ToolCorrelation(s: Session, callId: string, data: Option<Json>)
    ensures var r := OnToolResult(s, callId, data);
      multiset(OutputIds(r.1)) + multiset(r.0.pendingCalls) <= multiset(s.pendingCalls)
  {
    var r := OnToolResult(s, callId, data);
    if callId in s.pendingCalls {
      var outs := OutputIds(r.1);
      if data.Some? {
        ReplyOutputIds(callId, data.value);
      } else {
        assert outs == [];
      }
      ConsumeOne(multiset(outs), multiset(r.0.pendingCalls), multiset(s.pendingCalls), callId);
    }
  }

  lemma ConsumeOne<T>(outs: multiset<T>, rest: multiset<T>, pending: multiset<T>, id: T)
    requires id in pending && outs <= multiset{id} && rest == pending - multiset{id}
    ensures outs + rest <= pending
  {
    forall x ensures (outs + rest)[x] <= pending[x] {
      assert outs[x] <= multiset{id}[x];
    }
  }

  /** The answer to a tool call carries exactly that call's id. */
  lemma ReplyOutputIds(callId: string, data: Json)
    ensures OutputIds([Send(FunctionCallOutput(callId, data)), Send(Continue)]) == [callId]
  {
    var out := [Send(FunctionCallOutput(callId, data)), Send(Continue)];
    assert out[..1] == [Send(FunctionCallOutput(callId, data))];
    assert out[..1][..0] == [];
  }

  lemma QuietCorrelation(s: Session, e: Event)
    requires !e.ToolResult? && !e.ToolFailed?
    ensures var r := Step(s, e);
      multiset(OutputIds(r.1)) + multiset(r.0.pendingCalls) <= multiset(s.pendingCalls) + multiset(Requested(e))
  {
    var r := Step(s, e);
    match e {
      case Start(capture, connection) => StartQuiet(s, capture, connection);
      case Stop => CloseQuiet(s);
      case ChannelOpen =>
      case Message(m) => if s.channel.Some? { MessageQuiet(s, m); }
    }
    OutputIdsNone(r.1);
  }

  lemma CloseQuiet(s: Session)
    ensures NoOutputs(StopSession(s).1) && StopSession(s).0.pendingCalls == []
  {
    var c := Closes(s);
    assert forall i :: 0 <= i < |c| ==> c[i].Close?;
  }

  lemma StartQuiet(s: Session, capture: Option<Handle>, connection: Option<Connection>)
    ensures var r := StartSession(s, capture, connection);
      NoOutputs(r.1) && (r.0.pendingCalls == s.pendingCalls || r.0.pendingCalls == [])
  {
    if !StartBlocked(s) {
      CloseQuiet(s);
      CloseQuiet(s.(audioCtx := capture));
    }
  }

  lemma MessageQuiet(s: Session, m: Inbound)
    ensures var r := OnMessage(s, m);
      && NoOutputs(r.1)
      && (r.0.pendingCalls == s.pendingCalls || r.0.pendingCalls == s.pendingCalls + Requested(Message(m)))
  {
  }

  /** None of the effects sends a tool output. */
  predicate NoOutputs(effects: seq<Effect>) {
    forall i :: 0 <= i < |effects| ==> !(effects[i].Send? && effects[i].msg.FunctionCallOutput?)
  }

  lemma {:induction false} OutputIdsNone(effects: seq<Effect>)
    requires NoOutputs(effects)
    ensures OutputIds(effects) == []
    decreases |effects|
  {
    if |effects| > 0 {
      OutputIdsNone(effects[..|effects| - 1]);
    }
  }

  /** Over any run, tool outputs and calls still in flight together never exceed the calls
      in flight at the start plus the `search_pubmed` calls the assistant requested. */
  lemma {:induction false} RunAccounts(s: Session, events: seq<Event>)
    ensures multiset(OutputIds(Run(s, events).1)) + multiset(Run(s, events).0.pendingCalls)
              <= multiset(s.pendingCalls) + multiset(RequestedIds(events))
    decreases |events|
  {
    if |events| > 0 {
      var init := events[..|events| - 1];
      var last := events[|events| - 1];
      assert events == init + [last];
      RunAccounts(s, init);
      RunSnoc(s, init, last);
      var before := Run(s, init);
      var after := Step(before.0, last);
      StepCorrelation(before.0, last);
      OutputIdsAppend(before.1, after.1);
      var r := Run(s, events);
      assert r.1 == before.1 + after.1 && r.0 == after.0;
      assert OutputIds(r.1) == OutputIds(before.1) + OutputIds(after.1);
      assert RequestedIds(events) == RequestedIds(init) + Requested(last);
      ChainAccounts(multiset(OutputIds(before.1)), multiset(before.0.pendingCalls),
                    multiset(OutputIds(after.1)), multiset(after.0.pendingCalls),
                    multiset(s.pendingCalls), multiset(RequestedIds(init)), multiset(Requested(last)));
    }
  }

  lemma ChainAccounts<T>(outBefore: multiset<T>, pendingBefore: multiset<T>,
                         outAfter: multiset<T>, pendingAfter: multiset<T>,
                         start: multiset<T>, requestedBefore: multiset<T>, requestedLast: multiset<T>)
    requires outBefore + pendingBefore <= start + requestedBefore
    requires outAfter + pendingAfter <= pendingBefore + requestedLast
    ensures outBefore + outAfter + pendingAfter <= start + requestedBefore + requestedLast
  {
    forall x ensures (outBefore + outAfter + pendingAfter)[x] <= (start + requestedBefore + requestedLast)[x] {
      assert (outBefore + pendingBefore)[x] <= (start + requestedBefore)[x];
      assert (outAfter + pendingAfter)[x] <= (pendingBefore + requestedLast)[x];
    }
  }

  /** Over any run from the initial session, every tool output carries the call id of a
      `search_pubmed` call the assistant requested, and no call id is answered more often
      than it was requested. */
  lemma RunCorrelation(events: seq<Event>)
    ensures multiset(OutputIds(Run(Initial, events).1)) <= multiset(RequestedIds(events))
    ensures forall id :: id in OutputIds(Run(Initial, events).1) ==> id in RequestedIds(events)
  {
    RunAccounts(Initial, events);
    var r := Run(Initial, events);
    var outs, requested := multiset(OutputIds(r.1)), multiset(RequestedIds(events));
    assert outs + multiset(r.0.pendingCalls) <= requested;
    forall id ensures outs[id] <= requested[id] {
      assert (outs + multiset(r.0.pendingCalls))[id] <= requested[id];
    }
    forall id | id in OutputIds(r.1) ensures id in RequestedIds(events) {
      assert outs[id] > 0;
    }
  }

  /** The flow the hook's tests exercise: start with capture and connection succeeding, the
      channel opens with one greeting, a `search_pubmed` call posts its arguments, and its
      answer goes back with the same call id before a new response is requested. */
  lemma ToolCallScenario(ctx: Handle, c: Connection, args: Json, data: Json)
    ensures var r := Run(Initial, [Start(Some(ctx), Some(c)), ChannelOpen,
                                   Message(FunctionCallDone(SearchTool, "call_123", Some(args))),
                                   ToolResult("call_123", data)]);
      && r.0.status == Thinking
      && r.0.pendingCalls == []
      && r.1 == [AcquireCapture, Connect, Send(Greeting), PostSearch(args),
                 Send(FunctionCallOutput("call_123", data)), Send(Continue)]
  {
    var e0, e1, e2, e3 := Start(Some(ctx), Some(c)), ChannelOpen,
                          Message(FunctionCallDone(SearchTool, "call_123", Some(args))), ToolResult("call_123", data);
    var live := Session(Thinking, false, Some(ctx), Some(c.peer), Some(c.channel), Some(c.remoteAudio), []);
    ScenarioStart(ctx, c);
    ScenarioOpen(live);
    ScenarioCall(live.(status := Listening), args);
    ScenarioReply(live.(pendingCalls := ["call_123"]), data);

    RunSnoc(Initial, [], e0);
    assert [] + [e0] == [e0];
    RunSnoc(Initial, [e0], e1);
    assert [e0] + [e1] == [e0, e1];
    RunSnoc(Initial, [e0, e1], e2);
    assert [e0, e1] + [e2] == [e0, e1, e2];
    RunSnoc(Initial, [e0, e1, e2], e3);
    assert [e0, e1, e2] + [e3] == [e0, e1, e2, e3];
  }

  /** The four steps of the scenario above, one event each. */
  lemma ScenarioStart(ctx: Handle, c: Connection)
    ensures Step(Initial, Start(Some(ctx), Some(c)))
         == (Session(Thinking, false, Some(ctx), Some(c.peer), Some(c.channel), Some(c.remoteAudio), []),
             [AcquireCapture, Connect])
  {
  }

  lemma ScenarioOpen(live: Session)
    requires live.status == Thinking && live.channel.Some?
    ensures Step(live, ChannelOpen) == (live.(status := Listening), [Send(Greeting)])
  {
  }

  lemma ScenarioCall(s: Session, args: Json)
    requires s.status == Listening && s.channel.Some? && s.pendingCalls == []
    ensures Step(s, Message(FunctionCallDone(SearchTool, "call_123", Some(args))))
         == (s.(status := Thinking, pendingCalls := ["call_123"]), [PostSearch(args)])
  {
    assert s.pendingCalls + ["call_123"] == ["call_123"];
  }

  lemma ScenarioReply(s: Session, data: Json)
    requires s.pendingCalls == ["call_123"]
    ensures Step(s, ToolResult("call_123", data))
         == (s.(pendingCalls := []), [Send(FunctionCallOutput("call_123", data)), Send(Continue)])
  {
    assert |multiset(Step(s, ToolResult("call_123", data)).0.pendingCalls)| == 0;
  }
}
