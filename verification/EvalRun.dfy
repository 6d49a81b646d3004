/** The eval harness loop and the provider conversation state that must stay in step with it. */
module EvalRun {
  import opened Common

  datatype Call = Call(name: string, args: string)

  /** A call as the provider issued it: its id is what the result must be sent back under. */
  datatype Pending = Pending(id: string, call: Call)

  datatype Message =
    | User(prompt: string)
    | Assistant(calls: seq<Call>)
    | Tool(call: Call, result: string)

  datatype Paired = Paired(message: Message, pending: Pending)

  function ToolMessages(messages: seq<Message>): (r: seq<Message>)
    ensures forall i :: 0 <= i < |r| ==> r[i].Tool?
  {
    if messages == [] then []
    else
      var last := messages[|messages| - 1];
      ToolMessages(messages[..|messages| - 1]) + if last.Tool? then [last] else []
  }

  lemma ToolMessagesAppend(messages: seq<Message>, m: Message)
    ensures ToolMessages(messages + [m]) == ToolMessages(messages) + if m.Tool? then [m] else []
  {
    assert (messages + [m])[..|messages|] == messages;
  }

  // ---- The provider's conversation state ----

  /** What consuming new results gives: the pairs, or the thrown count mismatch. */
  datatype Consumed = Pairs(pairs: seq<Paired>) | CountMismatch(expected: nat, received: nat)

  /** `toolMessages.slice(seen)` */
  function NewSince(tools: seq<Message>, seen: nat): seq<Message> {
    if seen <= |tools| then tools[seen..] else []
  }

  function Zip(messages: seq<Message>, pending: seq<Pending>): (r: seq<Paired>)
    requires |messages| == |pending|
    ensures |r| == |messages|
    ensures forall i :: 0 <= i < |r| ==> r[i] == Paired(messages[i], pending[i])
  {
    seq(|messages|, i requires 0 <= i < |messages| => Paired(messages[i], pending[i]))
  }

  /** What is consumed when `seen` results were consumed before and `pending` calls await theirs. */
  function Consume(tools: seq<Message>, pending: seq<Pending>, seen: nat): Consumed {
    var newTools := NewSince(tools, seen);
    if newTools == [] then Pairs([])
    else if |newTools| != |pending| then CountMismatch(|pending|, |newTools|)
    else Pairs(Zip(newTools, pending))
  }

  /**
   * Consuming fails exactly when there are new results and not as many as calls await one; otherwise each new
   * result, in order, goes with the pending call of its place, and no new result means no pair.
   */
  lemma MismatchExactly(tools: seq<Message>, pending: seq<Pending>, seen: nat)
    ensures var r := Consume(tools, pending, seen);
            && (r.CountMismatch? <==> seen < |tools| && |tools| - seen != |pending|)
            && (r.CountMismatch? ==> r == CountMismatch(|pending|, |tools| - seen))
            && (r.Pairs? ==> |r.pairs| == if seen < |tools| then |tools| - seen else 0)
            && (r.Pairs? ==> forall i :: 0 <= i < |r.pairs| ==> r.pairs[i] == Paired(tools[seen + i], pending[i]))
  {
  }

  class ConversationState {
    var pending: seq<Pending>
    var consumed: nat

    constructor ()
      ensures pending == [] && consumed == 0
    {
      pending, consumed := [], 0;
    }

    method Reset()
      modifies this
      ensures pending == [] && consumed == 0
    {
      pending, consumed := [], 0;
    }

    method SetPending(calls: seq<Pending>)
      modifies this
      ensures pending == calls && consumed == old(consumed)
    {
      pending := calls;
    }

    /** Pair the tool results not seen before, in order, with the pending calls, in order. */
    method ConsumeNewToolResults(messages: seq<Message>) returns (r: Consumed)
      modifies this
      ensures r == Consume(ToolMessages(messages), old(pending), old(consumed))
      ensures r.Pairs? && r.pairs != [] ==> consumed == |ToolMessages(messages)| && pending == []
      ensures !(r.Pairs? && r.pairs != []) ==> consumed == old(consumed) && pending == old(pending)
    {
      var tools := ToolMessages(messages);
      var newTools := NewSince(tools, consumed);
      if |newTools| == 0 {
        return Pairs([]);
      }
      if |newTools| != |pending| {
        return CountMismatch(|pending|, |newTools|);
      }
      r := Pairs(Zip(newTools, pending));
      consumed := |tools|;
      pending := [];
    }
  }

  // ---- The harness ----

  /** What the model provider answers one step with, and what one tool call yields. */
  datatype Reply = Calls(calls: seq<Pending>) | ProviderThrows
  datatype ToolReply = Result(text: string) | ToolThrows

  datatype Limits = Limits(maxSteps: nat, perStep: nat, total: nat)

  /** One `complete` that returned: what it consumed and the calls it asked for. */
  datatype StepLog = StepLog(consumed: seq<Paired>, calls: seq<Pending>)

  datatype Outcome =
    | Completed | BadMaxSteps | Mismatch | ProviderFailed | OverPerStep | OverTotal | Unexposed | ToolFailed

  function CallsOf(pending: seq<Pending>): (r: seq<Call>)
    ensures |r| == |pending| && forall i :: 0 <= i < |r| ==> r[i] == pending[i].call
  {
    seq(|pending|, i requires 0 <= i < |pending| => pending[i].call)
  }

  /** The results of `tools` answer `calls`, one for one and in order. */
  predicate Answers(tools: seq<Message>, calls: seq<Call>) {
    |tools| == |calls| && forall i :: 0 <= i < |tools| ==> tools[i].Tool? && tools[i].call == calls[i]
  }

  /** The calls whose results step k must find. */
  function CallsBefore(log: seq<StepLog>, k: nat): seq<Pending>
    requires k <= |log|
  {
    if k == 0 then [] else log[k - 1].calls
  }

  predicate PairsAnswer(pairs: seq<Paired>, earlier: seq<Pending>) {
    && |pairs| == |earlier|
    && forall i :: 0 <= i < |pairs| ==>
         pairs[i].pending == earlier[i] && pairs[i].message.Tool? && pairs[i].message.call == earlier[i].call
  }

  /** Step k consumes exactly the results of the calls of step k - 1, each paired with its own call. */
  predicate InStep(log: seq<StepLog>) {
    forall k :: 0 <= k < |log| ==> PairsAnswer(log[k].consumed, CallsBefore(log, k))
  }

  function MessagesOf(pairs: seq<Paired>): (r: seq<Message>)
    ensures |r| == |pairs| && forall i :: 0 <= i < |r| ==> r[i] == pairs[i].message
  {
    seq(|pairs|, i requires 0 <= i < |pairs| => pairs[i].message)
  }

  /** All results consumed so far, in order. */
  function AllConsumed(log: seq<StepLog>): seq<Message> {
    if log == [] then [] else AllConsumed(log[..|log| - 1]) + MessagesOf(log[|log| - 1].consumed)
  }

  /** The calls of all steps, in the order they are to be executed. */
  function AllCalls(log: seq<StepLog>): seq<Call> {
    if log == [] then [] else AllCalls(log[..|log| - 1]) + CallsOf(log[|log| - 1].calls)
  }

  /** Result number i is that of call number i, and carries what tool call number `from + i` returned. */
  predicate ResultsOf(tools: seq<Message>, calls: seq<Call>, tool: nat -> ToolReply, from: nat) {
    |tools| <= |calls| && forall i :: 0 <= i < |tools| ==> Carries(tools[i], calls[i], tool(from + i))
  }

  predicate Carries(result: Message, call: Call, reply: ToolReply) {
    reply.Result? && result == Tool(call, reply.text)
  }

  /** The conversation of these steps with the results there are: each step's calls, then their results. */
  function Transcript(prompt: string, log: seq<StepLog>, tools: seq<Message>): seq<Message> {
    if log == [] then [User(prompt)]
    else
      var earlier := log[..|log| - 1];
      var calls := CallsOf(log[|log| - 1].calls);
      Transcript(prompt, earlier, tools) + [Assistant(calls)]
      + Part(tools, |AllCalls(earlier)|, |AllCalls(earlier)| + |calls|)
  }

  /** `tools.slice(from, to)` */
  function Part(tools: seq<Message>, from: nat, to: nat): seq<Message>
    requires from <= to
  {
    if |tools| <= from then [] else if |tools| <= to then tools[from..] else tools[from..to]
  }

  predicate WithinPerStep(log: seq<StepLog>, perStep: nat) {
    forall k :: 0 <= k < |log| ==> |log[k].calls| <= perStep
  }

  /** The run between two steps: the first `seen` results are consumed, the rest answer the last calls. */
  predicate AtStepHead(log: seq<StepLog>, tools: seq<Message>, seen: nat) {
    && InStep(log) && seen <= |tools| && AllConsumed(log) == tools[..seen]
    && Answers(tools[seen..], CallsOf(CallsBefore(log, |log|)))
  }

  /** The run after `complete` returned and its calls are logged: every result is consumed. */
  predicate AtStepTail(log: seq<StepLog>, tools: seq<Message>) {
    InStep(log) && AllConsumed(log) == tools
  }

  /** Results that answer the awaited calls never mismatch: each is paired with the call it answers. */
  lemma ConsumeAnswers(tools: seq<Message>, seen: nat, earlier: seq<Pending>)
    requires seen <= |tools| && Answers(tools[seen..], CallsOf(earlier))
    ensures var r := Consume(tools, earlier, seen);
            && r.Pairs? && PairsAnswer(r.pairs, earlier) && MessagesOf(r.pairs) == tools[seen..]
            && (r.pairs == [] ==> seen == |tools|)
  {
    var fresh' := tools[seen..];
    if fresh' != [] {
      var pairs := Zip(fresh', earlier);
      forall i | 0 <= i < |pairs| ensures pairs[i].message.call == earlier[i].call {
        assert fresh'[i].call == CallsOf(earlier)[i];
      }
    }
  }

  /** At the head of a step nothing can mismatch, and everything new is consumed by its own call. */
  lemma HeadOfStep(log: seq<StepLog>, tools: seq<Message>, seen: nat)
    requires AtStepHead(log, tools, seen)
    ensures var earlier := CallsBefore(log, |log|);
            var r := Consume(tools, earlier, seen);
            && r.Pairs? && PairsAnswer(r.pairs, earlier)
            && seen <= |tools| && MessagesOf(r.pairs) == tools[seen..]
            && (r.pairs == [] ==> seen == |tools|)
    ensures InStep(log) && AllConsumed(log) == tools[..seen] && AllConsumed(log) <= tools
  {
    hide InStep, AllConsumed, Answers, Consume, PairsAnswer, CallsBefore;
    ConsumeAnswers(tools, seen, CallsBefore(log, |log|));
  }

  lemma {:induction false} StepKeepsLog(log: seq<StepLog>, pairs: seq<Paired>, calls: seq<Pending>)
    requires InStep(log) && PairsAnswer(pairs, CallsBefore(log, |log|))
    ensures InStep(log + [StepLog(pairs, calls)])
    ensures AllConsumed(log + [StepLog(pairs, calls)]) == AllConsumed(log) + MessagesOf(pairs)
  {
    hide PairsAnswer;
    var longer := log + [StepLog(pairs, calls)];
    assert longer[..|log|] == log;
    forall k | 0 <= k < |longer| ensures PairsAnswer(longer[k].consumed, CallsBefore(longer, k)) {
      if k < |log| {
        assert PairsAnswer(log[k].consumed, CallsBefore(log, k));
      }
    }
  }

  lemma TailOfStep(log: seq<StepLog>, tools: seq<Message>, seen: nat, calls: seq<Pending>)
    requires AtStepHead(log, tools, seen)
    ensures Consume(tools, CallsBefore(log, |log|), seen).Pairs?
    ensures AtStepTail(log + [StepLog(Consume(tools, CallsBefore(log, |log|), seen).pairs, calls)], tools)
  {
    hide AtStepHead, Consume, PairsAnswer, InStep, AllConsumed, CallsBefore;
    HeadOfStep(log, tools, seen);
    StepKeepsLog(log, Consume(tools, CallsBefore(log, |log|), seen).pairs, calls);
    assert tools[..seen] + tools[seen..] == tools;
  }

  lemma NextHead(log: seq<StepLog>, tools: seq<Message>, results: seq<Message>)
    requires AtStepTail(log, tools) && Answers(results, CallsOf(CallsBefore(log, |log|)))
    ensures AtStepHead(log, tools + results, |tools|)
  {
    hide InStep, AllConsumed, Answers;
    assert (tools + results)[..|tools|] == tools;
    assert (tools + results)[|tools|..] == results;
  }

  lemma TailConsumesAll(log: seq<StepLog>, tools: seq<Message>)
    requires AtStepTail(log, tools)
    ensures InStep(log) && AllConsumed(log) == tools
  {
  }

  /** The driver's `complete`: reset on the first step, append results, ask the provider, remember the calls. */
  method Complete(state: ConversationState, messages: seq<Message>, step: nat, reply: Reply)
    returns (consumed: Consumed, calls: seq<Pending>)
    modifies state
    ensures consumed == if step == 0 then Consume(ToolMessages(messages), [], 0)
                        else Consume(ToolMessages(messages), old(state.pending), old(state.consumed))
    ensures consumed.Pairs? ==>
              state.consumed == if consumed.pairs != [] then |ToolMessages(messages)|
                                else if step == 0 then 0 else old(state.consumed)
    ensures consumed.Pairs? && reply.Calls? ==> state.pending == calls == reply.calls
  {
    calls := [];
    if step == 0 {
      state.Reset();
    }
    consumed := state.ConsumeNewToolResults(messages);
    if consumed.CountMismatch? || reply.ProviderThrows? {
      return;
    }
    calls := reply.calls;
    state.SetPending(calls);
  }

  // ---- Whose text a result carries, and where it stands ----

  lemma {:induction false} TranscriptIgnoresLater(
      prompt: string, log: seq<StepLog>, tools: seq<Message>, more: seq<Message>)
    requires |AllCalls(log)| <= |tools|
    ensures Transcript(prompt, log, tools + more) == Transcript(prompt, log, tools)
    decreases |log|
  {
    if log != [] {
      TranscriptIgnoresLater(prompt, log[..|log| - 1], tools, more);
    }
  }

  /** One more step adds its calls and the results there are for them. */
  lemma TranscriptGrows(
      prompt: string, log: seq<StepLog>, step: StepLog, tools: seq<Message>, results: seq<Message>)
    requires |tools| == |AllCalls(log)| && |results| <= |step.calls|
    ensures AllCalls(log + [step]) == AllCalls(log) + CallsOf(step.calls)
    ensures Transcript(prompt, log + [step], tools + results) ==
            Transcript(prompt, log, tools) + [Assistant(CallsOf(step.calls))] + results
  {
    assert (log + [step])[..|log|] == log;
    TranscriptIgnoresLater(prompt, log, tools, results);
    assert Part(tools + results, |tools|, |tools| + |step.calls|) == results;
  }

  lemma ResultsJoin(tools: seq<Message>, earlier: seq<Call>, results: seq<Message>, calls: seq<Call>,
                    tool: nat -> ToolReply)
    requires ResultsOf(tools, earlier, tool, 0) && |tools| == |earlier|
    requires ResultsOf(results, calls, tool, |tools|)
    ensures ResultsOf(tools + results, earlier + calls, tool, 0)
  {
    var all := tools + results;
    forall i: nat | i < |all| ensures Carries(all[i], (earlier + calls)[i], tool(0 + i)) {
      if i < |tools| {
        assert all[i] == tools[i];
      } else {
        assert all[i] == results[i - |tools|] && |tools| + (i - |tools|) == 0 + i;
      }
    }
  }

  lemma ResultsAnswer(results: seq<Message>, calls: seq<Call>, tool: nat -> ToolReply, from: nat)
    requires ResultsOf(results, calls, tool, from)
    ensures |results| <= |calls| && forall i :: 0 <= i < |results| ==> results[i].Tool?
    ensures |results| == |calls| ==> Answers(results, calls)
  {
  }

  /** What is recorded after a step's calls, all of them or some, ran. */
  lemma ResultsOfStep(
      prompt: string, log: seq<StepLog>, step: StepLog, tools: seq<Message>, results: seq<Message>,
      tool: nat -> ToolReply)
    requires ResultsOf(tools, AllCalls(log), tool, 0) && |tools| == |AllCalls(log)|
    requires ResultsOf(results, CallsOf(step.calls), tool, |tools|)
    ensures ResultsOf(tools + results, AllCalls(log + [step]), tool, 0)
    ensures AllCalls(log + [step]) == AllCalls(log) + CallsOf(step.calls)
    ensures Transcript(prompt, log + [step], tools + results) ==
            Transcript(prompt, log, tools) + [Assistant(CallsOf(step.calls))] + results
    ensures |results| == |step.calls| ==> Answers(results, CallsOf(step.calls))
    ensures forall i :: 0 <= i < |results| ==> results[i].Tool?
  {
    hide Transcript, AllCalls, ResultsOf, Answers;
    ResultsAnswer(results, CallsOf(step.calls), tool, |tools|);
    TranscriptGrows(prompt, log, step, tools, results);
    ResultsJoin(tools, AllCalls(log), results, CallsOf(step.calls), tool);
  }

  /** Before its calls run, a step adds only what they are. */
  lemma StepStarts(prompt: string, log: seq<StepLog>, step: StepLog, tools: seq<Message>, tool: nat -> ToolReply)
    requires ResultsOf(tools, AllCalls(log), tool, 0) && |tools| == |AllCalls(log)|
    ensures ResultsOf(tools, AllCalls(log + [step]), tool, 0)
    ensures AllCalls(log + [step]) == AllCalls(log) + CallsOf(step.calls)
    ensures Transcript(prompt, log + [step], tools) == Transcript(prompt, log, tools) + [Assistant(CallsOf(step.calls))]
  {
    hide Transcript, AllCalls;
    ResultsOfStep(prompt, log, step, tools, [], tool);
    assert tools + [] == tools;
  }

  lemma {:induction false} ToolMessagesOfResults(messages: seq<Message>, results: seq<Message>)
    requires forall i :: 0 <= i < |results| ==> results[i].Tool?
    ensures ToolMessages(messages + results) == ToolMessages(messages) + results
    decreases |results|
  {
    hide ToolMessages;
    if results == [] {
      assert messages + results == messages && ToolMessages(messages) + results == ToolMessages(messages);
    } else {
      ToolMessagesOfResults(messages + [results[0]], results[1..]);
      ToolMessagesAppend(messages, results[0]);
      Rejoin(messages, results);
      Rejoin(ToolMessages(messages), results);
    }
  }

  lemma Rejoin(earlier: seq<Message>, results: seq<Message>)
    requires results != []
    ensures (earlier + [results[0]]) + results[1..] == earlier + results
  {
  }

  /**
   * Execute the calls of one step in order, recording with each call what its tool returned. `made` counts the
   * calls that reached a tool, a failing last one included.
   */
  method ExecuteCalls(messages0: seq<Message>, calls: seq<Call>, allowed: set<string>, executed: nat,
                      tool: nat -> ToolReply)
    returns (messages: seq<Message>, made: nat, failure: Option<Outcome>, ghost results: seq<Message>)
    ensures messages == messages0 + results
    ensures ResultsOf(results, calls, tool, executed)
    ensures |results| <= made <= |calls| && forall i :: 0 <= i < made ==> calls[i].name in allowed
    ensures match failure
            case None => made == |results| == |calls|
            case Some(Unexposed) => made == |results| < |calls| && calls[made].name !in allowed
            case Some(ToolFailed) => made == |results| + 1 && tool(executed + |results|).ToolThrows?
            case _ => false
  {
    messages, failure, results, made := messages0, None, [], 0;
    while made < |calls|
      invariant made == |results| <= |calls| && messages == messages0 + results
      invariant forall i :: 0 <= i < made ==> calls[i].name in allowed
      invariant ResultsOf(results, calls, tool, executed)
    {
      var call := calls[made];
      if call.name !in allowed {
        failure := Some(Unexposed);
        return;
      }
      var reply := tool(executed + made);
      made := made + 1;
      if reply.ToolThrows? {
        failure := Some(ToolFailed);
        return;
      }
      var message := Tool(call, reply.text);
      messages := messages + [message];
      results := results + [message];
    }
  }

  /** Why a run that made these steps ended as it did, with `executed` calls made and these results recorded. */
  predicate EndedFor(outcome: Outcome, log: seq<StepLog>, tools: seq<Message>, executed: nat, limits: Limits,
                     allowed: set<string>, provider: nat -> Reply, tool: nat -> ToolReply)
  {
    var next := provider(|log|);
    var calls := AllCalls(log);
    var allDone := executed == |tools| == |calls|;
    match outcome
    case BadMaxSteps => limits.maxSteps < 1 && log == [] && allDone
    case Mismatch => false
    case ProviderFailed => |log| < limits.maxSteps && allDone && next.ProviderThrows?
    case OverPerStep => |log| < limits.maxSteps && allDone && next.Calls? && |next.calls| > limits.perStep
    case OverTotal =>
      && |log| < limits.maxSteps && allDone && next.Calls?
      && |next.calls| <= limits.perStep && executed + |next.calls| > limits.total
    case Unexposed => executed == |tools| < |calls| && calls[executed].name !in allowed
    case ToolFailed => executed == |tools| + 1 <= |calls| && tool(|tools|).ToolThrows?
    case Completed =>
      limits.maxSteps >= 1 && allDone && (|log| == limits.maxSteps || (log != [] && log[|log| - 1].calls == []))
  }

  /** Every step but the last asked for calls, and each logged step is what the provider answered. */
  predicate AskedFor(log: seq<StepLog>, provider: nat -> Reply) {
    && (forall k :: 0 <= k < |log| ==> provider(k) == Calls(log[k].calls))
    && (forall k :: 0 <= k < |log| - 1 ==> log[k].calls != [])
  }

  lemma AskedOnce(log: seq<StepLog>, step: StepLog, provider: nat -> Reply)
    requires AskedFor(log, provider) && provider(|log|) == Calls(step.calls)
    requires log != [] ==> log[|log| - 1].calls != []
    ensures AskedFor(log + [step], provider)
  {
  }

  /**
   * What a run has recorded: each step's calls are the provider's answer, each result is what its own call
   * returned, the conversation is made of these in order, no tool outside `allowed` was called, and every
   * budget is kept.
   */
  predicate Recorded(prompt: string, log: seq<StepLog>, messages: seq<Message>, executed: nat, limits: Limits,
                     allowed: set<string>, provider: nat -> Reply, tool: nat -> ToolReply)
  {
    var tools, calls := ToolMessages(messages), AllCalls(log);
    && AskedFor(log, provider) && ResultsOf(tools, calls, tool, 0) && messages == Transcript(prompt, log, tools)
    && executed <= |calls| && (forall i :: 0 <= i < executed ==> calls[i].name in allowed)
    && |log| <= limits.maxSteps && WithinPerStep(log, limits.perStep) && executed <= limits.total
  }

  lemma AskingKeepsRecord(prompt: string, log: seq<StepLog>, step: StepLog, messages: seq<Message>, executed: nat,
                          limits: Limits, allowed: set<string>, provider: nat -> Reply, tool: nat -> ToolReply)
    requires Recorded(prompt, log, messages, executed, limits, allowed, provider, tool)
    requires |ToolMessages(messages)| == |AllCalls(log)| && |log| < limits.maxSteps
    requires provider(|log|) == Calls(step.calls) && |step.calls| <= limits.perStep
    requires log != [] ==> log[|log| - 1].calls != []
    ensures var asked := messages + [Assistant(CallsOf(step.calls))];
            && Recorded(prompt, log + [step], asked, executed, limits, allowed, provider, tool)
            && ToolMessages(asked) == ToolMessages(messages)
            && AllCalls(log + [step]) == AllCalls(log) + CallsOf(step.calls)
  {
    hide Transcript, AllCalls, ResultsOf, ToolMessages;
    AskedOnce(log, step, provider);
    StepStarts(prompt, log, step, ToolMessages(messages), tool);
    ToolMessagesAppend(messages, Assistant(CallsOf(step.calls)));
    assert ToolMessages(messages) + [] == ToolMessages(messages);
  }

  lemma RunningKeepsRecord(prompt: string, log: seq<StepLog>, step: StepLog, messages: seq<Message>, made: nat,
                           results: seq<Message>, executed: nat, limits: Limits, allowed: set<string>,
                           provider: nat -> Reply, tool: nat -> ToolReply)
    requires var asked := messages + [Assistant(CallsOf(step.calls))];
             Recorded(prompt, log + [step], asked, executed, limits, allowed, provider, tool)
    requires Recorded(prompt, log, messages, executed, limits, allowed, provider, tool)
    requires |ToolMessages(messages)| == |AllCalls(log)| == executed
    requires ResultsOf(results, CallsOf(step.calls), tool, executed)
    requires made <= |step.calls| && executed + |step.calls| <= limits.total
    requires forall i :: 0 <= i < made ==> CallsOf(step.calls)[i].name in allowed
    ensures var next := messages + [Assistant(CallsOf(step.calls))] + results;
            && Recorded(prompt, log + [step], next, executed + made, limits, allowed, provider, tool)
            && ToolMessages(next) == ToolMessages(messages) + results
            && (|results| == |step.calls| ==> Answers(results, CallsOf(step.calls)))
  {
    hide Transcript, AllCalls, ResultsOf, ToolMessages, AskedFor, Answers;
    var asked, calls := messages + [Assistant(CallsOf(step.calls))], AllCalls(log + [step]);
    ResultsOfStep(prompt, log, step, ToolMessages(messages), results, tool);
    ToolMessagesAppend(messages, Assistant(CallsOf(step.calls)));
    assert ToolMessages(messages) + [] == ToolMessages(messages);
    ToolMessagesOfResults(asked, results);
    forall i | 0 <= i < executed + made ensures calls[i].name in allowed {
      assert calls[i] == if i < executed then AllCalls(log)[i] else CallsOf(step.calls)[i - executed];
    }
  }

  /**
   * The run of an eval against any provider and any tools; the driver's state may hold anything from an
   * earlier run. `executed` counts the tool calls made.
   */
  method RunEval(state: ConversationState, prompt: string, limits: Limits, allowed: set<string>,
                 provider: nat -> Reply, tool: nat -> ToolReply)
    returns (outcome: Outcome, log: seq<StepLog>, messages: seq<Message>, executed: nat)
    modifies state
    ensures InStep(log) && AllConsumed(log) <= ToolMessages(messages)
    ensures Recorded(prompt, log, messages, executed, limits, allowed, provider, tool)
    ensures EndedFor(outcome, log, ToolMessages(messages), executed, limits, allowed, provider, tool)
    ensures outcome.Completed? && log[|log| - 1].calls == [] ==> AllConsumed(log) == ToolMessages(messages)
  {
    hide InStep, AllConsumed, Answers, Consume, ToolMessages, AtStepHead, AtStepTail, PairsAnswer;
    hide Transcript, AllCalls, ResultsOf, AskedFor, Recorded;
    log, messages, executed := [], [User(prompt)], 0;
    ghost var tools: seq<Message> := [];
    ghost var seen: nat := 0;
    StartsEmpty(prompt, limits, allowed, provider, tool);
    HeadOfStep(log, tools, seen);
    if limits.maxSteps < 1 {
      outcome := BadMaxSteps;
      return;
    }
    for step := 0 to limits.maxSteps
      invariant |log| == step && tools == ToolMessages(messages)
      invariant AtStepHead(log, tools, seen)
      invariant Recorded(prompt, log, messages, executed, limits, allowed, provider, tool)
      invariant executed == |tools| == |AllCalls(log)|
      invariant step > 0 ==> log[step - 1].calls != []
      invariant step > 0 ==> state.pending == CallsBefore(log, step) && state.consumed == seen
      invariant step == 0 ==> seen == 0
    {
      HeadOfStep(log, tools, seen);
      var consumed, calls := Complete(state, messages, step, provider(step));
      assert consumed == Consume(tools, CallsBefore(log, step), seen);
      if consumed.CountMismatch? || provider(step).ProviderThrows? {
        outcome := if consumed.CountMismatch? then Mismatch else ProviderFailed;
        return;
      }
      if |calls| > limits.perStep {
        outcome := OverPerStep;
        return;
      }
      if executed + |calls| > limits.total {
        outcome := OverTotal;
        return;
      }
      TailOfStep(log, tools, seen, calls);
      var entry := StepLog(consumed.pairs, calls);
      AskingKeepsRecord(prompt, log, entry, messages, executed, limits, allowed, provider, tool);
      ghost var before, had := log, messages;
      log := log + [entry];
      seen := |tools|;
      TailConsumesAll(log, tools);
      messages := messages + [Assistant(CallsOf(calls))];
      if |calls| == 0 {
        outcome := Completed;
        return;
      }
      var next, made, failure, results := ExecuteCalls(messages, CallsOf(calls), allowed, executed, tool);
      RunningKeepsRecord(
        prompt, before, entry, had, made, results, executed, limits, allowed, provider, tool);
      messages := next;
      executed := executed + made;
      if failure.Some? {
        outcome := failure.value;
        return;
      }
      NextHead(log, tools, results);
      tools := tools + results;
    }
    HeadOfStep(log, tools, seen);
    outcome := Completed;
  }

  lemma StartsEmpty(
      prompt: string, limits: Limits, allowed: set<string>, provider: nat -> Reply, tool: nat -> ToolReply)
    ensures ToolMessages([User(prompt)]) == [] && AtStepHead([], [], 0) && AllCalls([]) == []
    ensures Recorded(prompt, [], [User(prompt)], 0, limits, allowed, provider, tool)
  {
    ToolMessagesAppend([], User(prompt));
    assert [] + [User(prompt)] == [User(prompt)];
  }
}
