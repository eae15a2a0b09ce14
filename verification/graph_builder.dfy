/** The turn workflow (agents/graph_builder.py): six nodes over one state
    record, a fixed chain of edges with one conditional edge after the
    analysis, and the per-node error handling that fills in defaults instead
    of aborting. Everything a node asks of the outside (the short-term
    buffer, the retrieval, the model, the index writes) is a parameter. */
module GraphBuilder {
  import opened Common
  import opened Seqs
  import VS = VectorStore
  import MA = MemoryAgent
  import LT = LongTerm

  /** `AgentState` without the `messages` list, which no node reads or writes. */
  datatype AgentState = AgentState(
    userInput: string,
    agentResponse: string,
    relevantMemories: seq<Metadata>,
    memorySuggestions: seq<MA.Suggestion>,
    shouldStoreMemory: bool,
    storedMemoryIds: seq<string>,
    error: Option<string>)

  /** The state `run` starts from. */
  function InitialState(userInput: string): AgentState {
    AgentState(userInput, "", [], [], false, [], None)
  }

  datatype Node = ProcessInput | RetrieveMemories | GenerateResponse | AnalyzeMemory | StoreMemory | Finalize | End

  /** Position of a node along the graph; every edge goes up. */
  function Rank(n: Node): nat {
    match n
    case ProcessInput => 0
    case RetrieveMemories => 1
    case GenerateResponse => 2
    case AnalyzeMemory => 3
    case StoreMemory => 4
    case Finalize => 5
    case End => 6
  }

  /** `_should_store_memory`: "store" when the analysis asked for it. */
  predicate ShouldStore(s: AgentState) {
    s.shouldStoreMemory
  }

  /** The edges of `_build_graph`. */
  function Successor(n: Node, s: AgentState): (m: Node)
    requires n != End
    ensures Rank(m) > Rank(n)
    ensures n == AnalyzeMemory ==> (m == StoreMemory <==> ShouldStore(s))
    ensures n == AnalyzeMemory ==> (m == Finalize <==> !ShouldStore(s))
    ensures n != AnalyzeMemory ==> Rank(m) == Rank(n) + 1
  {
    match n
    case ProcessInput => RetrieveMemories
    case RetrieveMemories => GenerateResponse
    case GenerateResponse => AnalyzeMemory
    case AnalyzeMemory => if ShouldStore(s) then StoreMemory else Finalize
    case StoreMemory => Finalize
    case Finalize => End
  }

  /** What the nodes get from outside: whether recording the input in the
      short-term buffer raises, the retrieval's outcome, the agent's context
      assembly for a message and its memories, the model, whether recording
      the reply in the short-term buffer raises, whether the analysis raises, and the store call the store node makes for its c-th
      suggestion together with the fresh id that call returns and whether it
      succeeds. */
  datatype Env = Env(
    inputError: Option<string>,
    retrieved: Result<seq<Metadata>>,
    context: (string, seq<Metadata>) -> Result<seq<MA.Message>>,
    llm: seq<MA.Message> -> Result<string>,
    replyError: Option<string>,
    analyzeError: Option<string>,
    store: (VS.Index, MA.Suggestion, nat) -> Result<(string, VS.Index)>,
    freshIds: nat -> string,
    stored: nat -> bool)

  const GenerateApology: string := "I apologize, but I encountered an error generating a response."

  /** `_process_input_node`: clears the error, or records the buffer's. */
  function ProcessInputNode(s: AgentState, env: Env): (s': AgentState)
    ensures s'.error == env.inputError
    ensures s'.(error := s.error) == s
  {
    s.(error := env.inputError)
  }

  /** `_retrieve_memories_node`: the retrieved memories, or none and the
      error. */
  function RetrieveMemoriesNode(s: AgentState, env: Env): (s': AgentState)
    ensures env.retrieved.Success? ==> s' == s.(relevantMemories := env.retrieved.value)
    ensures env.retrieved.Failure? ==> s'.relevantMemories == [] && s'.error == Some(env.retrieved.error)
    ensures s'.(relevantMemories := s.relevantMemories, error := s.error) == s
  {
    match env.retrieved
    case Success(m) => s.(relevantMemories := m)
    case Failure(e) => s.(relevantMemories := [], error := Some(e))
  }

  /** The environment's retrieval is the long-term manager's
      `retrieve_memories` for the input, with the configured maximum. */
  ghost predicate RetrievesWith(env: Env, userInput: string, cfg: Config, renv: LT.RetrieveEnv) {
    env.retrieved == Success(LT.RetrieveMemories(userInput, LT.Query(None, cfg.maxMemories, None), cfg, renv).results)
  }

  /** Retrieval swallows its own errors, so with the manager's retrieval the
      node's failure branch never runs: the node sets the retrieved memories,
      at most the configured maximum, and leaves the error alone. */
  lemma RetrieveNodeNeverFails(s: AgentState, env: Env, cfg: Config, renv: LT.RetrieveEnv)
    requires RetrievesWith(env, s.userInput, cfg, renv)
    ensures var r := RetrieveMemoriesNode(s, env);
            && r.error == s.error
            && |r.relevantMemories| <= cfg.maxMemories
            && r.relevantMemories
               == LT.RetrieveMemories(s.userInput, LT.Query(None, cfg.maxMemories, None), cfg, renv).results
  {
  }

  /** The context the generation node hands to the model. */
  function ContextOf(s: AgentState, env: Env): Result<seq<MA.Message>> {
    env.context(s.userInput, s.relevantMemories)
  }

  /** Whether building the context, calling the model or recording the
      reply raises. */
  predicate GenerationFails(s: AgentState, env: Env) {
    ContextOf(s, env).Failure? || env.llm(ContextOf(s, env).value).Failure? || env.replyError.Some?
  }

  /** `_generate_response_node`: the model's reply, or the apology and the
      error. The reply is recorded in the buffer before it is put in the
      state, so a failing record also gives the apology. */
  function GenerateResponseNode(s: AgentState, env: Env): (s': AgentState)
    ensures !GenerationFails(s, env) ==>
              s' == s.(agentResponse := env.llm(ContextOf(s, env).value).value)
    ensures GenerationFails(s, env) ==> s'.agentResponse == GenerateApology && s'.error.Some?
    ensures s'.(agentResponse := s.agentResponse, error := s.error) == s
  {
    match ContextOf(s, env)
    case Failure(e) => s.(agentResponse := GenerateApology, error := Some(e))
    case Success(ctx) =>
      match env.llm(ctx)
      case Failure(e) => s.(agentResponse := GenerateApology, error := Some(e))
      case Success(reply) =>
        match env.replyError
        case Some(e) => s.(agentResponse := GenerateApology, error := Some(e))
        case None => s.(agentResponse := reply)
  }

  /** The environment assembles contexts as the agent's `_prepare_context`
      does with this system prompt, history and line renderer. */
  ghost predicate PreparesWith(env: Env, systemPrompt: string, history: seq<MA.Message>,
                               line: (nat, Metadata) -> string) {
    forall userInput: string, memories: seq<Metadata> ::
      env.context(userInput, memories) == MA.PrepareContext(systemPrompt, userInput, memories, history, line)
  }

  /** With the agent's context assembly, generation fails exactly when some
      retrieved memory cannot be shown or the model raises, and otherwise the
      reply answers the system message, the history without an echo, and the
      current message. */
  lemma GenerateWithAgentContext(s: AgentState, env: Env, systemPrompt: string, history: seq<MA.Message>,
                                 line: (nat, Metadata) -> string)
    requires PreparesWith(env, systemPrompt, history, line)
    ensures var ctx := MA.PrepareContext(systemPrompt, s.userInput, s.relevantMemories, history, line);
            && (GenerationFails(s, env) <==>
                  (exists k :: 0 <= k < |s.relevantMemories| && !MA.Renderable(s.relevantMemories[k]))
                  || env.llm(ctx.value).Failure? || env.replyError.Some?)
            && (!GenerationFails(s, env) ==>
                  && GenerateResponseNode(s, env).agentResponse == env.llm(ctx.value).value
                  && ctx.value[0].role == MA.System
                  && ctx.value[|ctx.value| - 1] == MA.Message(MA.User, s.userInput))
  {
    assert ContextOf(s, env) == MA.PrepareContext(systemPrompt, s.userInput, s.relevantMemories, history, line);
  }

  /** `_analyze_memory_node`: the rule table's suggestions, and whether
      there are any; on an error, none. */
  function AnalyzeMemoryNode(s: AgentState, env: Env): (s': AgentState)
    ensures env.analyzeError.None? ==>
              && s'.memorySuggestions == MA.Analyze(s.userInput, s.agentResponse, s.relevantMemories)
              && s'.error == s.error
    ensures env.analyzeError.Some? ==> s'.memorySuggestions == [] && s'.error == env.analyzeError
    ensures s'.shouldStoreMemory <==> |s'.memorySuggestions| > 0
    ensures s'.(memorySuggestions := s.memorySuggestions, shouldStoreMemory := s.shouldStoreMemory, error := s.error) == s
  {
    match env.analyzeError
    case Some(e) => s.(memorySuggestions := [], shouldStoreMemory := false, error := Some(e))
    case None =>
      var suggestions := MA.Analyze(s.userInput, s.agentResponse, s.relevantMemories);
      s.(memorySuggestions := suggestions, shouldStoreMemory := |suggestions| > 0)
  }

  /** The call numbers `from`, ..., `from + n - 1`. */
  function Positions(from: nat, n: nat): (r: seq<nat>)
    ensures |r| == n
    ensures forall i :: 0 <= i < n ==> r[i] == from + i
    decreases n
  {
    if n == 0 then [] else [from] + Positions(from + 1, n - 1)
  }

  /** The ids the given calls return. */
  function IdsOf(calls: seq<nat>, freshIds: nat -> string): (r: seq<string>)
    ensures |r| == |calls|
    ensures forall i :: 0 <= i < |calls| ==> r[i] == freshIds(calls[i])
  {
    if |calls| == 0 then [] else [freshIds(calls[0])] + IdsOf(calls[1..], freshIds)
  }

  /** What the store node relies on from a store call: call `c` succeeds
      exactly when `stored(c)`, returns the id `freshIds(c)`, and leaves that
      id and every earlier key in the index. */
  ghost predicate StoreContract(store: (VS.Index, MA.Suggestion, nat) -> Result<(string, VS.Index)>,
                                freshIds: nat -> string, stored: nat -> bool) {
    forall index: VS.Index, suggestion: MA.Suggestion, c: nat ::
      var r := store(index, suggestion, c);
      && (r.Success? <==> stored(c))
      && (r.Success? ==> r.value.0 == freshIds(c) && freshIds(c) in r.value.1)
      && (r.Success? ==> forall k :: k in index ==> k in r.value.1)
  }

  /** The agent's `store_memory_suggestion` at clock `now`, as the c-th call
      of the store node sees it. */
  function AgentStore(now: real, freshIds: nat -> string, stored: nat -> bool)
    : (VS.Index, MA.Suggestion, nat) -> Result<(string, VS.Index)>
  {
    (index: VS.Index, suggestion: MA.Suggestion, c: nat) =>
      MA.StoreSuggestion(index, suggestion, now, freshIds(c), !stored(c))
  }

  /** The agent's store call keeps the contract the store node relies on. */
  lemma AgentStoreContract(now: real, freshIds: nat -> string, stored: nat -> bool)
    ensures StoreContract(AgentStore(now, freshIds, stored), freshIds, stored)
  {
    forall index: VS.Index, suggestion: MA.Suggestion, c: nat
      ensures var r := AgentStore(now, freshIds, stored)(index, suggestion, c);
              && (r.Success? <==> stored(c))
              && (r.Success? ==> r.value.0 == freshIds(c) && freshIds(c) in r.value.1)
              && (r.Success? ==> forall k :: k in index ==> k in r.value.1)
    {
      var r := MA.StoreSuggestion(index, suggestion, now, freshIds(c), !stored(c));
      assert AgentStore(now, freshIds, stored)(index, suggestion, c) == r;
    }
  }

  /** The loop of `_store_memory_node`, from call number `from` on: each
      suggestion is stored, a failing one is skipped, and the ids of those
      stored are collected in order. */
  function StoreAll(index: VS.Index, suggestions: seq<MA.Suggestion>, from: nat,
                    store: (VS.Index, MA.Suggestion, nat) -> Result<(string, VS.Index)>)
    : (r: (seq<string>, VS.Index))
    ensures |r.0| <= |suggestions|
    decreases |suggestions|
  {
    if |suggestions| == 0 then ([], index)
    else
      match store(index, suggestions[0], from)
      case Failure(_) => StoreAll(index, suggestions[1..], from + 1, store)
      case Success((id, index1)) =>
        var r := StoreAll(index1, suggestions[1..], from + 1, store);
        ([id] + r.0, r.1)
  }

  /** Under the store contract, the loop collects the ids of exactly the
      calls that succeeded, in call order, and each is in the final index
      along with every key the index had before. */
  lemma {:induction false} StoreAllIds(index: VS.Index, suggestions: seq<MA.Suggestion>, from: nat,
                                       store: (VS.Index, MA.Suggestion, nat) -> Result<(string, VS.Index)>,
                                       freshIds: nat -> string, stored: nat -> bool)
    requires StoreContract(store, freshIds, stored)
    ensures var r := StoreAll(index, suggestions, from, store);
            && r.0 == IdsOf(Filter(Positions(from, |suggestions|), stored), freshIds)
            && (forall id :: id in r.0 ==> id in r.1)
            && (forall k :: k in index ==> k in r.1)
    decreases |suggestions|
  {
    if |suggestions| > 0 {
      var first := store(index, suggestions[0], from);
      var next := if first.Success? then first.value.1 else index;
      StoreAllIds(next, suggestions[1..], from + 1, store, freshIds, stored);
      SelectedPositions(from, |suggestions|, stored, freshIds);
    }
  }

  /** The ids of the selected calls from `from` on: the first call's id if it
      is selected, then those of the later calls. */
  lemma SelectedPositions(from: nat, n: nat, p: nat -> bool, freshIds: nat -> string)
    requires n > 0
    ensures IdsOf(Filter(Positions(from, n), p), freshIds)
            == (if p(from) then [freshIds(from)] else []) + IdsOf(Filter(Positions(from + 1, n - 1), p), freshIds)
  {
    var calls := Positions(from, n);
    assert calls[1..] == Positions(from + 1, n - 1);
    var rest := Filter(calls[1..], p);
    if p(from) {
      assert Filter(calls, p) == [from] + rest;
      assert ([from] + rest)[1..] == rest;
    } else {
      assert Filter(calls, p) == rest;
    }
  }

  /** `_store_memory_node`: the ids of the suggestions that were stored. */
  function StoreMemoryNode(s: AgentState, env: Env, index: VS.Index): (r: (AgentState, VS.Index))
    ensures r.0 == s.(storedMemoryIds := r.0.storedMemoryIds)
    ensures |r.0.storedMemoryIds| <= |s.memorySuggestions|
  {
    var (ids, index') := StoreAll(index, s.memorySuggestions, 0, env.store);
    (s.(storedMemoryIds := ids), index')
  }

  /** The node records the ids of exactly the suggestions whose store
      succeeded, in order, each of them in the index, which keeps every
      earlier memory; when every store succeeds, one id per suggestion. */
  lemma StoreNodeIds(s: AgentState, env: Env, index: VS.Index)
    requires StoreContract(env.store, env.freshIds, env.stored)
    ensures var r := StoreMemoryNode(s, env, index);
            && r.0.storedMemoryIds == IdsOf(Filter(Positions(0, |s.memorySuggestions|), env.stored), env.freshIds)
            && (forall id :: id in r.0.storedMemoryIds ==> id in r.1)
            && (forall k :: k in index ==> k in r.1)
    ensures (forall c :: 0 <= c < |s.memorySuggestions| ==> env.stored(c)) ==>
              StoreMemoryNode(s, env, index).0.storedMemoryIds
              == IdsOf(Positions(0, |s.memorySuggestions|), env.freshIds)
  {
    StoreAllIds(index, s.memorySuggestions, 0, env.store, env.freshIds, env.stored);
    var calls := Positions(0, |s.memorySuggestions|);
    if forall c :: 0 <= c < |s.memorySuggestions| ==> env.stored(c) {
      AllKept(calls, env.stored);
    }
  }

  /** Selecting with a predicate every element satisfies keeps everything. */
  lemma {:induction false} AllKept(s: seq<nat>, p: nat -> bool)
    requires forall i :: 0 <= i < |s| ==> p(s[i])
    ensures Filter(s, p) == s
    decreases |s|
  {
    if |s| > 0 {
      AllKept(s[1..], p);
    }
  }

  /** Where a run stands: the nodes visited so far, the state, and the index. */
  datatype Outcome = Outcome(trace: seq<Node>, state: AgentState, index: VS.Index)

  /** Runs the graph from node `n` to the end. */
  function Execute(n: Node, s: AgentState, env: Env, index: VS.Index): (o: Outcome)
    ensures n == End ==> o == Outcome([], s, index)
    ensures n != End ==> |o.trace| > 0 && o.trace[0] == n
    decreases 6 - Rank(n)
  {
    if n == End then Outcome([], s, index)
    else
      var (s', index') := Apply(n, s, env, index);
      var rest := Execute(Successor(n, s'), s', env, index');
      Outcome([n] + rest.trace, rest.state, rest.index)
  }

  /** One node's effect. */
  function Apply(n: Node, s: AgentState, env: Env, index: VS.Index): (AgentState, VS.Index)
    requires n != End
  {
    match n
    case ProcessInput => (ProcessInputNode(s, env), index)
    case RetrieveMemories => (RetrieveMemoriesNode(s, env), index)
    case GenerateResponse => (GenerateResponseNode(s, env), index)
    case AnalyzeMemory => (AnalyzeMemoryNode(s, env), index)
    case StoreMemory => StoreMemoryNode(s, env, index)
    case Finalize => (s, index)
  }

  /** The state after each node up to the analysis. */
  function AfterAnalysis(userInput: string, env: Env): AgentState {
    var s1 := ProcessInputNode(InitialState(userInput), env);
    var s2 := RetrieveMemoriesNode(s1, env);
    var s3 := GenerateResponseNode(s2, env);
    AnalyzeMemoryNode(s3, env)
  }

  /** The router sends the run to the store node exactly when the analysis
      ran without error and the rule table proposed something. */
  lemma StoreRouteAfterAnalysis(s: AgentState, env: Env)
    ensures Successor(AnalyzeMemory, AnalyzeMemoryNode(s, env)) == StoreMemory
            <==> env.analyzeError.None? && |MA.Analyze(s.userInput, s.agentResponse, s.relevantMemories)| > 0
    ensures Successor(AnalyzeMemory, AnalyzeMemoryNode(s, env)) == Finalize
            <==> env.analyzeError.Some? || |MA.Analyze(s.userInput, s.agentResponse, s.relevantMemories)| == 0
  {
  }

  /** The nodes always run in the same order; the store node runs exactly
      when the analysis produced suggestions, and otherwise the state after
      the analysis is the final one. */
  lemma RunOrder(userInput: string, env: Env, index: VS.Index)
    ensures var o := Execute(ProcessInput, InitialState(userInput), env, index);
            var a := AfterAnalysis(userInput, env);
            && o.trace == [ProcessInput, RetrieveMemories, GenerateResponse, AnalyzeMemory]
                          + (if |a.memorySuggestions| > 0 then [StoreMemory] else []) + [Finalize]
            && (|a.memorySuggestions| == 0 ==> o.state == a && o.index == index)
            && (|a.memorySuggestions| > 0 ==> (o.state, o.index) == StoreMemoryNode(a, env, index))
  {
    var a := AfterAnalysis(userInput, env);
    RunPrefix(userInput, env, index);
    if ShouldStore(a) {
      assert [ProcessInput, RetrieveMemories, GenerateResponse, AnalyzeMemory] + [StoreMemory, Finalize]
             == [ProcessInput, RetrieveMemories, GenerateResponse, AnalyzeMemory] + [StoreMemory] + [Finalize];
    } else {
      assert [ProcessInput, RetrieveMemories, GenerateResponse, AnalyzeMemory] + [Finalize]
             == [ProcessInput, RetrieveMemories, GenerateResponse, AnalyzeMemory] + [] + [Finalize];
    }
  }

  /** The first four nodes run in order, whatever they produce. */
  lemma RunPrefix(userInput: string, env: Env, index: VS.Index)
    ensures var tail := FromAnalysis(AfterAnalysis(userInput, env), env, index);
            Execute(ProcessInput, InitialState(userInput), env, index)
            == Outcome([ProcessInput, RetrieveMemories, GenerateResponse, AnalyzeMemory] + tail.trace,
                       tail.state, tail.index)
  {
    var s0 := InitialState(userInput);
    var s3 := GenerateResponseNode(RetrieveMemoriesNode(ProcessInputNode(s0, env), env), env);
    ExecuteFromAnalysis(s3, env, index);
    FirstThree(s0, env, index);
    var tail := FromAnalysis(AfterAnalysis(userInput, env), env, index);
    assert [ProcessInput, RetrieveMemories, GenerateResponse] + ([AnalyzeMemory] + tail.trace)
           == [ProcessInput, RetrieveMemories, GenerateResponse, AnalyzeMemory] + tail.trace;
  }

  /** Input, retrieval and generation run in that order and hand over to the
      analysis. */
  lemma FirstThree(s0: AgentState, env: Env, index: VS.Index)
    ensures var s3 := GenerateResponseNode(RetrieveMemoriesNode(ProcessInputNode(s0, env), env), env);
            var o3 := Execute(AnalyzeMemory, s3, env, index);
            Execute(ProcessInput, s0, env, index)
            == Outcome([ProcessInput, RetrieveMemories, GenerateResponse] + o3.trace, o3.state, o3.index)
  {
    var s1 := ProcessInputNode(s0, env);
    var s2 := RetrieveMemoriesNode(s1, env);
    var s3 := GenerateResponseNode(s2, env);
    var o3 := Execute(AnalyzeMemory, s3, env, index);
    ExecuteVia(GenerateResponse, s2, env, index, s3, index, o3);
    var o2 := Outcome([GenerateResponse] + o3.trace, o3.state, o3.index);
    ExecuteVia(RetrieveMemories, s1, env, index, s2, index, o2);
    var o1 := Outcome([RetrieveMemories] + o2.trace, o2.state, o2.index);
    ExecuteVia(ProcessInput, s0, env, index, s1, index, o1);
    assert [ProcessInput] + o1.trace == [ProcessInput, RetrieveMemories, GenerateResponse] + o3.trace;
  }

  /** What the graph does after the analysis node has produced `a`. */
  function FromAnalysis(a: AgentState, env: Env, index: VS.Index): Outcome {
    if ShouldStore(a) then
      var (s5, index5) := StoreMemoryNode(a, env, index);
      Outcome([StoreMemory, Finalize], s5, index5)
    else Outcome([Finalize], a, index)
  }

  lemma ExecuteFromAnalysis(s3: AgentState, env: Env, index: VS.Index)
    ensures Execute(AnalyzeMemory, s3, env, index)
            == var tail := FromAnalysis(AnalyzeMemoryNode(s3, env), env, index);
               Outcome([AnalyzeMemory] + tail.trace, tail.state, tail.index)
  {
    var a := AnalyzeMemoryNode(s3, env);
    if ShouldStore(a) {
      var (s5, index5) := StoreMemoryNode(a, env, index);
      ExecuteVia(Finalize, s5, env, index5, s5, index5, Outcome([], s5, index5));
      ExecuteVia(StoreMemory, a, env, index, s5, index5, Outcome([Finalize], s5, index5));
      ExecuteVia(AnalyzeMemory, s3, env, index, a, index, Outcome([StoreMemory, Finalize], s5, index5));
    } else {
      ExecuteVia(Finalize, a, env, index, a, index, Outcome([], a, index));
      ExecuteVia(AnalyzeMemory, s3, env, index, a, index, Outcome([Finalize], a, index));
    }
  }

  /** One step of the run: a node's effect, then the rest from its successor. */
  lemma ExecuteVia(n: Node, s: AgentState, env: Env, index: VS.Index, s': AgentState, index': VS.Index, rest: Outcome)
    requires n != End
    requires Apply(n, s, env, index) == (s', index')
    requires Execute(Successor(n, s'), s', env, index') == rest
    ensures Execute(n, s, env, index) == Outcome([n] + rest.trace, rest.state, rest.index)
  {
  }

  /** The fields `run` returns, in both of its branches. */
  datatype RunResult = RunResult(
    response: string,
    relevantMemories: seq<Metadata>,
    memorySuggestions: seq<MA.Suggestion>,
    storedMemoryIds: seq<string>,
    error: Option<string>,
    shortTermContext: seq<MA.Message>)

  const RunApology: string := "I apologize, but I encountered an error processing your request."

  /** `run`: executes the graph from the initial state and reports the final
      state. `graphError` stands for the outer `try` catching an error, which
      gives the apology and empty lists; `raisedAfterGraph` says whether that
      error came after the graph had finished (reading the final state or the
      buffer), so that the store node's writes stand, or before it ran.
      `shortTermContext` is what the buffer reports at the end. */
  function Run(userInput: string, env: Env, index: VS.Index, graphError: Option<string>,
               raisedAfterGraph: bool, shortTermContext: seq<MA.Message>): (r: (RunResult, VS.Index))
    ensures graphError.Some? ==> r.0 == RunResult(RunApology, [], [], [], graphError, [])
    ensures graphError.Some? && !raisedAfterGraph ==> r.1 == index
    ensures graphError.None? || raisedAfterGraph ==>
              var a := AfterAnalysis(userInput, env);
              && (|a.memorySuggestions| == 0 ==> r.1 == index)
              && (StoreContract(env.store, env.freshIds, env.stored) ==>
                    && (forall id :: id in IdsOf(Filter(Positions(0, |a.memorySuggestions|), env.stored), env.freshIds)
                                     ==> id in r.1)
                    && (forall k :: k in index ==> k in r.1))
    ensures graphError.None? ==>
              var a := AfterAnalysis(userInput, env);
              && r.0.response == a.agentResponse
              && r.0.relevantMemories == a.relevantMemories
              && r.0.memorySuggestions == a.memorySuggestions
              && (|a.memorySuggestions| == 0 ==> r.0.storedMemoryIds == [])
              && |r.0.storedMemoryIds| <= |a.memorySuggestions|
              && (StoreContract(env.store, env.freshIds, env.stored) ==>
                    r.0.storedMemoryIds
                    == IdsOf(Filter(Positions(0, |a.memorySuggestions|), env.stored), env.freshIds))
              && r.0.error == a.error
              && r.0.shortTermContext == shortTermContext
  {
    if graphError.Some? && !raisedAfterGraph then (RunResult(RunApology, [], [], [], graphError, []), index)
    else
      RunOrder(userInput, env, index);
      assert StoreContract(env.store, env.freshIds, env.stored) ==>
               var a := AfterAnalysis(userInput, env);
               var (s5, index5) := StoreMemoryNode(a, env, index);
               && s5.storedMemoryIds == IdsOf(Filter(Positions(0, |a.memorySuggestions|), env.stored), env.freshIds)
               && (forall id :: id in s5.storedMemoryIds ==> id in index5)
               && (forall k :: k in index ==> k in index5) by {
        if StoreContract(env.store, env.freshIds, env.stored) {
          StoreNodeIds(AfterAnalysis(userInput, env), env, index);
        }
      }
      var o := Execute(ProcessInput, InitialState(userInput), env, index);
      var f := o.state;
      if graphError.Some? then (RunResult(RunApology, [], [], [], graphError, []), o.index)
      else (RunResult(f.agentResponse, f.relevantMemories, f.memorySuggestions, f.storedMemoryIds, f.error,
                      shortTermContext), o.index)
  }

  /** Failures degrade instead of aborting: the error field is clear exactly
      when every stage succeeded, and each failure leaves its default. */
  lemma DegradedDefaults(userInput: string, env: Env)
    ensures var a := AfterAnalysis(userInput, env);
            var s2 := RetrieveMemoriesNode(ProcessInputNode(InitialState(userInput), env), env);
            && (a.error.None? <==>
                  && env.inputError.None? && env.retrieved.Success?
                  && !GenerationFails(s2, env) && env.analyzeError.None?)
            && (env.retrieved.Failure? ==> a.relevantMemories == [])
            && (GenerationFails(s2, env) ==> a.agentResponse == GenerateApology)
            && (env.analyzeError.Some? ==> a.memorySuggestions == [] && !a.shouldStoreMemory)
            && (env.analyzeError.None? ==>
                  a.memorySuggestions == MA.Analyze(userInput, a.agentResponse, a.relevantMemories))
  {
  }
}
