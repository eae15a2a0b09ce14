/** The deterministic parts of the agent (agents/memory_agent.py): the keyword
    rules that propose memories to store, the message list handed to the
    model, the mapping from a proposal to a store request, and the shape of a
    turn's result including its error branch. The model's reply, the
    short-term buffer and the index are parameters. */
module MemoryAgent {
  import opened Common
  import opened Seqs
  import opened Text
  import LT = LongTerm
  import VS = VectorStore

  // ---------------------------------------------------------------------
  // Memory suggestions

  /** One proposal to store the user's message in long-term memory. */
  datatype Suggestion = Suggestion(kind: string, content: string, reason: string, importance: real)

  /** One line of the rule table: a message mentioning any of the markers
      (after lower-casing) yields a suggestion of this kind. */
  datatype Rule = Rule(markers: seq<string>, kind: string, reason: string, importance: real)

  const PreferenceRule: Rule :=
    Rule(["i like", "i prefer", "i don't like", "i hate", "my favorite", "i love", "i enjoy"],
         "preference", "User expressed a preference", 0.8)

  const PersonalRule: Rule :=
    Rule(["my name is", "i am", "i work", "i live", "my job"],
         "fact", "User shared personal information", 0.9)

  const ExplicitRule: Rule :=
    Rule(["remember that", "important", "don't forget", "note that"],
         "fact", "User indicated this is important to remember", 0.8)

  /** The rules in the order they are tried. */
  const Rules: seq<Rule> := [PreferenceRule, PersonalRule, ExplicitRule]

  /** Some marker occurs in `hay`. */
  function AnyOccurs(hay: string, markers: seq<string>): (r: bool)
    ensures r <==> exists k :: 0 <= k < |markers| && Contains(hay, markers[k])
  {
    if |markers| == 0 then false
    else if Contains(hay, markers[0]) then true
    else
      var rest := AnyOccurs(hay, markers[1..]);
      assert forall k :: 1 <= k < |markers| ==> markers[k] == markers[1..][k - 1];
      rest
  }

  /** `any(keyword in user_message.lower() for keyword in markers)` */
  predicate Fires(rule: Rule, userMessage: string) {
    AnyOccurs(Lower(userMessage), rule.markers)
  }

  /** The suggestion a firing rule contributes: the message as written. */
  function SuggestionOf(rule: Rule, userMessage: string): (s: Suggestion)
    ensures s.content == userMessage && s.kind == rule.kind
    ensures s.reason == rule.reason && s.importance == rule.importance
  {
    Suggestion(rule.kind, userMessage, rule.reason, rule.importance)
  }

  /** One rule's contribution: its suggestion when it fires, else nothing. */
  function Pick(rule: Rule, userMessage: string): seq<Suggestion> {
    if Fires(rule, userMessage) then [SuggestionOf(rule, userMessage)] else []
  }

  /** The rule table read as data: the suggestions of the firing rules, in
      table order, each carrying the message as written. */
  function FromTable(rules: seq<Rule>, userMessage: string): (r: seq<Suggestion>)
    ensures |r| <= |rules|
    ensures forall k :: 0 <= k < |r| ==> r[k].content == userMessage
  {
    if |rules| == 0 then []
    else Pick(rules[0], userMessage) + FromTable(rules[1..], userMessage)
  }

  /** `_analyze_for_memory_storage`: the rule table applied to the message.
      The reply and the retrieved memories are accepted and ignored. */
  function Analyze(userMessage: string, response: string, relevantMemories: seq<Metadata>): seq<Suggestion>
  {
    FromTable(Rules, userMessage)
  }

  /** The analyzer is the three independent keyword checks of the source, in
      their order, whatever the reply and the retrieved memories were. */
  lemma AnalyzeThreeChecks(userMessage: string, response: string, relevantMemories: seq<Metadata>)
    ensures Analyze(userMessage, response, relevantMemories)
            == Pick(PreferenceRule, userMessage) + Pick(PersonalRule, userMessage) + Pick(ExplicitRule, userMessage)
  {
    assert Rules[1..] == [PersonalRule, ExplicitRule];
    assert Rules[1..][1..] == [ExplicitRule];
    assert FromTable([ExplicitRule], userMessage) == Pick(ExplicitRule, userMessage) by {
      assert [ExplicitRule][1..] == [];
    }
    assert FromTable([PersonalRule, ExplicitRule], userMessage)
           == Pick(PersonalRule, userMessage) + Pick(ExplicitRule, userMessage);
    assert FromTable(Rules, userMessage)
           == Pick(PreferenceRule, userMessage) + (Pick(PersonalRule, userMessage) + Pick(ExplicitRule, userMessage));
  }

  /** A rule's suggestion is among the results exactly when one of its
      markers occurs in the lower-cased message, and the results keep the
      table's order. */
  lemma AnalyzeSelects(userMessage: string, response: string, relevantMemories: seq<Metadata>)
    ensures var r := Analyze(userMessage, response, relevantMemories);
            && |r| <= 3
            && (forall k :: 0 <= k < |r| ==> r[k].content == userMessage)
            && (SuggestionOf(PreferenceRule, userMessage) in r <==> Fires(PreferenceRule, userMessage))
            && (SuggestionOf(PersonalRule, userMessage) in r <==> Fires(PersonalRule, userMessage))
            && (SuggestionOf(ExplicitRule, userMessage) in r <==> Fires(ExplicitRule, userMessage))
            && IsSubseq(r, [SuggestionOf(PreferenceRule, userMessage),
                            SuggestionOf(PersonalRule, userMessage),
                            SuggestionOf(ExplicitRule, userMessage)])
  {
    AnalyzeThreeChecks(userMessage, response, relevantMemories);
    var p := SuggestionOf(PreferenceRule, userMessage);
    var s := SuggestionOf(PersonalRule, userMessage);
    var e := SuggestionOf(ExplicitRule, userMessage);
    PickedIsSubseq(p, s, e, Fires(PreferenceRule, userMessage), Fires(PersonalRule, userMessage),
                   Fires(ExplicitRule, userMessage));
  }

  /** Keeping any of three items, in order, gives a subsequence of the three. */
  lemma PickedIsSubseq<T>(a: T, b: T, c: T, ka: bool, kb: bool, kc: bool)
    ensures IsSubseq((if ka then [a] else []) + (if kb then [b] else []) + (if kc then [c] else []), [a, b, c])
  {
    var bc := (if kb then [b] else []) + (if kc then [c] else []);
    var tail := if kc then [c] else [];
    assert IsSubseq(tail, [c]);
    assert [b, c][1..] == [c];
    assert IsSubseq(bc, [b, c]);
    assert [a, b, c][1..] == [b, c];
    if ka {
      assert ([a] + bc)[1..] == bc;
    } else {
      assert [] + bc == bc;
    }
  }

  /** A rule fires when one of its markers is the lower-cased form of some
      slice of the message. */
  lemma FiresAt(rule: Rule, userMessage: string, k: nat, pos: nat)
    requires k < |rule.markers|
    requires pos + |rule.markers[k]| <= |userMessage|
    requires Lower(userMessage[pos..pos + |rule.markers[k]|]) == rule.markers[k]
    ensures Fires(rule, userMessage)
  {
    var low := Lower(userMessage);
    var m := rule.markers[k];
    var piece := userMessage[pos..pos + |m|];
    assert forall j :: 0 <= j < |m| ==> low[pos + j] == LowerChar(piece[j]);
    assert low[pos..pos + |m|] == m;
    assert OccursAt(low, m, pos);
  }

  const SampleMessage: string := "I love tea. I am Sam"

  /** "I love" opens the sample, and lowers to a preference marker. */
  lemma SampleLovesAt0()
    ensures SampleMessage[0..6] == "I love"
    ensures Lower("I love") == "i love"
  {
  }

  /** "I am" sits at position 12, and lowers to a personal marker. */
  lemma SampleIamAt12()
    ensures SampleMessage[12..16] == "I am"
    ensures Lower("I am") == "i am"
  {
  }

  lemma SamplePrefers()
    ensures Fires(PreferenceRule, SampleMessage)
  {
    SampleLovesAt0();
    assert PreferenceRule.markers[5] == "i love";
    FiresAt(PreferenceRule, SampleMessage, 5, 0);
  }

  lemma SampleNames()
    ensures Fires(PersonalRule, SampleMessage)
  {
    SampleIamAt12();
    assert PersonalRule.markers[1] == "i am";
    FiresAt(PersonalRule, SampleMessage, 1, 12);
  }

  /** When the preference and the personal rule both fire, their suggestions
      come first, in that order. */
  lemma PreferenceBeforePersonal(userMessage: string, response: string, relevantMemories: seq<Metadata>)
    requires Fires(PreferenceRule, userMessage) && Fires(PersonalRule, userMessage)
    ensures var r := Analyze(userMessage, response, relevantMemories);
            && |r| >= 2
            && r[0] == SuggestionOf(PreferenceRule, userMessage)
            && r[1] == SuggestionOf(PersonalRule, userMessage)
  {
    AnalyzeThreeChecks(userMessage, response, relevantMemories);
  }

  /** A message that states a preference and a name yields the preference
      suggestion first and the personal one second. */
  lemma PreferenceAndNameExample()
    ensures var r := Analyze(SampleMessage, "", []);
            && |r| >= 2
            && r[0] == SuggestionOf(PreferenceRule, SampleMessage)
            && r[1] == SuggestionOf(PersonalRule, SampleMessage)
  {
    SamplePrefers();
    SampleNames();
    PreferenceBeforePersonal(SampleMessage, "", []);
  }

  /** `store_memory_suggestion`: the request sent to long-term memory. */
  function StoreRequestOf(s: Suggestion): (req: LT.StoreRequest)
    ensures req.content == s.content && req.memoryType == s.kind && req.importance == s.importance
    ensures req.context == Some("Stored from conversation - " + s.reason)
    ensures req.tags == [] && req.source == None
  {
    LT.StoreRequest(s.content, s.kind, s.importance, [], Some("Stored from conversation - " + s.reason), None)
  }

  /** Storing a suggestion: the stored record carries the suggestion's
      content, type and importance, and a context naming its reason. */
  function StoreSuggestion(index: VS.Index, s: Suggestion, now: real, freshId: string, fails: bool)
    : (r: Result<(string, VS.Index)>)
    ensures fails <==> r.Failure?
    ensures r.Success? ==> r.value.0 == freshId && freshId in r.value.1
    ensures r.Success? ==> forall k :: k in index ==> k in r.value.1
    ensures r.Success? ==>
              var md := r.value.1[freshId].metadata;
              && r.value.1[freshId].text == s.content
              && "memory_type" in md && md["memory_type"] == Str(s.kind)
              && "importance" in md && md["importance"] == Num(LT.Clamp(s.importance))
              && "context" in md && md["context"] == Str("Stored from conversation - " + s.reason)
              && "source" !in md
  {
    LT.StoreMemory(index, StoreRequestOf(s), now, freshId, fails)
  }

  /** The analyzer only proposes importances inside [0, 1], so storing one of
      its suggestions keeps the importance unchanged by the clamp. */
  lemma SuggestionImportanceKept(userMessage: string, response: string, relevantMemories: seq<Metadata>,
                                 k: nat, index: VS.Index, now: real, freshId: string)
    requires k < |Analyze(userMessage, response, relevantMemories)|
    ensures var s := Analyze(userMessage, response, relevantMemories)[k];
            var r := StoreSuggestion(index, s, now, freshId, false);
            && r.Success? && freshId in r.value.1
            && "importance" in r.value.1[freshId].metadata
            && r.value.1[freshId].metadata["importance"] == Num(s.importance)
  {
    var r := Analyze(userMessage, response, relevantMemories);
    var s := r[k];
    AnalyzeSelects(userMessage, response, relevantMemories);
    SubseqMembers(r, [SuggestionOf(PreferenceRule, userMessage),
                      SuggestionOf(PersonalRule, userMessage),
                      SuggestionOf(ExplicitRule, userMessage)]);
    assert s in r;
    assert s.importance == 0.8 || s.importance == 0.9;
  }

  // ---------------------------------------------------------------------
  // Prompt assembly

  datatype Role = System | User | Assistant

  /** One chat message as the model receives it. */
  datatype Message = Message(role: Role, content: string)

  /** The heading of the memory block appended to the system prompt. */
  const MemoriesHeader: string := "\n\nRELEVANT MEMORIES:\n"

  /** A memory the block can show: its type is a string (it is upper-cased),
      it has a content, and its similarity is a number (it is formatted). A
      memory without these raises while the block is built. */
  predicate Renderable(md: Metadata) {
    && "memory_type" in md && md["memory_type"].Str?
    && "content" in md
    && "similarity" in md && md["similarity"].Num?
  }

  /** The numbered lines of the memory block, starting at number `from`; the
      text of one line is given by `line`. */
  function Lines(memories: seq<Metadata>, line: (nat, Metadata) -> string, from: nat): string
    decreases |memories|
  {
    if |memories| == 0 then "" else line(from, memories[0]) + Lines(memories[1..], line, from + 1)
  }

  /** The history without a trailing copy of the current user message. */
  function DropEcho(history: seq<Message>, userMessage: string): (h: seq<Message>)
    ensures |history| > 0 && history[|history| - 1] == Message(User, userMessage) ==>
              h == history[..|history| - 1]
    ensures !(|history| > 0 && history[|history| - 1] == Message(User, userMessage)) ==> h == history
  {
    if |history| > 0 && history[|history| - 1] == Message(User, userMessage) then history[..|history| - 1]
    else history
  }

  /** `_prepare_context`: the system prompt (with the memory block when there
      are memories), the history without an echo of the current message,
      then the current message. */
  function PrepareContext(systemPrompt: string, userMessage: string, memories: seq<Metadata>,
                          history: seq<Message>, line: (nat, Metadata) -> string): (r: Result<seq<Message>>)
    ensures r.Failure? <==> exists k :: 0 <= k < |memories| && !Renderable(memories[k])
    ensures r.Success? ==>
              && |r.value| == |DropEcho(history, userMessage)| + 2
              && r.value[0].role == System
              && (|memories| == 0 ==> r.value[0].content == systemPrompt)
              && (|memories| > 0 ==> r.value[0].content == systemPrompt + MemoriesHeader + Lines(memories, line, 1))
              && r.value[1..|r.value| - 1] == DropEcho(history, userMessage)
              && r.value[|r.value| - 1] == Message(User, userMessage)
  {
    if exists k :: 0 <= k < |memories| && !Renderable(memories[k]) then
      Failure("memory record lacks a displayable field")
    else
      var system := if |memories| > 0 then systemPrompt + MemoriesHeader + Lines(memories, line, 1)
                    else systemPrompt;
      var msgs := [Message(System, system)] + DropEcho(history, userMessage) + [Message(User, userMessage)];
      assert msgs[1..|msgs| - 1] == DropEcho(history, userMessage);
      Success(msgs)
  }

  /** The current message reaches the model once: when the history ends with
      it (it was just recorded) and no earlier copy sits right before, the
      message before the final one is something else. */
  lemma CurrentMessageOnce(systemPrompt: string, userMessage: string, memories: seq<Metadata>,
                           history: seq<Message>, line: (nat, Metadata) -> string)
    requires forall k :: 0 <= k < |memories| ==> Renderable(memories[k])
    requires |history| > 0 && history[|history| - 1] == Message(User, userMessage)
    requires |history| < 2 || history[|history| - 2] != Message(User, userMessage)
    ensures var r := PrepareContext(systemPrompt, userMessage, memories, history, line);
            r.Success? && r.value[|r.value| - 2] != Message(User, userMessage)
  {
    var r := PrepareContext(systemPrompt, userMessage, memories, history, line);
    var h := DropEcho(history, userMessage);
    assert r.value[1..|r.value| - 1] == h;
    if |h| > 0 {
      assert r.value[|r.value| - 2] == h[|h| - 1];
      assert h[|h| - 1] == history[|history| - 2];
    } else {
      assert r.value[|r.value| - 2] == r.value[0];
    }
  }

  /** Recording the message and then assembling the context gives the prior
      history framed by the system message and the current message. */
  lemma ContextAfterRecording(systemPrompt: string, userMessage: string, memories: seq<Metadata>,
                              prior: seq<Message>, line: (nat, Metadata) -> string)
    requires forall k :: 0 <= k < |memories| ==> Renderable(memories[k])
    ensures var r := PrepareContext(systemPrompt, userMessage, memories, prior + [Message(User, userMessage)], line);
            r.Success? && r.value[1..] == prior + [Message(User, userMessage)]
  {
    var history := prior + [Message(User, userMessage)];
    assert history[..|history| - 1] == prior;
    var r := PrepareContext(systemPrompt, userMessage, memories, history, line);
    assert r.value[1..] == r.value[1..|r.value| - 1] + [r.value[|r.value| - 1]];
  }

  /** Everything `retrieve_memories` returns can be shown in the block when
      the stored records carry a string type. */
  lemma RetrievedRenderable(found: seq<VS.Found>, q: LT.Query, n: nat, now: real)
    requires forall k :: 0 <= k < |found| ==>
               "memory_type" in found[k].metadata && found[k].metadata["memory_type"].Str?
               && "similarity" !in found[k].metadata
    ensures LT.Collect(found, q, n, now).Some? ==>
              forall k :: 0 <= k < |LT.Collect(found, q, n, now).value| ==>
                Renderable(LT.Collect(found, q, n, now).value[k])
    decreases |found|
  {
    if |found| > 0 {
      if LT.CountOf(found[0].metadata).Some? {
        LT.BumpedFields(found[0], LT.CountOf(found[0].metadata).value, now);
      }
      RetrievedRenderable(found[1..], q, n, now);
      if n > 1 {
        RetrievedRenderable(found[1..], q, n - 1, now);
      }
    }
  }

  // ---------------------------------------------------------------------
  // One turn

  /** The result of `process_message`: the four fields of a normal turn, or
      the apology with the error text. */
  datatype TurnResult =
    | Answered(response: string, relevantMemories: seq<Metadata>, suggestions: seq<Suggestion>,
               shortTermContext: seq<Message>)
    | Apologized(response: string, error: string)

  const ProcessingApology: string :=
    "I apologize, but I encountered an error processing your message. Please try again."

  /** `process_message`: retrieve up to the configured number of memories for
      the message, assemble the context, ask the model, analyze the turn.
      `history` is the short-term conversation as `_prepare_context` reads
      it and `shortTermAfter` the conversation the buffer reports at the end;
      `llm` stands for the model call, which may fail. */
  function ProcessMessage(userMessage: string, systemPrompt: string, history: seq<Message>,
                          shortTermAfter: seq<Message>, cfg: Config, env: LT.RetrieveEnv,
                          line: (nat, Metadata) -> string, llm: seq<Message> -> Result<string>)
    : (r: TurnResult)
    ensures var memories := LT.RetrieveMemories(userMessage, LT.Query(None, cfg.maxMemories, None), cfg, env).results;
            var ctx := PrepareContext(systemPrompt, userMessage, memories, history, line);
            && (r.Apologized? <==> ctx.Failure? || llm(ctx.value).Failure?)
            && (r.Apologized? ==> r.response == ProcessingApology)
            && (r.Answered? ==>
                  && r.response == llm(ctx.value).value
                  && r.relevantMemories == memories
                  && r.suggestions == Analyze(userMessage, r.response, memories)
                  && r.shortTermContext == shortTermAfter)
  {
    var memories := LT.RetrieveMemories(userMessage, LT.Query(None, cfg.maxMemories, None), cfg, env).results;
    match PrepareContext(systemPrompt, userMessage, memories, history, line)
    case Failure(e) => Apologized(ProcessingApology, e)
    case Success(ctx) =>
      match llm(ctx)
      case Failure(e) => Apologized(ProcessingApology, e)
      case Success(response) =>
        Answered(response, memories, Analyze(userMessage, response, memories), shortTermAfter)
  }
}
