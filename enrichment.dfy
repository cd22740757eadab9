/** The change-data-capture listener that enriches legacy claims: for each
    change message it finds the claim record, asks the active chat model for
    a one-sentence summary, writes the summary back to the claims table and
    adds it to the active vector store, recording trace tags and events on the
    way. The collaborators (JSON decoding, chat model, database, vector store,
    tracing) are outside the model: the decoded tree and their outcomes are
    inputs, and what the listener asks of them is appended to an effect log. */
module Enrichment {
  import opened Common
  import opened Registry

  /** A decoded JSON tree, as the node types the listener can meet. Numbers
      are the integral ones. */
  datatype Json =
    | JNull
    | JBool(b: bool)
    | JNum(n: int)
    | JText(text: string)
    | JArray(items: seq<Json>)
    | JObject(fields: map<string, Json>)

  /** `JsonNode.get(name)`: the field of an object node; any other node, or a
      missing field, gives Java's null, here `None`. */
  function Child(node: Json, name: string): Option<Json>
  {
    if node.JObject? && name in node.fields then Some(node.fields[name]) else None
  }

  /** `JsonNode.has(name)`: the field is present, even when its value is a
      JSON null. */
  predicate Has(node: Json, name: string)
  {
    Child(node, name).Some?
  }

  /** `JsonNode.asText()`: the text of a text node, the literal of a null,
      boolean or number, and the empty string for a container. */
  function AsText(node: Json): (r: string)
    ensures node.JText? ==> r == node.text
    ensures node.JNull? ==> r == "null"
    ensures node.JBool? ==> r == (if node.b then "true" else "false")
    ensures node.JNum? ==> |r| >= 1 && ((r[0] == '-') <==> node.n < 0)
    ensures node.JArray? || node.JObject? ==> r == ""
  {
    match node
    case JNull => "null"
    case JBool(b) => if b then "true" else "false"
    case JNum(n) => IntToDecimal(n)
    case JText(t) => t
    case JArray(_) => ""
    case JObject(_) => ""
  }

  /** `JsonNode.asInt()`: a number keeps its low 32 bits, a boolean is 1 or 0,
      text goes through the library's lenient number parse (`textAsInt`), and
      everything else is 0. */
  function AsInt(node: Json, textAsInt: string -> int): (r: int)
    ensures node.JNum? ==> INT_MIN <= r <= INT_MAX && (INT_MIN <= node.n <= INT_MAX ==> r == node.n)
    ensures node.JBool? ==> r == (if node.b then 1 else 0)
    ensures node.JText? ==> r == textAsInt(node.text)
    ensures node.JNull? || node.JArray? || node.JObject? ==> r == 0
  {
    match node
    case JNum(n) => ToInt32(n)
    case JBool(b) => if b then 1 else 0
    case JText(t) => textAsInt(t)
    case _ => 0
  }

  /** The three chat-model beans. */
  datatype ChatModel = OllamaChat | GeminiChat | OpenAiChat

  /** The chat model `getChatClient` asks the application context for. */
  function ChatModelFor(p: AiProvider): (r: ChatModel)
    ensures r == OllamaChat <==> p == OLLAMA
    ensures r == GeminiChat <==> p == GEMINI
    ensures r == OpenAiChat <==> p == OPENAI
  {
    match p
    case OPENAI => OpenAiChat
    case GEMINI => GeminiChat
    case OLLAMA => OllamaChat
  }

  /** `getChatClient`: the chat model for the active provider, or the runtime
      error raised when the context holds no such bean. */
  function ChatClientFor(p: AiProvider, beans: set<ChatModel>): (r: Result<ChatModel, string>)
    ensures r.Ok? <==> ChatModelFor(p) in beans
    ensures r.Ok? ==> r.value == ChatModelFor(p)
    ensures r.Err? ==> r.error == "AI Provider " + Name(p) + " not configured correctly."
  {
    var m := ChatModelFor(p);
    if m in beans then Ok(m) else Err("AI Provider " + Name(p) + " not configured correctly.")
  }

  /** The document added to the vector store: the summary, with the metadata
      `source = legacy_db` and the claim id. */
  datatype Document = Document(content: string, source: string, claimId: int)

  /** What the listener asks of its collaborators, in order. A request that
      fails is followed by `TraceError`, except a failed vector add. */
  datatype Effect<S> =
    | Tag(key: string, value: string)                          // a trace tag
    | Prompt(model: ChatModel, text: string, temperature: real) // a chat call
    | DbUpdate(summary: string, claimId: int)                  // the UPDATE of claims.summary
    | VectorAdd(store: S, doc: Document)                       // the vector-store add
    | Event(name: string)                                      // a trace event
    | TraceError                                               // the error attached to the trace

  /** How the collaborators answer this message: the chat-model beans the
      context holds, the chat reply (`None` when the call throws), whether the
      database and vector-store writes succeed, and the library's parse of a
      text node as an int. */
  datatype Collaborators = Collaborators(
    beans: set<ChatModel>,
    reply: Option<string>,
    dbOk: bool,
    vectorOk: bool,
    textAsInt: string -> int)

  /** Writes to anything outside the trace. */
  predicate IsWrite<S>(e: Effect<S>)
  {
    e.Prompt? || e.DbUpdate? || e.VectorAdd?
  }

  predicate NoWrites<S>(effs: seq<Effect<S>>)
  {
    forall k :: 0 <= k < |effs| ==> !IsWrite(effs[k])
  }

  /** The record container: the `payload` field of a change envelope, or the
      root itself. */
  function Container(root: Json): Json
  {
    match Child(root, "payload")
    case Some(payload) => payload
    case None => root
  }

  /** The `after` image, unless it is absent or null (a delete event). */
  function AfterImage(payload: Json): Option<Json>
  {
    match Child(payload, "after")
    case None => None
    case Some(after) => if after.JNull? then None else Some(after)
  }

  /** A summary is present, not null and not empty. */
  predicate HasSummary(after: Json)
  {
    match Child(after, "summary")
    case None => false
    case Some(summary) => !summary.JNull? && AsText(summary) != ""
  }

  /** The tags set on the enrichment observation before it starts. */
  function Opening<S>(active: ActiveStore<S>): seq<Effect<S>>
  {
    [Tag("ai.provider", ToLower(Name(active.provider))), Tag("thread.type", "async")]
  }

  /** The effects of one message, given the active registry triple. `message`
      is the decoded tree, or `None` when decoding throws. */
  function ClaimEffects<S>(active: ActiveStore<S>, message: Option<Json>, env: Collaborators): (r: seq<Effect<S>>)
    ensures |r| >= 2 && r[0] == Opening(active)[0] && r[1] == Opening(active)[1]
    ensures message.None? ==> r == Opening(active) + [TraceError]
  {
    Opening(active) + MessageEffects(active, message, env)
  }

  /** The effects of a message after the opening tags: an error when it
      cannot be decoded, none for a delete event, otherwise those of its
      `after` image. */
  function MessageEffects<S>(active: ActiveStore<S>, message: Option<Json>, env: Collaborators): (r: seq<Effect<S>>)
    ensures message.None? ==> r == [TraceError]
    ensures message.Some? ==> (AfterImage(Container(message.value)).None? <==> r == [])
  {
    match message
    case None => [TraceError]
    case Some(root) =>
      match AfterImage(Container(root))
      case None => []
      case Some(after) => RecordEffects(active, after, env)
  }

  /** The claim id, `after.get("id").asInt()`. */
  function ClaimIdOf(after: Json, env: Collaborators): int
    requires Has(after, "id")
  {
    AsInt(Child(after, "id").value, env.textAsInt)
  }

  /** The raw description, `after.get("description").asText()`. */
  function DescriptionOf(after: Json): string
    requires Has(after, "description")
  {
    AsText(Child(after, "description").value)
  }

  /** The effects from the `after` image on. A missing id or description is
      Java's null, whose dereference throws. */
  function RecordEffects<S>(active: ActiveStore<S>, after: Json, env: Collaborators): (r: seq<Effect<S>>)
    ensures |r| >= 1
    ensures r[0] == TraceError <==> !Has(after, "id") || !Has(after, "description")
  {
    if !Has(after, "id") || !Has(after, "description") then [TraceError]
    else
      [Tag("claim.id", IntToDecimal(ClaimIdOf(after, env)))] +
      if HasSummary(after) then [] else Enrich(active, ClaimIdOf(after, env), DescriptionOf(after), env)
  }

  const PROMPT_PREFIX: string := "Summarize this insurance claim in 1 sentence: "

  /** Summarise, write back, index. */
  function Enrich<S>(active: ActiveStore<S>, claimId: int, description: string, env: Collaborators): (r: seq<Effect<S>>)
    ensures |r| >= 1
    ensures r[0].Prompt? <==> ChatModelFor(active.provider) in env.beans
    ensures !r[0].Prompt? ==> r == [TraceError]
  {
    match ChatClientFor(active.provider, env.beans)
    case Err(_) => [TraceError]
    case Ok(model) =>
      [Prompt(model, PROMPT_PREFIX + description, active.temperature)] +
      match env.reply
      case None => [TraceError]
      case Some(summary) =>
        [DbUpdate(summary, claimId)] +
        if !env.dbOk then [TraceError]
        else
          [VectorAdd(active.store, Document(summary, "legacy_db", claimId))] +
          (if env.vectorOk then [Event("vector.store.sync")] else []) +
          [Event("pipeline.complete")]
  }

  // ---------------------------------------------------------------------------
  // What the effect sequence promises.

  /** Wrapping a record in a change envelope's `payload` does not change how
      it is handled. */
  lemma EnvelopeTransparent<S>(active: ActiveStore<S>, record: Json, env: Collaborators)
    requires !Has(record, "payload")
    ensures ClaimEffects(active, Some(JObject(map["payload" := record])), env) == ClaimEffects(active, Some(record), env)
  {
  }

  /** A message whose `after` image is absent or null (a delete) asks nothing
      of the chat model, the database or the vector store. */
  lemma DeleteEventSkipped<S>(active: ActiveStore<S>, root: Json, env: Collaborators)
    requires !Has(Container(root), "after") || Child(Container(root), "after") == Some(JNull)
    ensures ClaimEffects(active, Some(root), env) == Opening(active)
    ensures NoWrites(ClaimEffects(active, Some(root), env))
  {
  }

  /** A record that already has a summary is only tagged with its claim id:
      nothing is written. */
  lemma SummarizedRecordSkipped<S>(active: ActiveStore<S>, after: Json, env: Collaborators)
    requires Has(after, "id") && Has(after, "description") && HasSummary(after)
    ensures RecordEffects(active, after, env) == [Tag("claim.id", IntToDecimal(ClaimIdOf(after, env)))]
    ensures NoWrites(RecordEffects(active, after, env))
  {
  }

  /** A record without an id or a description is an error, with nothing
      written, even when it already has a summary. */
  lemma IncompleteRecordFails<S>(active: ActiveStore<S>, after: Json, env: Collaborators)
    requires !Has(after, "id") || !Has(after, "description")
    ensures RecordEffects(active, after, env) == [TraceError]
  {
  }

  /** The change event that the listener's own write-back produces carries
      the written summary, and is skipped: once the stored row holds a
      non-empty summary, the event for it asks for nothing more. */
  lemma {:induction false} WrittenBackEventSkipped<S>(active: ActiveStore<S>, after: Json, env: Collaborators,
                                               active2: ActiveStore<S>, env2: Collaborators, k: nat)
    requires k < |RecordEffects(active, after, env)| && RecordEffects(active, after, env)[k].DbUpdate?
    requires RecordEffects(active, after, env)[k].summary != ""
    ensures var written := RecordEffects(active, after, env)[k].summary;
      NoWrites(RecordEffects(active2, WithSummary(after, written), env2)) &&
      |RecordEffects(active2, WithSummary(after, written), env2)| == 1
  {
    var written := RecordEffects(active, after, env)[k].summary;
    var redelivered := WithSummary(after, written);
    assert Child(redelivered, "summary") == Some(JText(written));
    assert Child(redelivered, "id") == Child(after, "id");
    assert Child(redelivered, "description") == Child(after, "description");
    SummarizedRecordSkipped(active2, redelivered, env2);
  }

  /** An empty chat reply is written back as an empty summary, which does
      not count as a summary: the change event for that write is handled
      exactly like the original record, for any registry state and
      collaborators, and so is enriched again whenever the model is there. */
  lemma {:induction false} EmptyWriteBackReenriched<S>(active: ActiveStore<S>, after: Json, env: Collaborators,
                                                 active2: ActiveStore<S>, env2: Collaborators, k: nat)
    requires k < |RecordEffects(active, after, env)| && RecordEffects(active, after, env)[k].DbUpdate?
    requires RecordEffects(active, after, env)[k].summary == ""
    ensures RecordEffects(active2, WithSummary(after, ""), env2) == RecordEffects(active2, after, env2)
    ensures ChatModelFor(active2.provider) in env2.beans ==>
      RecordEffects(active2, WithSummary(after, ""), env2)[1].Prompt?
  {
    if !(Has(after, "id") && Has(after, "description") && !HasSummary(after)) {
      RecordShort(active, after, env);
      assert false;
    }
    var redelivered := WithSummary(after, "");
    assert Child(redelivered, "summary") == Some(JText(""));
    assert Child(redelivered, "id") == Child(after, "id");
    assert Child(redelivered, "description") == Child(after, "description");
    assert !HasSummary(redelivered);
    RecordShape(active2, after, env2);
    RecordShape(active2, redelivered, env2);
  }

  /** A message delivered again, byte for byte, is handled afresh: the
      listener keeps no record of what it has handled, and the replayed
      record still has no summary. So the chat call, the database update and
      the vector add are all repeated, and the vector store is handed the same
      document twice. */
  lemma ReplayRepeatsWrites<S>(active: ActiveStore<S>, after: Json, env: Collaborators)
    requires Has(after, "id") && Has(after, "description") && !HasSummary(after)
    requires ChatModelFor(active.provider) in env.beans && env.reply.Some? && env.dbOk
    ensures var message := Some(JObject(map["after" := after]));
      var once := ClaimEffects(active, message, env);
      var twice := once + once;
      var writes := [Prompt(ChatModelFor(active.provider), PROMPT_PREFIX + DescriptionOf(after), active.temperature),
                     DbUpdate(env.reply.value, ClaimIdOf(after, env)),
                     VectorAdd(active.store, Document(env.reply.value, "legacy_db", ClaimIdOf(after, env)))];
      && |once| >= 6
      && twice[3..6] == writes
      && twice[|once| + 3..|once| + 6] == writes
  {
    var once := ClaimEffects(active, Some(JObject(map["after" := after])), env);
    EnrichedMessageWrites(active, after, env);
    SliceOfDoubled(once, 3, 6);
  }

  /** Both copies of a sequence written twice hold the same slice. */
  lemma SliceOfDoubled<T>(once: seq<T>, i: nat, j: nat)
    requires i <= j <= |once|
    ensures (once + once)[i..j] == once[i..j] && (once + once)[|once| + i..|once| + j] == once[i..j]
  {
  }

  /** The writes of one delivery of a message carrying a record without a
      summary: after the two opening tags and the claim-id tag come the chat
      call, the database update and the vector add. */
  lemma EnrichedMessageWrites<S>(active: ActiveStore<S>, after: Json, env: Collaborators)
    requires Has(after, "id") && Has(after, "description") && !HasSummary(after)
    requires ChatModelFor(active.provider) in env.beans && env.reply.Some? && env.dbOk
    ensures var once := ClaimEffects(active, Some(JObject(map["after" := after])), env);
      && |once| >= 6
      && once[3..6] == [Prompt(ChatModelFor(active.provider), PROMPT_PREFIX + DescriptionOf(after), active.temperature),
                        DbUpdate(env.reply.value, ClaimIdOf(after, env)),
                        VectorAdd(active.store, Document(env.reply.value, "legacy_db", ClaimIdOf(after, env)))]
  {
    var tag := Tag("claim.id", IntToDecimal(ClaimIdOf(after, env)));
    var enrich := Enrich(active, ClaimIdOf(after, env), DescriptionOf(after), env);
    BareRecordMessage(active, after, env);
    RecordShape(active, after, env);
    EnrichWrites(active, ClaimIdOf(after, env), DescriptionOf(after), env);
    Associates(Opening(active), [tag], enrich);
    SliceAfter(Opening(active) + [tag], enrich);
  }

  /** The three elements just past a three-element front. */
  lemma SliceAfter<T>(front: seq<T>, rest: seq<T>)
    requires |front| == 3 && |rest| >= 3
    ensures (front + rest)[3..6] == rest[..3]
  {
  }

  /** A record sent bare, as the only field of the message. */
  lemma BareRecordMessage<S>(active: ActiveStore<S>, after: Json, env: Collaborators)
    requires after.JObject?
    ensures ClaimEffects(active, Some(JObject(map["after" := after])), env) == Opening(active) + RecordEffects(active, after, env)
  {
    var root := JObject(map["after" := after]);
    assert Container(root) == root;
    assert AfterImage(root) == Some(after);
  }

  /** A successful chat call and database update: the first three effects
      are the chat call, the update and the vector add. */
  lemma EnrichWrites<S>(active: ActiveStore<S>, claimId: int, description: string, env: Collaborators)
    requires ChatModelFor(active.provider) in env.beans && env.reply.Some? && env.dbOk
    ensures var effs := Enrich(active, claimId, description, env);
      && |effs| >= 3
      && effs[..3] == [Prompt(ChatModelFor(active.provider), PROMPT_PREFIX + description, active.temperature),
                       DbUpdate(env.reply.value, claimId),
                       VectorAdd(active.store, Document(env.reply.value, "legacy_db", claimId))]
  {
    EnrichOutcomes(active, claimId, description, env);
  }

  /** The record as the database returns it once the summary is stored. */
  function WithSummary(after: Json, summary: string): (r: Json)
    ensures after.JObject? ==> Child(r, "summary") == Some(JText(summary))
    ensures forall name :: name != "summary" ==> Child(r, name) == Child(after, name)
  {
    if after.JObject? then JObject(after.fields["summary" := JText(summary)]) else after
  }

  /** An enriched record: the claim-id tag, then the enrichment steps. */
  lemma RecordShape<S>(active: ActiveStore<S>, after: Json, env: Collaborators)
    requires Has(after, "id") && Has(after, "description") && !HasSummary(after)
    ensures RecordEffects(active, after, env) ==
      [Tag("claim.id", IntToDecimal(ClaimIdOf(after, env)))] + Enrich(active, ClaimIdOf(after, env), DescriptionOf(after), env)
  {
  }

  /** Any other record: the error alone, or the claim-id tag alone. */
  lemma RecordShort<S>(active: ActiveStore<S>, after: Json, env: Collaborators)
    requires !(Has(after, "id") && Has(after, "description") && !HasSummary(after))
    ensures var effs := RecordEffects(active, after, env);
      |effs| == 1 && (effs[0] == TraceError || effs[0].Tag?)
  {
  }

  /** The only chat call sends the fixed instruction followed by the claim's
      description, to the active provider's model at the active temperature. */
  lemma PromptIsDescription<S>(active: ActiveStore<S>, after: Json, env: Collaborators)
    ensures forall k :: 0 <= k < |RecordEffects(active, after, env)| && RecordEffects(active, after, env)[k].Prompt? ==>
      k == 1 && Has(after, "description") &&
      RecordEffects(active, after, env)[k] ==
        Prompt(ChatModelFor(active.provider), PROMPT_PREFIX + DescriptionOf(after), active.temperature)
  {
    var effs := RecordEffects(active, after, env);
    if Has(after, "id") && Has(after, "description") && !HasSummary(after) {
      var enrich := Enrich(active, ClaimIdOf(after, env), DescriptionOf(after), env);
      RecordShape(active, after, env);
      EnrichPrompt(active, ClaimIdOf(after, env), DescriptionOf(after), env);
      forall k | 0 <= k < |effs| && effs[k].Prompt?
        ensures k == 1 && effs[k] == Prompt(ChatModelFor(active.provider), PROMPT_PREFIX + DescriptionOf(after), active.temperature)
      {
        assert k >= 1;
        assert effs[k] == enrich[k - 1];
      }
    } else {
      RecordShort(active, after, env);
    }
  }

  /** The same, for the enrichment steps alone. */
  lemma EnrichPrompt<S>(active: ActiveStore<S>, claimId: int, description: string, env: Collaborators)
    ensures var effs := Enrich(active, claimId, description, env);
      forall k :: 0 <= k < |effs| && effs[k].Prompt? ==>
        k == 0 && effs[k] == Prompt(ChatModelFor(active.provider), PROMPT_PREFIX + description, active.temperature)
  {
    EnrichOutcomes(active, claimId, description, env);
  }

  /** The five ways an enrichment attempt can go. */
  lemma EnrichOutcomes<S>(active: ActiveStore<S>, claimId: int, description: string, env: Collaborators)
    ensures var effs := Enrich(active, claimId, description, env);
      var prompt := Prompt(ChatModelFor(active.provider), PROMPT_PREFIX + description, active.temperature);
      && (ChatModelFor(active.provider) !in env.beans ==> effs == [TraceError])
      && (ChatModelFor(active.provider) in env.beans && env.reply.None? ==> effs == [prompt, TraceError])
      && (ChatModelFor(active.provider) in env.beans && env.reply.Some? ==>
            var db := DbUpdate(env.reply.value, claimId);
            var add := VectorAdd(active.store, Document(env.reply.value, "legacy_db", claimId));
            && (!env.dbOk ==> effs == [prompt, db, TraceError])
            && (env.dbOk && env.vectorOk ==> effs == [prompt, db, add, Event("vector.store.sync"), Event("pipeline.complete")])
            && (env.dbOk && !env.vectorOk ==> effs == [prompt, db, add, Event("pipeline.complete")]))
  {
  }

  /** The vector add comes right after the database update and carries the
      same summary and claim id, into the active store. */
  lemma DbUpdateBeforeVectorAdd<S>(active: ActiveStore<S>, after: Json, env: Collaborators)
    ensures var effs := RecordEffects(active, after, env);
      forall k :: 0 <= k < |effs| && effs[k].VectorAdd? ==>
        2 <= k && effs[k - 1] == DbUpdate(effs[k].doc.content, effs[k].doc.claimId) &&
        effs[k] == VectorAdd(active.store, Document(effs[k].doc.content, "legacy_db", effs[k].doc.claimId))
  {
    var effs := RecordEffects(active, after, env);
    if Has(after, "id") && Has(after, "description") && !HasSummary(after) {
      var enrich := Enrich(active, ClaimIdOf(after, env), DescriptionOf(after), env);
      RecordShape(active, after, env);
      EnrichVectorAfterDb(active, ClaimIdOf(after, env), DescriptionOf(after), env);
      forall k | 0 <= k < |effs| && effs[k].VectorAdd?
        ensures 2 <= k && effs[k - 1] == DbUpdate(effs[k].doc.content, effs[k].doc.claimId) &&
          effs[k] == VectorAdd(active.store, Document(effs[k].doc.content, "legacy_db", effs[k].doc.claimId))
      {
        assert k >= 1;
        assert effs[k] == enrich[k - 1];
        assert effs[k - 1] == enrich[k - 2];
      }
    } else {
      RecordShort(active, after, env);
    }
  }

  /** The same, for the enrichment steps alone. */
  lemma EnrichVectorAfterDb<S>(active: ActiveStore<S>, claimId: int, description: string, env: Collaborators)
    ensures var effs := Enrich(active, claimId, description, env);
      forall k :: 0 <= k < |effs| && effs[k].VectorAdd? ==>
        1 <= k && effs[k - 1] == DbUpdate(effs[k].doc.content, effs[k].doc.claimId) &&
        effs[k] == VectorAdd(active.store, Document(effs[k].doc.content, "legacy_db", effs[k].doc.claimId))
  {
    EnrichOutcomes(active, claimId, description, env);
  }

  /** The database update writes the chat reply, right after the chat call. */
  lemma DbUpdateWritesReply<S>(active: ActiveStore<S>, after: Json, env: Collaborators)
    ensures var effs := RecordEffects(active, after, env);
      forall k :: 0 <= k < |effs| && effs[k].DbUpdate? ==> k == 2 && effs[1].Prompt? && env.reply == Some(effs[k].summary)
  {
    var effs := RecordEffects(active, after, env);
    if Has(after, "id") && Has(after, "description") && !HasSummary(after) {
      var enrich := Enrich(active, ClaimIdOf(after, env), DescriptionOf(after), env);
      RecordShape(active, after, env);
      EnrichWritesReply(active, ClaimIdOf(after, env), DescriptionOf(after), env);
      forall k | 0 <= k < |effs| && effs[k].DbUpdate?
        ensures k == 2 && effs[1].Prompt? && env.reply == Some(effs[k].summary)
      {
        assert k >= 1;
        assert effs[k] == enrich[k - 1];
        assert effs[1] == enrich[0];
      }
    } else {
      RecordShort(active, after, env);
    }
  }

  /** The same, for the enrichment steps alone. */
  lemma EnrichWritesReply<S>(active: ActiveStore<S>, claimId: int, description: string, env: Collaborators)
    ensures var effs := Enrich(active, claimId, description, env);
      forall k :: 0 <= k < |effs| && effs[k].DbUpdate? ==> k == 1 && effs[0].Prompt? && env.reply == Some(effs[k].summary)
  {
    EnrichOutcomes(active, claimId, description, env);
  }

  /** A failed vector add is not fatal: the database update stands and the
      pipeline still completes, without the sync event. */
  lemma VectorFailureNotFatal<S>(active: ActiveStore<S>, after: Json, env: Collaborators, k: nat)
    requires k < |RecordEffects(active, after, env)| && RecordEffects(active, after, env)[k].DbUpdate?
    requires env.dbOk && !env.vectorOk
    ensures var effs := RecordEffects(active, after, env);
      effs[|effs| - 1] == Event("pipeline.complete") &&
      Event("vector.store.sync") !in effs && TraceError !in effs
  {
    var effs := RecordEffects(active, after, env);
    if Has(after, "id") && Has(after, "description") && !HasSummary(after) {
      var enrich := Enrich(active, ClaimIdOf(after, env), DescriptionOf(after), env);
      RecordShape(active, after, env);
      assert k >= 1 && effs[k] == enrich[k - 1];
      EnrichVectorFailure(active, ClaimIdOf(after, env), DescriptionOf(after), env, k - 1);
      assert effs[|effs| - 1] == enrich[|enrich| - 1];
    } else {
      RecordShort(active, after, env);
    }
  }

  /** The same, for the enrichment steps alone. */
  lemma EnrichVectorFailure<S>(active: ActiveStore<S>, claimId: int, description: string, env: Collaborators, k: nat)
    requires k < |Enrich(active, claimId, description, env)| && Enrich(active, claimId, description, env)[k].DbUpdate?
    requires env.dbOk && !env.vectorOk
    ensures var effs := Enrich(active, claimId, description, env);
      effs[|effs| - 1] == Event("pipeline.complete") &&
      Event("vector.store.sync") !in effs && TraceError !in effs
  {
    EnrichOutcomes(active, claimId, description, env);
  }

  /** An error ends the handling of a message: it is the last effect. */
  predicate ErrorEndsIt<S>(effs: seq<Effect<S>>)
  {
    forall k :: 0 <= k < |effs| && effs[k].TraceError? ==> k == |effs| - 1
  }

  lemma ErrorIsLast<S>(active: ActiveStore<S>, message: Option<Json>, env: Collaborators)
    ensures ErrorEndsIt(ClaimEffects(active, message, env))
  {
    var rest := MessageEffects(active, message, env);
    if message.Some? && AfterImage(Container(message.value)).Some? {
      RecordErrorIsLast(active, AfterImage(Container(message.value)).value, env);
      assert rest == RecordEffects(active, AfterImage(Container(message.value)).value, env);
    }
    TagsKeepErrorLast(Opening(active), rest);
  }

  lemma RecordErrorIsLast<S>(active: ActiveStore<S>, after: Json, env: Collaborators)
    ensures ErrorEndsIt(RecordEffects(active, after, env))
  {
    if Has(after, "id") && Has(after, "description") && !HasSummary(after) {
      var enrich := Enrich(active, ClaimIdOf(after, env), DescriptionOf(after), env);
      RecordShape(active, after, env);
      EnrichErrorIsLast(active, ClaimIdOf(after, env), DescriptionOf(after), env);
      TagsKeepErrorLast([Tag("claim.id", IntToDecimal(ClaimIdOf(after, env)))], enrich);
    } else {
      RecordShort(active, after, env);
    }
  }

  /** The same, for the enrichment steps alone. */
  lemma EnrichErrorIsLast<S>(active: ActiveStore<S>, claimId: int, description: string, env: Collaborators)
    ensures ErrorEndsIt(Enrich(active, claimId, description, env))
  {
    EnrichOutcomes(active, claimId, description, env);
  }

  /** Tags put in front keep a trace error last. */
  lemma TagsKeepErrorLast<S>(tags: seq<Effect<S>>, rest: seq<Effect<S>>)
    requires forall k :: 0 <= k < |tags| ==> tags[k].Tag?
    requires ErrorEndsIt(rest)
    ensures ErrorEndsIt(tags + rest)
  {
    forall k | 0 <= k < |tags + rest| && (tags + rest)[k].TraceError? ensures k == |tags + rest| - 1 {
      assert (tags + rest)[k] == rest[k - |tags|];
    }
  }

  /** The pipeline completes exactly when the summary was written back and
      nothing failed. */
  lemma CompleteIffWritten<S>(active: ActiveStore<S>, message: Option<Json>, env: Collaborators)
    ensures var effs := ClaimEffects(active, message, env);
      Event("pipeline.complete") in effs <==>
        (exists e :: e in effs && e.DbUpdate?) && TraceError !in effs
  {
    var rest := MessageEffects(active, message, env);
    if message.Some? && AfterImage(Container(message.value)).Some? {
      RecordCompleteIffWritten(active, AfterImage(Container(message.value)).value, env);
      assert rest == RecordEffects(active, AfterImage(Container(message.value)).value, env);
    }
    OnlyTags(Opening(active), rest);
  }

  lemma RecordCompleteIffWritten<S>(active: ActiveStore<S>, after: Json, env: Collaborators)
    ensures var effs := RecordEffects(active, after, env);
      Event("pipeline.complete") in effs <==>
        (exists e :: e in effs && e.DbUpdate?) && TraceError !in effs
  {
    if Has(after, "id") && Has(after, "description") && !HasSummary(after) {
      var enrich := Enrich(active, ClaimIdOf(after, env), DescriptionOf(after), env);
      RecordShape(active, after, env);
      EnrichCompleteIffWritten(active, ClaimIdOf(after, env), DescriptionOf(after), env);
      OnlyTags([Tag("claim.id", IntToDecimal(ClaimIdOf(after, env)))], enrich);
    } else {
      RecordShort(active, after, env);
    }
  }

  lemma EnrichCompleteIffWritten<S>(active: ActiveStore<S>, claimId: int, description: string, env: Collaborators)
    ensures var effs := Enrich(active, claimId, description, env);
      Event("pipeline.complete") in effs <==>
        (exists e :: e in effs && e.DbUpdate?) && TraceError !in effs
  {
    EnrichOutcomes(active, claimId, description, env);
    var effs := Enrich(active, claimId, description, env);
    if ChatModelFor(active.provider) in env.beans && env.reply.Some? {
      assert effs[1] == DbUpdate(env.reply.value, claimId);
    }
  }

  /** Trace tags in front of a sequence change none of its events, writes or
      errors. */
  lemma OnlyTags<S>(tags: seq<Effect<S>>, rest: seq<Effect<S>>)
    requires forall k :: 0 <= k < |tags| ==> tags[k].Tag?
    ensures forall e: Effect<S> :: !e.Tag? ==> (e in tags + rest <==> e in rest)
  {
  }

  /** Concatenation regroups. */
  lemma Associates<T>(a: seq<T>, b: seq<T>, c: seq<T>)
    ensures (a + b) + c == a + (b + c)
  {
  }

  class ClaimModernizationService<S(==)> {
    const manager: VectorStoreManager<S>
    /** Everything the listener has asked of its collaborators so far. */
    var effects: seq<Effect<S>>

    constructor (manager: VectorStoreManager<S>)
      ensures this.manager == manager && effects == []
    {
      this.manager := manager;
      effects := [];
    }

    /** `setAiProvider`: hands the request to the registry; `ok` is false when
        the registry throws on a null name. */
    method SetAiProvider(provider: Option<string>, temperature: real) returns (ok: bool)
      modifies manager
      ensures ok <==> provider.Some?
      ensures ok ==> manager.current == manager.NextActive(old(manager.current), provider.value, temperature)
      ensures !ok ==> manager.current == old(manager.current)
      ensures old(manager.Valid()) ==> manager.Valid()
    {
      ok := manager.SwitchToProvider(provider, temperature);
    }

    /** `getAiProvider`: the active provider's name in lower case, which the
        registry parses back to the same provider. */
    function GetAiProvider(): (name: string)
      reads this, manager
      ensures ParseProvider(name) == Some(manager.current.provider)
      ensures forall k :: 0 <= k < |name| ==> !IsAsciiUpper(name[k])
    {
      LowerNameParses(manager.current.provider);
      ToLower(Name(manager.current.provider))
    }

    /** `getTemperature`: the temperature of the active triple. */
    function GetTemperature(): (t: real)
      reads this, manager
      ensures t == manager.current.temperature
    {
      manager.current.temperature
    }

    /** `onClaimUpdate`, run to completion for one message. */
    method OnClaimUpdate(message: Option<Json>, env: Collaborators)
      modifies this
      ensures effects == old(effects) + ClaimEffects(manager.current, message, env)
    {
      var active := manager.Get();
      ghost var before := effects;
      effects := effects + Opening(active);
      HandleMessage(active, message, env);
      Associates(before, Opening(active), MessageEffects(active, message, env));
    }

    /** The listener's `try`, from decoding the message on. */
    method HandleMessage(active: ActiveStore<S>, message: Option<Json>, env: Collaborators)
      requires active == manager.current
      modifies this
      ensures effects == old(effects) + MessageEffects(active, message, env)
    {
      if message.None? {
        effects := effects + [TraceError];
        return;
      }
      var root := message.value;
      var payload := if Has(root, "payload") then Child(root, "payload").value else root;
      assert payload == Container(root);
      if !Has(payload, "after") || Child(payload, "after").value.JNull? {
        return;
      }
      HandleRecord(active, Child(payload, "after").value, env);
    }

    /** The body of the listener's `try` from reading the `after` image on. */
    method HandleRecord(active: ActiveStore<S>, after: Json, env: Collaborators)
      requires active == manager.current
      modifies this
      ensures effects == old(effects) + RecordEffects(active, after, env)
    {
      ghost var spec := RecordEffects(active, after, env);
      if !Has(after, "id") {
        assert spec == [TraceError];
        effects := effects + [TraceError];
        return;
      }
      var claimId := ClaimIdOf(after, env);
      if !Has(after, "description") {
        assert spec == [TraceError];
        effects := effects + [TraceError];
        return;
      }
      var rawDescription := DescriptionOf(after);
      var tag := Tag("claim.id", IntToDecimal(claimId));
      ghost var before := effects;
      effects := effects + [tag];
      if Has(after, "summary") && !Child(after, "summary").value.JNull? && AsText(Child(after, "summary").value) != "" {
        assert spec == [tag];
        return;
      }
      assert spec == [tag] + Enrich(active, claimId, rawDescription, env);
      EnrichClaim(active, claimId, rawDescription, env);
      Associates(before, [tag], Enrich(active, claimId, rawDescription, env));
    }

    /** Summarise the claim, write the summary back and index it. */
    method EnrichClaim(active: ActiveStore<S>, claimId: int, rawDescription: string, env: Collaborators)
      requires active == manager.current
      modifies this
      ensures effects == old(effects) + Enrich(active, claimId, rawDescription, env)
    {
      var client := ChatClientFor(active.provider, env.beans);
      if client.Err? {
        effects := effects + [TraceError];
        return;
      }
      effects := effects + [Prompt(client.value, PROMPT_PREFIX + rawDescription, GetTemperature())];
      if env.reply.None? {
        effects := effects + [TraceError];
        return;
      }
      var summary := env.reply.value;
      effects := effects + [DbUpdate(summary, claimId)];
      if !env.dbOk {
        effects := effects + [TraceError];
        return;
      }
      effects := effects + [VectorAdd(active.store, Document(summary, "legacy_db", claimId))];
      if env.vectorOk {
        effects := effects + [Event("vector.store.sync")];
      }
      effects := effects + [Event("pipeline.complete")];
    }
  }
}
