# Phoenix claim-modernisation service: a Dafny model

Phoenix listens to change-data-capture messages from a legacy claims table.
For each claim without a summary, it asks the active AI provider's chat model
for a one-sentence summary. It writes the summary back to the table and adds
it to that provider's vector store. An operator can switch the active provider
and temperature through a REST endpoint. A governance service can scrub SSNs,
e-mail addresses and policy ids from claim text.

The model has five modules:

- `Common` (`common.dfy`): optional values and results, Java's `int`
  narrowing, decimal text, and ASCII case mapping.
- `Registry` (`registry.dfy`): `VectorStoreManager`, the cell that holds the
  active (provider, temperature, vector store) triple.
  - Switching is modelled as the update function the atomic cell applies.
  - `ApplyAll` covers any serial order of competing switches.
- `Redaction` (`redaction.dfy`): `GovernanceService.redactSensitiveData`.
  - Each regular expression has two descriptions. One is declarative: the
    spans it matches (`IsSpan`). The other is an explicit matcher that follows
    the regex engine's choices at one position (`Find`), including greedy
    backtracking.
  - `Find` is proved sound and complete against `IsSpan`, and to return the
    longest span.
  - `ReplaceAll` is `Matcher.replaceAll`'s left-to-right scan.
- `Enrichment` (`enrichment.dfy`): `ClaimModernizationService`.
  - The listener is a class whose effect log grows as it runs.
  - `onClaimUpdate` is an imperative step sequence with early returns. It is
    proved to append exactly `ClaimEffects`, a pure description of the effect
    sequence, and the lemmas are about `ClaimEffects`.
- `Controller` (`controller.dfy`): the configuration endpoints of
  `PhoenixController` and their temperature validation.

The collaborators are inputs: the JSON decoder, the chat model, the database,
the vector store, `Double.parseDouble` and `Double.toString`. The listener's
requests to them are recorded as effects.

Where the system's documentation and its code differ, the model follows the
code:

- **Unknown provider names.** A POST naming no provider (say `"bogus"`) gets
  `{status: success, provider: "bogus"}`, and the registry keeps its triple
  (`NextActive`, `PhoenixController.SetAiProvider`). It is not rejected.
- **Temperature ignored.** Re-selecting the active provider keeps the old
  temperature (`NextActive`, `NextActiveIdempotent`). The new temperature is
  not applied.
- **Residual SSN match.** The three substitutions do not always leave text
  free of all three patterns. `RedactionCanLeaveSsn` shows an example:
  - `a@b.cd123456789` becomes `[REDACTED_EMAIL]123456789`.
  - The SSN stage ran first and skipped the nine digits, because a letter came
    right before them.
  - Once the e-mail is replaced, `]` comes right before them, so they form a
    word-bounded SSN match in the output.
  - Each single substitution does leave no match of its own pattern
    (`ReplaceAll`). The final output is free of e-mail and policy matches
    (`RedactSensitiveData`); only SSN matches can remain.
- **Replay is not idempotent.** The listener keeps no record of the
  messages it has handled. A message delivered again while the row still has
  no summary repeats the chat call, the database update and the vector add,
  so the vector store receives the same document twice
  (`ReplayRepeatsWrites`). The event produced by the listener's own
  write-back carries the summary, and is skipped when the reply was
  non-empty (`WrittenBackEventSkipped`). An empty reply is written back as
  an empty summary, which does not count as one, so that event is enriched
  afresh (`EmptyWriteBackReenriched`).
- **No redaction in the pipeline.** The listener does not call the redactor.
  The prompt carries the raw description (`PromptIsDescription`).

## Model

| member | source | states |
|---|---|---|
| Common.ToInt32 | phoenix-service/src/main/java/com/example/phoenix/service/ClaimModernizationService.java:112 | `asInt` on a number yields a value in the 32-bit range, congruent to the number modulo 2^32, and equal to it when it already fits |
| Common.NatToDecimal | phoenix-service/src/main/java/com/example/phoenix/service/ClaimModernizationService.java:116 | the decimal text of a claim id is non-empty, made of digits, denotes the id (`DecimalValue`) and has no leading zero |
| Common.IntToDecimal | phoenix-service/src/main/java/com/example/phoenix/service/ClaimModernizationService.java:116 | `String.valueOf(int)` is non-empty, starts with `-` exactly for negative ids, and the digits after the sign denote the id's magnitude with no leading zero |
| Common.ToUpper | phoenix-service/src/main/java/com/example/phoenix/service/VectorStoreManager.java:45 | upper-casing keeps the length and maps every character by itself |
| Common.ToLower | phoenix-service/src/main/java/com/example/phoenix/service/ClaimModernizationService.java:58 | lower-casing keeps the length and maps every character by itself |
| Common.ToUpperIdempotent | phoenix-service/src/main/java/com/example/phoenix/service/VectorStoreManager.java:45 | upper-casing twice is upper-casing once |
| Common.UpperOfLower | phoenix-service/src/main/java/com/example/phoenix/service/ClaimModernizationService.java:58 | an upper-case name lower-cased and upper-cased again is the name |
| Registry.ValueOf | phoenix-service/src/main/java/com/example/phoenix/service/VectorStoreManager.java:45 | `valueOf` gives a provider exactly when the text is that provider's name; any other text is the exception case |
| Registry.ParseProviderIgnoresCase | phoenix-service/src/main/java/com/example/phoenix/service/VectorStoreManager.java:45 | provider names are matched ignoring case: a name parses to p exactly when its upper-case form is p's name |
| Registry.LowerNameParses | phoenix-service/src/main/java/com/example/phoenix/service/ClaimModernizationService.java:58 | the lower-case name the service reports parses back to the same provider |
| Registry.VectorStoreManager.constructor | phoenix-service/src/main/java/com/example/phoenix/service/VectorStoreManager.java:27-37 | the initial triple is (OLLAMA, 0.3, the Ollama store), and the store is bound to its provider |
| Registry.VectorStoreManager.LookupStore | phoenix-service/src/main/java/com/example/phoenix/service/VectorStoreManager.java:64-70 | each provider's store is its own bean: Ollama, Gemini and OpenAI give the Ollama, Gemini and OpenAI store |
| Registry.VectorStoreManager.Get | phoenix-service/src/main/java/com/example/phoenix/service/VectorStoreManager.java:82-84 | `get` returns the current triple, whose store is the lookup of its provider whenever the registry is valid |
| Registry.VectorStoreManager.NextActive | phoenix-service/src/main/java/com/example/phoenix/service/VectorStoreManager.java:43-61 | an unknown name or the active provider keeps the triple, including its temperature; another provider p gives exactly (p, temperature, store of p) |
| Registry.VectorStoreManager.SwitchToProvider | phoenix-service/src/main/java/com/example/phoenix/service/VectorStoreManager.java:39-62 | a null name throws and leaves the triple unchanged; otherwise the triple becomes `NextActive` of the old one; the store stays bound to the provider |
| Registry.VectorStoreManager.GetStore | phoenix-service/src/main/java/com/example/phoenix/service/VectorStoreManager.java:72-80 | a known name gives that provider's store; a null or unknown name gives the active store; it changes nothing |
| Registry.VectorStoreManager.NextActivePreservesBinding | phoenix-service/src/main/java/com/example/phoenix/service/VectorStoreManager.java:53-55 | every switch keeps the active store equal to the lookup of the active provider |
| Registry.VectorStoreManager.NextActiveIdempotent | phoenix-service/src/main/java/com/example/phoenix/service/VectorStoreManager.java:48-51 | repeating a switch, with any temperature, changes nothing |
| Registry.VectorStoreManager.NextActiveIgnoresCase | phoenix-service/src/main/java/com/example/phoenix/service/VectorStoreManager.java:45 | upper-casing the requested name first gives the same triple |
| Registry.VectorStoreManager.ReportedNameIsNoOp | phoenix-service/src/main/java/com/example/phoenix/service/VectorStoreManager.java:48-51 | switching to the provider name the service reports keeps the triple, whatever temperature is given |
| Registry.VectorStoreManager.ApplyAllYieldsARequest | phoenix-service/src/main/java/com/example/phoenix/service/VectorStoreManager.java:43-61 | after any serial order of switches, the triple is the initial one or exactly one caller's (provider, temperature, bound store) |
| Registry.VectorStoreManager.ApplyAllPreservesBinding | phoenix-service/src/main/java/com/example/phoenix/service/VectorStoreManager.java:43-61 | any serial order of switches keeps the store bound to the provider |
| Redaction.SsnAt | phoenix-service/src/main/java/com/example/phoenix/service/GovernanceService.java:26 | the SSN matcher at one position returns only SSN spans, and returns nothing only when no span starts there |
| Redaction.SsnSpanAlternatives | phoenix-service/src/main/java/com/example/phoenix/service/GovernanceService.java:26 | an SSN span is the dashed 3-2-4 form or nine digits, with `\b` on both sides |
| Redaction.SsnAtCorrect | phoenix-service/src/main/java/com/example/phoenix/service/GovernanceService.java:26 | the span the SSN matcher returns is the only one starting there |
| Redaction.RunEnd | phoenix-service/src/main/java/com/example/phoenix/service/GovernanceService.java:29 | a greedy character-class run stops at the end of the text or at the first character outside the class |
| Redaction.TldDot | phoenix-service/src/main/java/com/example/phoenix/service/GovernanceService.java:29 | backtracking the domain run finds the last dot followed by two letters, or reports that there is none |
| Redaction.EmailAt | phoenix-service/src/main/java/com/example/phoenix/service/GovernanceService.java:29 | an e-mail match at a position is at least six characters long, lies inside the text and ends with a letter |
| Redaction.EmailAtCorrect | phoenix-service/src/main/java/com/example/phoenix/service/GovernanceService.java:29 | the e-mail matcher returns an e-mail span, the longest one starting there, and returns nothing only when none starts there |
| Redaction.BacktrackDigits | phoenix-service/src/main/java/com/example/phoenix/service/GovernanceService.java:32 | giving back digits from at most ten down to four finds the longest digit count followed by `\b` (no longer count up to the run's end is followed by one), or reports that there is none |
| Redaction.PolicyAt | phoenix-service/src/main/java/com/example/phoenix/service/GovernanceService.java:32 | a policy match at a position is at least eight characters long, lies inside the text, and has a word boundary on both sides |
| Redaction.PolicyAtCorrect | phoenix-service/src/main/java/com/example/phoenix/service/GovernanceService.java:32 | the policy matcher returns the single policy span starting there, and returns nothing only when none does |
| Redaction.Find | phoenix-service/src/main/java/com/example/phoenix/service/GovernanceService.java:26-32 | each pattern's matcher is sound, complete and returns the longest span at the position |
| Redaction.FirstMatch | phoenix-service/src/main/java/com/example/phoenix/service/GovernanceService.java:48 | the scan's next match is at the first position where the pattern matches |
| Redaction.ReplaceFromSplit | phoenix-service/src/main/java/com/example/phoenix/service/GovernanceService.java:48 | `replaceAll` copies the text before the leftmost match, writes the token and resumes at the match's end |
| Redaction.ReplaceAllUnchanged | phoenix-service/src/main/java/com/example/phoenix/service/GovernanceService.java:48 | one substitution leaves the text unchanged exactly when its pattern matches nowhere in it |
| Redaction.NoResidualFrom | phoenix-service/src/main/java/com/example/phoenix/service/GovernanceService.java:48 | the output of the scan from any position, after a token's `]`, holds no match of the pattern |
| Redaction.ReplaceAll | phoenix-service/src/main/java/com/example/phoenix/service/GovernanceService.java:48-54 | after one substitution, its own pattern matches nowhere in the output |
| Redaction.RedactSensitiveData | phoenix-service/src/main/java/com/example/phoenix/service/GovernanceService.java:38-61 | null stays null and empty text is returned as it is; any other text comes back as text in which no policy id and no e-mail address matches (SSNs can remain: `RedactionCanLeaveSsn`) |
| Redaction.NoKeyNoSpan | phoenix-service/src/main/java/com/example/phoenix/service/GovernanceService.java:26-32 | a text without digits or `@` holds no span of any pattern |
| Redaction.EmailSpanHasAt | phoenix-service/src/main/java/com/example/phoenix/service/GovernanceService.java:29 | every e-mail span contains an `@` |
| Redaction.NoAtNoEmail | phoenix-service/src/main/java/com/example/phoenix/service/GovernanceService.java:29 | a text without `@` holds no e-mail span |
| Redaction.SsnSpanFacts | phoenix-service/src/main/java/com/example/phoenix/service/GovernanceService.java:26 | an SSN span is bounded by digits and by non-word characters, and is nine digits or has its dashes in places four and seven |
| Redaction.AllDigitsSsn | phoenix-service/src/main/java/com/example/phoenix/service/GovernanceService.java:26 | a digit-only text becomes the SSN token exactly when it has nine digits; a ten-digit run is left alone |
| Redaction.RedactNullOrEmpty | phoenix-service/src/main/java/com/example/phoenix/service/GovernanceService.java:39-41 | a null or empty input is returned as it is, and no PII is reported |
| Redaction.NoPiiUnchanged | phoenix-service/src/main/java/com/example/phoenix/service/GovernanceService.java:45-60 | a text that no pattern matches comes back identical, and no PII is reported |
| Redaction.PiiDetectedMeansMatch | phoenix-service/src/main/java/com/example/phoenix/service/GovernanceService.java:56-58 | when PII is reported, one of the three patterns matched the input |
| Redaction.MatchMeansDetected | phoenix-service/src/main/java/com/example/phoenix/service/GovernanceService.java:45-58 | conversely, when any of the three patterns matches a non-empty text, PII is reported |
| Redaction.ReplaceAllKeyCount | phoenix-service/src/main/java/com/example/phoenix/service/GovernanceService.java:48-54 | a substitution never adds a digit or `@`, and removes at least one whenever its pattern matches |
| Redaction.PolicyStageKeepsNoEmail | phoenix-service/src/main/java/com/example/phoenix/service/GovernanceService.java:54 | the policy substitution keeps a text free of e-mail matches |
| Redaction.NinePolicyDigitsTakenAsSsn | phoenix-service/src/main/java/com/example/phoenix/service/GovernanceService.java:45-54 | because SSNs are scrubbed first, `POL-` with nine digits becomes `POL-[REDACTED_SSN]`, not the policy token |
| Redaction.PolicySpanFacts | phoenix-service/src/main/java/com/example/phoenix/service/GovernanceService.java:32 | a policy span starts with P in either case, is bounded by non-word characters, and is `POL-` or `POLICY-` with 4 to 10 digits |
| Redaction.PolicyDigits | phoenix-service/src/main/java/com/example/phoenix/service/GovernanceService.java:32 | `POL-` or `POLICY-` (in capitals) with 4 to 10 digits, other than 9, becomes the policy token; with fewer than 4 or more than 10 digits the text is left alone |
| Redaction.RedactionCanLeaveSsn | phoenix-service/src/main/java/com/example/phoenix/service/GovernanceService.java:45-54 | the composed redaction can return text that still holds an SSN match: `a@b.cd123456789` gives `[REDACTED_EMAIL]123456789` |
| Enrichment.AsText | phoenix-service/src/main/java/com/example/phoenix/service/ClaimModernizationService.java:113 | `asText` gives a text node's text, `"null"` for a null, `"true"`/`"false"` for a boolean, for a number, non-empty decimal text that starts with `-` exactly when the number is negative, and empty text for arrays and objects |
| Enrichment.AsInt | phoenix-service/src/main/java/com/example/phoenix/service/ClaimModernizationService.java:112 | `asInt` gives a number narrowed to 32 bits (unchanged when it fits), 1 or 0 for a boolean, the lenient parse of a text, and 0 for null, arrays and objects |
| Enrichment.ChatModelFor | phoenix-service/src/main/java/com/example/phoenix/service/ClaimModernizationService.java:69-77 | each provider is dispatched to its own chat model, and each model is chosen for its provider only |
| Enrichment.ChatClientFor | phoenix-service/src/main/java/com/example/phoenix/service/ClaimModernizationService.java:65-84 | the chat client is the active provider's model when the context holds that bean; otherwise it is the "not configured correctly" error naming the provider |
| Enrichment.ClaimEffects | phoenix-service/src/main/java/com/example/phoenix/service/ClaimModernizationService.java:86-161 | a message's effects start with the provider and thread tags; an undecodable message then ends in a trace error |
| Enrichment.MessageEffects | phoenix-service/src/main/java/com/example/phoenix/service/ClaimModernizationService.java:104-109 | after the opening tags, an undecodable message is a trace error, and a message adds nothing exactly when its `after` image is absent or null |
| Enrichment.RecordEffects | phoenix-service/src/main/java/com/example/phoenix/service/ClaimModernizationService.java:111-122 | from the `after` image on, the first effect is a trace error exactly when the id or the description is missing |
| Enrichment.Enrich | phoenix-service/src/main/java/com/example/phoenix/service/ClaimModernizationService.java:127-153 | the enrichment starts with a chat call exactly when the context holds the active provider's model bean; otherwise it is the trace error alone |
| Enrichment.EnvelopeTransparent | phoenix-service/src/main/java/com/example/phoenix/service/ClaimModernizationService.java:104-105 | a record wrapped in a `payload` envelope is handled exactly like the bare record |
| Enrichment.DeleteEventSkipped | phoenix-service/src/main/java/com/example/phoenix/service/ClaimModernizationService.java:107-109 | a message whose `after` is absent or null produces only the opening trace tags, with no chat call, database write or vector write |
| Enrichment.IncompleteRecordFails | phoenix-service/src/main/java/com/example/phoenix/service/ClaimModernizationService.java:112-113 | a record without an id or a description ends in a trace error with nothing written, even if it has a summary |
| Enrichment.SummarizedRecordSkipped | phoenix-service/src/main/java/com/example/phoenix/service/ClaimModernizationService.java:116-122 | a record with a non-null, non-empty summary is only tagged with its claim id: nothing is written |
| Enrichment.WithSummary | phoenix-service/src/main/java/com/example/phoenix/service/ClaimModernizationService.java:136 | the stored row carries the written summary, and every other column is unchanged |
| Enrichment.WrittenBackEventSkipped | phoenix-service/src/main/java/com/example/phoenix/service/ClaimModernizationService.java:118-136 | the change event produced by the listener's own write-back carries the written non-empty summary and is skipped: it writes nothing, for any registry state and collaborators |
| Enrichment.EmptyWriteBackReenriched | phoenix-service/src/main/java/com/example/phoenix/service/ClaimModernizationService.java:117-136 | when the chat reply is empty, the change event for the written-back row is handled exactly like the original record, so it is enriched again whenever the model bean is present |
| Enrichment.EnrichedMessageWrites | phoenix-service/src/main/java/com/example/phoenix/service/ClaimModernizationService.java:104-143 | one delivery of a record without a summary issues, after the opening and claim-id tags, the chat call with the description, the database update with the reply and the vector add of the reply |
| Enrichment.ReplayRepeatsWrites | phoenix-service/src/main/java/com/example/phoenix/service/ClaimModernizationService.java:86-161 | the listener keeps no record of handled messages: the same message delivered twice repeats the chat call, the database update and the vector add, handing the store the same document twice |
| Enrichment.PromptIsDescription | phoenix-service/src/main/java/com/example/phoenix/service/ClaimModernizationService.java:127-133 | the only chat call sends the fixed instruction plus the raw description, to the active provider's model at the registry's temperature |
| Enrichment.EnrichOutcomes | phoenix-service/src/main/java/com/example/phoenix/service/ClaimModernizationService.java:127-153 | an enrichment ends in one of five ways (missing bean, chat failure, database failure, vector success, vector failure), each with its exact effect sequence |
| Enrichment.DbUpdateBeforeVectorAdd | phoenix-service/src/main/java/com/example/phoenix/service/ClaimModernizationService.java:136-143 | the vector add comes right after the database update, with the same summary and claim id, `source = legacy_db`, into the active store |
| Enrichment.DbUpdateWritesReply | phoenix-service/src/main/java/com/example/phoenix/service/ClaimModernizationService.java:127-136 | the database update follows the chat call and writes the chat reply |
| Enrichment.VectorFailureNotFatal | phoenix-service/src/main/java/com/example/phoenix/service/ClaimModernizationService.java:140-153 | when the vector add fails after a successful database update, no error is recorded, the sync event is absent and `pipeline.complete` is the last effect |
| Enrichment.ErrorIsLast | phoenix-service/src/main/java/com/example/phoenix/service/ClaimModernizationService.java:155-158 | an error ends a message's handling: a trace error is always the last effect |
| Enrichment.RecordErrorIsLast | phoenix-service/src/main/java/com/example/phoenix/service/ClaimModernizationService.java:111-158 | the same holds from the `after` image on |
| Enrichment.CompleteIffWritten | phoenix-service/src/main/java/com/example/phoenix/service/ClaimModernizationService.java:101-158 | `pipeline.complete` is recorded exactly when a database update was issued and nothing failed |
| Enrichment.RecordCompleteIffWritten | phoenix-service/src/main/java/com/example/phoenix/service/ClaimModernizationService.java:111-158 | the same holds from the `after` image on |
| Enrichment.EnrichCompleteIffWritten | phoenix-service/src/main/java/com/example/phoenix/service/ClaimModernizationService.java:127-153 | the same holds for the enrichment steps |
| Enrichment.ClaimModernizationService.constructor | phoenix-service/src/main/java/com/example/phoenix/service/ClaimModernizationService.java:42-50 | the service uses the given registry and starts with an empty effect log |
| Enrichment.ClaimModernizationService.SetAiProvider | phoenix-service/src/main/java/com/example/phoenix/service/ClaimModernizationService.java:52-55 | delegates to the registry's switch: same outcome, same null-name failure, binding kept |
| Enrichment.ClaimModernizationService.GetAiProvider | phoenix-service/src/main/java/com/example/phoenix/service/ClaimModernizationService.java:57-59 | the reported name has no upper-case letters and parses back to the active provider |
| Enrichment.ClaimModernizationService.GetTemperature | phoenix-service/src/main/java/com/example/phoenix/service/ClaimModernizationService.java:61-63 | the reported temperature is the registry's active temperature |
| Enrichment.ClaimModernizationService.OnClaimUpdate | phoenix-service/src/main/java/com/example/phoenix/service/ClaimModernizationService.java:86-161 | handling one message appends exactly `ClaimEffects` of the active triple, the message and the collaborators' answers to the effect log; the registry is untouched |
| Enrichment.ClaimModernizationService.HandleMessage | phoenix-service/src/main/java/com/example/phoenix/service/ClaimModernizationService.java:102-109 | after the opening tags, the log grows by exactly `MessageEffects`: the decode error, nothing for a delete event, or the record's effects |
| Enrichment.ClaimModernizationService.HandleRecord | phoenix-service/src/main/java/com/example/phoenix/service/ClaimModernizationService.java:111-153 | from the `after` image on, the log grows by exactly `RecordEffects` |
| Enrichment.ClaimModernizationService.EnrichClaim | phoenix-service/src/main/java/com/example/phoenix/service/ClaimModernizationService.java:127-153 | the chat call, database update and vector add grow the log by exactly `Enrich` |
| Controller.ValidateAndGetTemperature | phoenix-service/src/main/java/com/example/phoenix/controller/PhoenixController.java:95-108 | the temperature is accepted exactly when the given text, or "0.3" when absent, parses to a value in the closed range [0, 1], and the accepted value is the parsed one; otherwise an IllegalArgumentException with the message for unparsable or out-of-range text |
| Controller.MissingTemperatureDefaults | phoenix-service/src/main/java/com/example/phoenix/controller/PhoenixController.java:97-99 | a request without a temperature gets 0.3 |
| Controller.PhoenixController.constructor | phoenix-service/src/main/java/com/example/phoenix/controller/PhoenixController.java:38-44 | the controller uses the given service |
| Controller.PhoenixController.SetAiProvider | phoenix-service/src/main/java/com/example/phoenix/controller/PhoenixController.java:83-93 | validation comes first, and a rejected temperature leaves the registry unchanged; a missing provider throws with the registry unchanged; otherwise the registry takes `NextActive` and the response is `{status: success, provider: <name as given>}`, for unknown names too |
| Controller.PhoenixController.GetAiProvider | phoenix-service/src/main/java/com/example/phoenix/controller/PhoenixController.java:75-81 | the response has exactly `provider` and `temperature`; the provider is the service's reported name, which parses back to the active provider, and the temperature is the active one as printed |
| Controller.PhoenixController.ReportedProviderIsNoOp | phoenix-service/src/main/java/com/example/phoenix/controller/PhoenixController.java:75-93 | posting back the provider that GET reports, with any temperature, leaves the registry's triple as it is |

## Left out

- `AiProvider.java` is not part of this model. Its three constants are the
  ones the registry's `switch` names.
- Concurrency is not modelled:
  - The atomic cell's compare-and-set retry is reduced to applying the update
    function once per caller, in some serial order (`ApplyAll`).
  - The listener's `CompletableFuture.runAsync` hand-off is not modelled. The
    registry is read once per message, where the source re-reads it up to five
    times; this only differs when a switch lands during a message.
- Temperatures are real numbers. `Double.parseDouble` and `Double.toString`
  are the parameters `parseDouble` and `showDouble`. NaN and the infinities
  are not modelled. In Java, `"NaN"` passes the range check, because both
  comparisons are false.
- Controller.ValidateAndGetTemperature: the range check is on the parsed real,
  so rounding of the decimal text to a double is not captured.
- Enrichment.AsInt: text nodes go through the library's lenient number parse,
  which is the parameter `textAsInt`. Its results are not constrained to the
  32-bit range that the parse returns, so a text id is not proved to give an
  `int`-sized claim id. JSON numbers are integers only;
  floating-point nodes are not modelled.
- Decoding the message is not modelled. The model receives the decoded tree,
  or `None` when `readTree` throws (malformed JSON or a null message).
- Enrichment.ClaimModernizationService.OnClaimUpdate: a chat reply of null content is not modelled. The
  reply is a string, or `None` when the call throws.
- Observation lifecycle is not modelled: start and stop, the parent link, and
  the per-provider chat options class (an Ollama options object is sent to
  every provider). Only tags, events and the recorded error are effects.
- Logging is not modelled. It has no effect on results.
- Common.ToUpper and Common.ToLower map ASCII letters only, as Java does in a
  root-like locale such as English. Two differences are not captured:
  - Java also maps a few non-ASCII letters onto ASCII; for example, dotless
    `ı` upper-cases to `I`. Such provider names would be accepted in Java but
    are rejected here.
  - `toUpperCase()` and `toLowerCase()` use the JVM's default locale. In a
    Turkish locale `"gemini"` upper-cases to `"GEMİNİ"`, so switching to
    Gemini silently does nothing, and GET reports `"gemını"`. The model
    assumes a root-like default locale.
- Redaction.IsWordChar: `\b` counts only ASCII letters, digits and `_` as
  word characters. This is Java's `\b` from JDK 19 on, when the pattern is
  compiled without `UNICODE_CHARACTER_CLASS`, as here. Up to JDK 18, `\b`
  also counts non-ASCII letters and digits, so on those runtimes text next to
  non-ASCII letters can match differently.
- Redaction.RedactSensitiveData: the "PII detected" log line is modelled only
  as the predicate `PiiDetected`.
- Omitted because they are only HTTP proxying or SQL I/O:
  `getClaims`, `createClaim`, `getDashboards` and `MonitoringController`.
- Omitted because they are only bean wiring and start-up:
  - the configuration classes;
  - the Weaviate start-up retry loop;
  - the application entry point.
- Omitted because it has no logic: the React UI.
- `FraudResult` is not modelled. It is a plain data holder with no checks,
  and no fraud scoring, structured-output parsing or retrieval exists in this
  code.
