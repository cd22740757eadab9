/** The provider registry: one cell holding the active
    (provider, temperature, vector store) triple, replaced wholesale when an
    operator switches to another AI provider. The type parameter `S` stands for
    the vector-store beans, which the registry only stores and hands out. */
module Registry {
  import opened Common

  datatype AiProvider = OLLAMA | GEMINI | OPENAI

  /** `Enum.name()`. */
  function Name(p: AiProvider): string
  {
    match p
    case OLLAMA => "OLLAMA"
    case GEMINI => "GEMINI"
    case OPENAI => "OPENAI"
  }

  /** `AiProvider.valueOf`: an exact, case-sensitive match of a constant's name;
      any other text is the IllegalArgumentException case, here `None`. */
  function ValueOf(name: string): (r: Option<AiProvider>)
    ensures forall p :: r == Some(p) <==> Name(p) == name
  {
    if name == "OLLAMA" then Some(OLLAMA)
    else if name == "GEMINI" then Some(GEMINI)
    else if name == "OPENAI" then Some(OPENAI)
    else None
  }

  /** `AiProvider.valueOf(providerName.toUpperCase())`. */
  function ParseProvider(name: string): Option<AiProvider>
  {
    ValueOf(ToUpper(name))
  }

  /** Provider names are matched case-insensitively. */
  lemma ParseProviderIgnoresCase(name: string)
    ensures ParseProvider(ToUpper(name)) == ParseProvider(name)
    ensures forall p :: ParseProvider(name) == Some(p) <==> ToUpper(name) == Name(p)
  {
    ToUpperIdempotent(name);
  }

  /** The lower-case name that the configuration endpoint reports parses back
      to the same provider. */
  lemma LowerNameParses(p: AiProvider)
    ensures ParseProvider(ToLower(Name(p))) == Some(p)
  {
    UpperOfLower(Name(p));
  }

  /** `VectorStoreManager.ActiveStore`. */
  datatype ActiveStore<S> = ActiveStore(provider: AiProvider, temperature: real, store: S)

  /** One requested switch, as `switchToProvider` receives it. */
  datatype SwitchRequest = SwitchRequest(providerName: string, temperature: real)

  class VectorStoreManager<S(==)> {
    const ollamaStore: S
    const geminiStore: S
    const openaiStore: S
    var current: ActiveStore<S>

    /** The active store is always the one bound to the active provider. */
    ghost predicate Valid()
      reads this
    {
      Bound(current)
    }

    ghost predicate Bound(a: ActiveStore<S>)
    {
      a.store == LookupStore(a.provider)
    }

    constructor (ollamaStore: S, geminiStore: S, openaiStore: S)
      ensures this.ollamaStore == ollamaStore
      ensures this.geminiStore == geminiStore
      ensures this.openaiStore == openaiStore
      ensures current == ActiveStore(OLLAMA, 0.3, ollamaStore)
      ensures Valid()
    {
      this.ollamaStore := ollamaStore;
      this.geminiStore := geminiStore;
      this.openaiStore := openaiStore;
      current := ActiveStore(OLLAMA, 0.3, ollamaStore);
    }

    /** The static provider-to-store table: each provider to its own bean. */
    function LookupStore(p: AiProvider): (store: S)
      ensures p == OLLAMA ==> store == ollamaStore
      ensures p == GEMINI ==> store == geminiStore
      ensures p == OPENAI ==> store == openaiStore
    {
      match p
      case OLLAMA => ollamaStore
      case GEMINI => geminiStore
      case OPENAI => openaiStore
    }

    /** The update function handed to the atomic cell by `switchToProvider`:
        an unknown name or the already-active provider keeps the current
        triple (the requested temperature is then ignored); any other known
        provider replaces the whole triple. */
    function NextActive(cur: ActiveStore<S>, providerName: string, temperature: real): (next: ActiveStore<S>)
      ensures ParseProvider(providerName).None? ==> next == cur
      ensures ParseProvider(providerName) == Some(cur.provider) ==> next == cur
      ensures forall p :: ParseProvider(providerName) == Some(p) ==> next.provider == p
      ensures next == cur || next == ActiveStore(next.provider, temperature, LookupStore(next.provider))
    {
      match ParseProvider(providerName)
      case None => cur
      case Some(p) => if p == cur.provider then cur else ActiveStore(p, temperature, LookupStore(p))
    }

    /** `switchToProvider`. A null name makes `toUpperCase` throw a
        NullPointerException inside the update function; it is not the
        IllegalArgumentException the function catches, so it escapes and the
        cell keeps its value. */
    method SwitchToProvider(providerName: Option<string>, temperature: real) returns (ok: bool)
      modifies this
      ensures ok <==> providerName.Some?
      ensures ok ==> current == NextActive(old(current), providerName.value, temperature)
      ensures !ok ==> current == old(current)
      ensures old(Valid()) ==> Valid()
    {
      if providerName.None? {
        return false;
      }
      if Valid() {
        NextActivePreservesBinding(current, providerName.value, temperature);
      }
      current := NextActive(current, providerName.value, temperature);
      ok := true;
    }

    /** `getStore`: the named provider's store, or the active store when the
        name is null or unknown. It never changes the active triple. */
    function GetStore(providerName: Option<string>): (s: S)
      reads this
      ensures forall n, p :: providerName == Some(n) && ParseProvider(n) == Some(p) ==> s == LookupStore(p)
      ensures providerName.None? || ParseProvider(providerName.value).None? ==> s == current.store
    {
      match providerName
      case None => current.store
      case Some(n) =>
        match ParseProvider(n)
        case Some(p) => LookupStore(p)
        case None => current.store
    }

    /** `get`: the active triple, whose store belongs to its provider. */
    function Get(): (a: ActiveStore<S>)
      reads this
      ensures a == current
      ensures Valid() ==> a.store == LookupStore(a.provider)
    {
      current
    }

    /** Every switch keeps the active store bound to the active provider. */
    lemma NextActivePreservesBinding(cur: ActiveStore<S>, providerName: string, temperature: real)
      requires Bound(cur)
      ensures Bound(NextActive(cur, providerName, temperature))
    {
    }

    /** Repeating a switch changes nothing, whatever temperature comes with it. */
    lemma NextActiveIdempotent(cur: ActiveStore<S>, providerName: string, t1: real, t2: real)
      ensures NextActive(NextActive(cur, providerName, t1), providerName, t2) == NextActive(cur, providerName, t1)
    {
    }

    /** Upper-casing the requested name first makes no difference. */
    lemma NextActiveIgnoresCase(cur: ActiveStore<S>, providerName: string, temperature: real)
      ensures NextActive(cur, ToUpper(providerName), temperature) == NextActive(cur, providerName, temperature)
    {
      ParseProviderIgnoresCase(providerName);
    }

    /** Re-submitting the provider name the configuration endpoint reports is a
        no-op, even with a different temperature. */
    lemma ReportedNameIsNoOp(cur: ActiveStore<S>, temperature: real)
      ensures NextActive(cur, ToLower(Name(cur.provider)), temperature) == cur
    {
      LowerNameParses(cur.provider);
    }

    /** The switches of several callers, applied one after another (the order
        the atomic cell's compare-and-set settles on). */
    function ApplyAll(cur: ActiveStore<S>, requests: seq<SwitchRequest>): ActiveStore<S>
      decreases |requests|
    {
      if requests == [] then cur
      else ApplyAll(NextActive(cur, requests[0].providerName, requests[0].temperature), requests[1..])
    }

    /** Whatever the order, the final triple is either the initial one or
        exactly what one of the callers asked for, with its bound store. */
    lemma {:induction false} ApplyAllYieldsARequest(cur: ActiveStore<S>, requests: seq<SwitchRequest>)
      ensures var fin := ApplyAll(cur, requests);
        fin == cur ||
        exists k :: 0 <= k < |requests| &&
          ParseProvider(requests[k].providerName) == Some(fin.provider) &&
          fin == ActiveStore(fin.provider, requests[k].temperature, LookupStore(fin.provider))
      decreases |requests|
    {
      if requests != [] {
        var r := requests[0];
        var mid := NextActive(cur, r.providerName, r.temperature);
        ApplyAllYieldsARequest(mid, requests[1..]);
        var fin := ApplyAll(mid, requests[1..]);
        if fin == mid {
          if mid != cur {
            assert ParseProvider(requests[0].providerName) == Some(fin.provider);
          }
        } else {
          var k :| 0 <= k < |requests[1..]| &&
            ParseProvider(requests[1..][k].providerName) == Some(fin.provider) &&
            fin == ActiveStore(fin.provider, requests[1..][k].temperature, LookupStore(fin.provider));
          assert requests[k + 1] == requests[1..][k];
        }
      }
    }

    /** A sequence of switches keeps the store bound to the provider. */
    lemma {:induction false} ApplyAllPreservesBinding(cur: ActiveStore<S>, requests: seq<SwitchRequest>)
      requires Bound(cur)
      ensures Bound(ApplyAll(cur, requests))
      decreases |requests|
    {
      if requests != [] {
        NextActivePreservesBinding(cur, requests[0].providerName, requests[0].temperature);
        ApplyAllPreservesBinding(NextActive(cur, requests[0].providerName, requests[0].temperature), requests[1..]);
      }
    }
  }
}
