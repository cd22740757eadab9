/** The configuration endpoints of the REST controller: reading the active AI
    provider, and switching it after checking the requested temperature.
    Parsing a decimal number and printing a double are the Java library's;
    the model takes them as the functions `parseDouble` (`None` where
    `Double.parseDouble` throws) and `showDouble`. */
module Controller {
  import opened Common
  import opened Registry
  import opened Enrichment

  /** The exception a request ends in. */
  datatype Failure = IllegalArgument(message: string) | NullPointer

  /** `Map.get` on the request body: Java's null is `None`. */
  function Field(payload: map<string, string>, key: string): Option<string>
  {
    if key in payload then Some(payload[key]) else None
  }

  /** The temperature text the controller parses: the one given, or "0.3". */
  function TemperatureText(temperatureString: Option<string>): string
  {
    match temperatureString
    case None => "0.3"
    case Some(t) => t
  }

  /** `validateAndGetTemperature`: the parsed temperature when it lies in the
      closed range [0, 1]; otherwise the IllegalArgumentException, whose
      message tells an unparsable text from an out-of-range value. */
  function ValidateAndGetTemperature(temperatureString: Option<string>, parseDouble: string -> Option<real>): (r: Result<real, Failure>)
    ensures var parsed := parseDouble(TemperatureText(temperatureString));
      r.Ok? <==> parsed.Some? && 0.0 <= parsed.value <= 1.0
    ensures r.Ok? ==> r.value == parseDouble(TemperatureText(temperatureString)).value
    ensures r.Err? ==> r.error.IllegalArgument?
    ensures r.Err? && parseDouble(TemperatureText(temperatureString)).None? ==>
      r.error.message == "Temperature must be a valid double value"
    ensures r.Err? && parseDouble(TemperatureText(temperatureString)).Some? ==>
      r.error.message == "Temperature must be between 0 and 1"
  {
    var text := if temperatureString.None? then "0.3" else temperatureString.value;
    match parseDouble(text)
    case None => Err(IllegalArgument("Temperature must be a valid double value"))
    case Some(temperature) =>
      if temperature < 0.0 || temperature > 1.0 then Err(IllegalArgument("Temperature must be between 0 and 1"))
      else Ok(temperature)
  }

  /** A request without a temperature asks for 0.3. */
  lemma MissingTemperatureDefaults(parseDouble: string -> Option<real>)
    requires parseDouble("0.3") == Some(0.3)
    ensures ValidateAndGetTemperature(None, parseDouble) == Ok(0.3)
  {
  }

  class PhoenixController<S(==)> {
    const service: ClaimModernizationService<S>

    constructor (service: ClaimModernizationService<S>)
      ensures this.service == service
    {
      this.service := service;
    }

    /** `POST /api/config/ai-provider`. The temperature is checked before the
        registry is touched, so a rejected request changes nothing; a missing
        provider name makes the registry throw; otherwise the response echoes
        the name as given, whether or not it named a provider. */
    method SetAiProvider(payload: map<string, string>, parseDouble: string -> Option<real>)
      returns (r: Result<map<string, string>, Failure>)
      modifies service.manager
      ensures var checked := ValidateAndGetTemperature(Field(payload, "temperature"), parseDouble);
        && (checked.Err? ==> r == Err(checked.error))
        && (checked.Ok? && "provider" !in payload ==> r == Err(NullPointer))
        && (checked.Ok? && "provider" in payload ==>
              r == Ok(map["status" := "success", "provider" := payload["provider"]]) &&
              service.manager.current == service.manager.NextActive(old(service.manager.current), payload["provider"], checked.value))
      ensures r.Err? ==> service.manager.current == old(service.manager.current)
      ensures old(service.manager.Valid()) ==> service.manager.Valid()
    {
      var provider := Field(payload, "provider");
      var checked := ValidateAndGetTemperature(Field(payload, "temperature"), parseDouble);
      if checked.Err? {
        return Err(checked.error);
      }
      var ok := service.SetAiProvider(provider, checked.value);
      if !ok {
        return Err(NullPointer);
      }
      r := Ok(map["status" := "success", "provider" := provider.value]);
    }

    /** `GET /api/config/ai-provider`: the active provider's name, which parses
        back to the active provider, and the active temperature as Java prints
        it. */
    function GetAiProvider(showDouble: real -> string): (response: map<string, string>)
      reads service, service.manager
      ensures response.Keys == {"provider", "temperature"}
      ensures response["provider"] == service.GetAiProvider()
      ensures ParseProvider(response["provider"]) == Some(service.manager.current.provider)
      ensures response["temperature"] == showDouble(service.manager.current.temperature)
    {
      map["provider" := service.GetAiProvider(), "temperature" := showDouble(service.GetTemperature())]
    }

    /** Posting back the provider the GET endpoint reports leaves the active
        triple as it is, whatever temperature comes with it. */
    lemma ReportedProviderIsNoOp(showDouble: real -> string, temperature: real)
      ensures service.manager.NextActive(service.manager.current, GetAiProvider(showDouble)["provider"], temperature)
        == service.manager.current
    {
      service.manager.ReportedNameIsNoOp(service.manager.current, temperature);
    }
  }
}
