/** The per-request internationalisation configuration: the requested
    locale is normalised against the supported list, the messages of the
    normalised locale are loaded, and the configuration names that locale
    and the UTC time zone. */
module RequestConfig {
  import opened Optional
  import opened Routing

  /** `locale && locales.includes(locale) ? locale : 'en'`. `None` stands
      for `undefined`. */
  function NormalizeLocale(requested: Option<string>): (r: string)
    ensures IsSupported(r)
    ensures requested.Some? && IsSupported(requested.value) ==> r == requested.value
    ensures requested.None? || !IsSupported(requested.value) ==> r == DefaultLocale
  {
    match requested
    case None => DefaultLocale
    case Some(locale) =>
      if locale != "" && locale in Locales then locale else DefaultLocale
  }

  /** Normalising a normalised locale changes nothing. */
  lemma NormalizeIdempotent(requested: Option<string>)
    ensures NormalizeLocale(Some(NormalizeLocale(requested))) == NormalizeLocale(requested)
  {
  }

  /** The missing, the empty and every unsupported locale fall back to English. */
  lemma NormalizeFallback()
    ensures NormalizeLocale(None) == "en"
    ensures NormalizeLocale(Some("")) == "en"
    ensures NormalizeLocale(Some("it")) == "en"
    ensures NormalizeLocale(Some("EN")) == "en"
  {
  }

  const UtcZone: string := "UTC"

  datatype Config<M> = Config(messages: M, timeZone: string, now: int, locale: string)

  /** The configuration for one request. `load` stands for the dynamic
      import of `messages/<locale>.json`; `now` for `new Date()`. */
  function GetRequestConfig<M>(requested: Option<string>, load: string -> M, now: int): (c: Config<M>)
    ensures IsSupported(c.locale)
    ensures c.messages == load(c.locale)
    ensures c.timeZone == "UTC"
    ensures c.now == now
    ensures requested.Some? && IsSupported(requested.value) ==> c.locale == requested.value
    ensures requested.None? || !IsSupported(requested.value) ==> c.locale == "en"
  {
    var locale := NormalizeLocale(requested);
    Config(load(locale), UtcZone, now, locale)
  }
}
