/** The routing table shared by the locale code: the supported locales and
    the default one. */
module Routing {

  const Locales: seq<string> := ["en", "ru", "es", "de", "fr"]

  const DefaultLocale: string := "en"

  predicate IsSupported(locale: string) {
    locale in Locales
  }
}
