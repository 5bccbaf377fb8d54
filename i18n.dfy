/**
  The two display languages of the site and the per-language string table.
  The strings themselves are static content and are kept abstract here: a
  table is one value of some type `S` per language.
 */
module I18n {

  /** A supported display language: Polish or English. */
  datatype Locale = Pl | En

  /** The locale's code, as written to storage and to the document's `lang`. */
  function Tag(l: Locale): (code: string)
    ensures |code| == 2
  {
    match l
    case Pl => "pl"
    case En => "en"
  }

  /** Distinct locales have distinct codes. */
  lemma TagInjective(a: Locale, b: Locale)
    ensures Tag(a) == Tag(b) <==> a == b
  {
  }

  /** The translation table, one entry per locale. */
  datatype Translations<S> = Translations(pl: S, en: S) {

    /** The entry for locale `l` (`translations[l]`). */
    function For(l: Locale): (entry: S)
      ensures l == Pl ==> entry == pl
      ensures l == En ==> entry == en
    {
      match l
      case Pl => pl
      case En => en
    }
  }

  /**
    When the two entries differ, the entry shown determines the locale: a
    change of locale always changes the text the views receive.
   */
  lemma ForDistinguishesLocales<S>(table: Translations<S>, a: Locale, b: Locale)
    requires table.pl != table.en
    ensures table.For(a) == table.For(b) <==> a == b
  {
  }
}
