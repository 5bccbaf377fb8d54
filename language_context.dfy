/**
  The locale preference store shared by all text-bearing views: the current
  locale, its persisted copy in the browser's key-value storage, and the
  document's `lang` attribute. Storage and the document are modelled as
  plain fields; the provider's re-rendering is not modelled.
 */
module LanguageContext {
  import opened I18n

  datatype Option<T> = None | Some(value: T)

  datatype Result<T, E> = Success(value: T) | Failure(error: E)

  /** The storage key under which the preference is kept. */
  const StorageKey := "portfolio-locale"

  /** The locale a provider starts with, before storage has been read. */
  const InitialLocale := En

  /** The error raised by `useLanguage` outside a provider. */
  const ProviderMissing := "useLanguage must be used within LanguageProvider"

  /** `getItem`: the stored string, or nothing when the key is absent. */
  function GetItem(storage: map<string, string>, key: string): (r: Option<string>)
    ensures r.Some? <==> key in storage
    ensures r.Some? ==> r.value == storage[key]
  {
    if key in storage then Some(storage[key]) else None
  }

  /**
    The validity filter applied to a stored preference: a value is adopted
    only when it is exactly the code of a locale; anything else, and a
    missing value, is ignored.
   */
  function ParseStored(stored: Option<string>): (r: Option<Locale>)
    ensures r.Some? ==> stored == Some(Tag(r.value))
    ensures forall l :: stored == Some(Tag(l)) ==> r == Some(l)
  {
    if stored == Some("en") then Some(En)
    else if stored == Some("pl") then Some(Pl)
    else None
  }

  /** Reading back the code of a locale yields that locale. */
  lemma ParseTagRoundTrip(l: Locale)
    ensures ParseStored(Some(Tag(l))) == Some(l)
  {
  }

  // ---------------------------------------------------------------------
  // The provider's state as a value, and its two transitions
  // ---------------------------------------------------------------------

  datatype ProviderState = ProviderState(locale: Locale, storage: map<string, string>, documentLang: string)

  /** The locale, the stored preference and the document language agree. */
  predicate Consistent(st: ProviderState)
  {
    && StorageKey in st.storage
    && st.storage[StorageKey] == Tag(st.locale)
    && st.documentLang == Tag(st.locale)
  }

  /** A provider just created over the given storage and document. */
  function Initial(storage: map<string, string>, documentLang: string): (st: ProviderState)
    ensures st.locale == InitialLocale
    ensures st.storage == storage && st.documentLang == documentLang
  {
    ProviderState(InitialLocale, storage, documentLang)
  }

  /** The mount step: adopt a valid stored preference, otherwise change nothing. */
  function MountStep(st: ProviderState): (r: ProviderState)
    ensures r.storage == st.storage
    ensures ParseStored(GetItem(st.storage, StorageKey)).None? ==> r == st
    ensures ParseStored(GetItem(st.storage, StorageKey)).Some? ==>
              && StorageKey in st.storage
              && Tag(r.locale) == st.storage[StorageKey]
              && r.documentLang == st.storage[StorageKey]
  {
    match ParseStored(GetItem(st.storage, StorageKey))
    case Some(stored) => st.(locale := stored, documentLang := Tag(stored))
    case None => st
  }

  /** `setLocale(next)`: state, stored preference and document language all become `next`. */
  function SetLocaleStep(st: ProviderState, next: Locale): (r: ProviderState)
    ensures r.locale == next && Consistent(r)
    ensures forall k :: k != StorageKey ==> GetItem(r.storage, k) == GetItem(st.storage, k)
  {
    ProviderState(next, st.storage[StorageKey := Tag(next)], Tag(next))
  }

  // ---------------------------------------------------------------------
  // Properties of the transitions
  // ---------------------------------------------------------------------

  /** After a mount that found a valid preference, everything agrees. */
  lemma MountAdoptsValidPreference(st: ProviderState)
    requires ParseStored(GetItem(st.storage, StorageKey)).Some?
    ensures Consistent(MountStep(st))
    ensures MountStep(st).locale == ParseStored(GetItem(st.storage, StorageKey)).value
  {
  }

  /** Mounting keeps a consistent state as it is. */
  lemma MountKeepsConsistent(st: ProviderState)
    requires Consistent(st)
    ensures MountStep(st) == st
  {
  }

  /** Setting the same locale twice leaves the state of setting it once. */
  lemma SetLocaleIdempotent(st: ProviderState, x: Locale)
    ensures SetLocaleStep(SetLocaleStep(st, x), x) == SetLocaleStep(st, x)
  {
  }

  /** Of two consecutive `setLocale` calls only the last one is visible. */
  lemma SetLocaleLastWins(st: ProviderState, x: Locale, y: Locale)
    ensures SetLocaleStep(SetLocaleStep(st, x), y) == SetLocaleStep(st, y)
  {
  }

  /**
    Round trip across a reload: a fresh provider over the storage left by
    `setLocale(x)` ends its mount step with locale `x`, whatever the page's
    own `lang` was.
   */
  lemma PersistedLocaleSurvivesReload(st: ProviderState, x: Locale, pageLang: string)
    ensures MountStep(Initial(SetLocaleStep(st, x).storage, pageLang)).locale == x
    ensures Consistent(MountStep(Initial(SetLocaleStep(st, x).storage, pageLang)))
  {
  }

  /**
    Without a valid stored preference the page keeps its own `lang` while
    the locale is English: e.g. a page declaring "pl" over empty storage.
    Agreement is only guaranteed once a preference has been read or set.
   */
  lemma NoPreferenceKeepsPageLang()
    ensures MountStep(Initial(map[], "pl")).locale == En
    ensures MountStep(Initial(map[], "pl")).documentLang == "pl"
    ensures !Consistent(MountStep(Initial(map[], "pl")))
  {
  }

  /**
    In general: without a valid stored preference, a page whose own `lang`
    is not "en" disagrees with the locale after mounting.
   */
  lemma NoPreferenceLeavesMismatch(storage: map<string, string>, pageLang: string)
    requires ParseStored(GetItem(storage, StorageKey)).None?
    requires pageLang != Tag(InitialLocale)
    ensures MountStep(Initial(storage, pageLang)).documentLang != Tag(MountStep(Initial(storage, pageLang)).locale)
    ensures !Consistent(MountStep(Initial(storage, pageLang)))
  {
  }

  // ---------------------------------------------------------------------
  // The provider object
  // ---------------------------------------------------------------------

  /** What the provider hands to the views below it. */
  datatype ContextValue<S> = ContextValue(locale: Locale, t: S)

  class LanguageProvider {
    var locale: Locale
    /** The browser's key-value storage. */
    var storage: map<string, string>
    /** The `lang` attribute of the document's root element. */
    var documentLang: string

    ghost function State(): ProviderState
      reads this
    {
      ProviderState(locale, storage, documentLang)
    }

    constructor (storage: map<string, string>, documentLang: string)
      ensures State() == Initial(storage, documentLang)
      ensures locale == InitialLocale
    {
      this.locale := InitialLocale;
      this.storage := storage;
      this.documentLang := documentLang;
    }

    /** The mount effect: reads storage, never writes it. */
    method Mount()
      modifies this`locale, this`documentLang
      ensures State() == MountStep(old(State()))
      ensures storage == old(storage)
    {
      var stored := GetItem(storage, StorageKey);
      if stored == Some("en") || stored == Some("pl") {
        locale := if stored.value == "en" then En else Pl;
        documentLang := stored.value;
      }
    }

    /** `setLocale`: writes the state, the storage key and the document language. */
    method SetLocale(next: Locale)
      modifies this
      ensures State() == SetLocaleStep(old(State()), next)
      ensures Consistent(State()) && locale == next
    {
      locale := next;
      storage := storage[StorageKey := Tag(next)];
      documentLang := Tag(next);
    }

    /** The value provided to the views: the locale and `translations[locale]`. */
    function Value<S>(table: Translations<S>): (v: ContextValue<S>)
      reads this
      ensures v.locale == locale
      ensures v.t == table.For(v.locale)
    {
      ContextValue(locale, table.For(locale))
    }
  }

  /** `useLanguage`: the nearest provider's value, or an error when there is none. */
  function UseLanguage<S>(nearest: Option<ContextValue<S>>): (r: Result<ContextValue<S>, string>)
    ensures r.Success? <==> nearest.Some?
    ensures r.Success? ==> r.value == nearest.value
    ensures r.Failure? ==> r.error == ProviderMissing
  {
    match nearest
    case Some(v) => Success(v)
    case None => Failure(ProviderMissing)
  }
}
