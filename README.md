# Portfolio site: cursor trail buffer and locale preference store

This project is a Dafny model of the two pieces of discrete, stateful logic in a
personal portfolio website. The rest of the site is rendering.

- **The cursor glow trail** (`src/components/ui/CursorGlow.tsx`, module
  `CursorGlow`, file `cursor_glow.dfy`) is a bounded first-in-first-out buffer of
  pointer samples `{x, y, age}`. Each pointer move appends a sample of age 0 and
  evicts the oldest sample once the buffer holds more than 50. Each animation frame
  increments every sample's age by one, in place, and then keeps only the samples
  younger than 40. The overlay also remembers the last pointer position, which
  starts off screen at (-100, -100).
  - The class `Trail` holds `points` (a `seq<Sample>`, oldest first) and `mouse`.
  - `OnMouseMove` and `Animate` model the two handlers. `Animate` ages the samples
    with a loop, like the source, and then applies the filter.
  - Each method is proved against the specification functions `Pushed`, `AgedBy`,
    `Survivors` and `Frame`.
  - The object invariant `WellFormed` says three things: at most 50 samples, every
    age in `[0, 40)`, and ages that never increase from front to back.
  - The last point is the FIFO order made explicit. Because of it, the cull always
    removes a prefix, which is the oldest samples (`CullIsSuffix`).
- **The locale preference store** (`src/lib/LanguageContext.tsx`, module
  `LanguageContext`, with the `Locale` type of `src/lib/i18n.ts` in module `I18n`)
  holds the current locale (`"en"` before storage is read) and two more things:
  the browser storage, modelled as a `map<string, string>`, and the document's
  `lang` attribute, modelled as a string.
  - `Mount` adopts a stored value only when it is exactly `"en"` or `"pl"`.
  - `SetLocale` writes the same locale to the state, to the storage key
    `"portfolio-locale"` and to the document language.
  - The same transitions are also written as functions on a `ProviderState`
    value, so that several steps can be related by lemmas: idempotence,
    last-write-wins and the round trip across a reload.
  - `useLanguage` is modelled as a function from the nearest provider value, if
    any, to a result or the error it throws.

Environment inputs are parameters:
- the pointer coordinates are parameters of `OnMouseMove`;
- the initial storage contents and the page's initial `lang` are constructor
  parameters;
- a frame is one call of `Animate`.

## Model

| member | source | states |
|---|---|---|
| CursorGlow.Pushed | src/components/ui/CursorGlow.tsx:27-30 | After a move, the last sample is the event's (x, y) with age 0. The samples before it are the old trail, with exactly its oldest sample dropped once 50 were held. The length is one more than before, or unchanged at the cap. |
| CursorGlow.AgedBy | src/components/ui/CursorGlow.tsx:40-42 | Ageing keeps length, order and coordinates. It adds exactly n to each sample's age. |
| CursorGlow.Survivors | src/components/ui/CursorGlow.tsx:59 | The cull never grows the trail and leaves only samples younger than 40. |
| CursorGlow.SurvivorsOfAlive | src/components/ui/CursorGlow.tsx:59 | The cull changes nothing when every sample is younger than 40. |
| CursorGlow.SurvivorsOfExpired | src/components/ui/CursorGlow.tsx:59 | The cull leaves nothing when every sample has reached age 40. |
| CursorGlow.SurvivorsMembers | src/components/ui/CursorGlow.tsx:59 | A sample survives the cull if and only if it was in the trail with age below 40. |
| CursorGlow.SurvivorsCounts | src/components/ui/CursorGlow.tsx:59 | The cull keeps each live sample exactly as many times as it occurs (duplicates included) and no expired sample. |
| CursorGlow.PushPreservesWellFormed | src/components/ui/CursorGlow.tsx:27-30 | A move keeps the invariant: at most 50 samples, ages in [0, 40), ages non-increasing from oldest to newest. |
| CursorGlow.CullIsSuffix | src/components/ui/CursorGlow.tsx:59 | On a trail whose ages descend, the filter removes exactly a prefix, and every sample in that prefix has reached age 40. So exactly the expired samples go, and the survivors keep their relative order. |
| CursorGlow.AgeingKeepsOrder | src/components/ui/CursorGlow.tsx:40-42 | Incrementing every age keeps the ages descending and non-negative. |
| CursorGlow.FramePreservesWellFormed | src/components/ui/CursorGlow.tsx:40-59 | A frame keeps the invariant and never increases the length. Its result is the aged trail with a prefix removed, and the removed samples are exactly those whose incremented age reached 40. |
| CursorGlow.CullBeforeAgeing | src/components/ui/CursorGlow.tsx:42-59 | Culling first and then ageing by n culls to the same trail as ageing by n alone. |
| CursorGlow.AgedByAdds | src/components/ui/CursorGlow.tsx:42 | Ageing by m and then by n equals ageing by m + n. |
| CursorGlow.FrameThenAge | src/components/ui/CursorGlow.tsx:40-59 | One frame followed by ageing by n culls to the same trail as ageing by n + 1. |
| CursorGlow.FramesAgeAtOnce | src/components/ui/CursorGlow.tsx:36-74 | n frames with no input equal ageing every live sample by n and culling once. |
| CursorGlow.SampleLifetime | src/components/ui/CursorGlow.tsx:27-59 | After n frames with no input, a sample is present, n frames older, exactly when its age plus n is below 40. A fresh sample therefore survives at most 39 frames. |
| CursorGlow.EmptyAfterMaxAgeFrames | src/components/ui/CursorGlow.tsx:34-59 | With no further input, any well-formed trail is empty after 40 frames. |
| CursorGlow.Trail.constructor | src/components/ui/CursorGlow.tsx:7-8 | The trail starts empty and well formed, with the pointer at (-100, -100). |
| CursorGlow.Trail.OnMouseMove | src/components/ui/CursorGlow.tsx:25-31 | The mouse becomes the event's coordinates. The trail becomes Pushed of the old trail, and the invariant (at most 50 samples) is kept. |
| CursorGlow.Trail.Animate | src/components/ui/CursorGlow.tsx:36-59 | The in-place age++ loop followed by the filter turns the trail into Frame of the old trail: no longer, all ages below 40, invariant kept, mouse untouched. |
| I18n.Tag | src/lib/i18n.ts:1 | Every locale has a two-letter code. |
| I18n.TagInjective | src/lib/i18n.ts:1 | The codes "pl" and "en" identify their locales: two codes are equal if and only if their locales are. |
| I18n.Translations.For | src/lib/LanguageContext.tsx:33 | `translations[locale]` selects the Polish entry for Pl and the English entry for En. |
| I18n.ForDistinguishesLocales | src/lib/LanguageContext.tsx:33 | When the two entries differ, the table shown identifies the locale. So a change of locale always changes the text. |
| LanguageContext.GetItem | src/lib/LanguageContext.tsx:20 | A storage read gives the stored string exactly when the key is present, and nothing otherwise. |
| LanguageContext.ParseStored | src/lib/LanguageContext.tsx:20-21 | The validity filter accepts a stored value exactly when it is the code of a locale, and yields that locale. Any other or missing value is rejected. |
| LanguageContext.ParseTagRoundTrip | src/lib/LanguageContext.tsx:21-22 | Reading back the code of a locale yields that locale. |
| LanguageContext.Initial | src/lib/LanguageContext.tsx:17 | Before storage is read the locale is "en", and storage and document language are as given. |
| LanguageContext.MountStep | src/lib/LanguageContext.tsx:19-25 | Mounting never changes storage. With a valid stored value, the locale and document language become that value. Otherwise nothing changes. |
| LanguageContext.SetLocaleStep | src/lib/LanguageContext.tsx:27-31 | After setLocale(x), the locale, the value stored under "portfolio-locale" and the document language all equal x. No other storage key changes. |
| LanguageContext.MountAdoptsValidPreference | src/lib/LanguageContext.tsx:20-24 | A mount that finds a valid preference leaves locale, storage and document language in agreement, with the stored locale. |
| LanguageContext.MountKeepsConsistent | src/lib/LanguageContext.tsx:19-25 | Mounting over a state that already agrees changes nothing. |
| LanguageContext.SetLocaleIdempotent | src/lib/LanguageContext.tsx:27-31 | setLocale(x) twice leaves exactly the state of setLocale(x) once. |
| LanguageContext.SetLocaleLastWins | src/lib/LanguageContext.tsx:27-31 | setLocale(x) then setLocale(y) leaves exactly the state of setLocale(y). |
| LanguageContext.PersistedLocaleSurvivesReload | src/lib/LanguageContext.tsx:20-29 | A fresh provider over the storage left by setLocale(x) ends its mount with locale x, in agreement, whatever the page's own lang. |
| LanguageContext.NoPreferenceKeepsPageLang | src/lib/LanguageContext.tsx:17-24 | Over empty storage on a page declaring lang "pl" (src/app/layout.tsx:20), the locale after mounting is "en" while the document still says "pl". Agreement holds only once a preference has been read or set. |
| LanguageContext.NoPreferenceLeavesMismatch | src/lib/LanguageContext.tsx:17-24 | For any storage without a valid preference and any page lang other than "en", the document language differs from the locale after mounting, so locale, stored preference and document language do not agree. |
| LanguageContext.LanguageProvider.constructor | src/lib/LanguageContext.tsx:17 | A new provider holds locale "en" over the given storage and document language. |
| LanguageContext.LanguageProvider.Mount | src/lib/LanguageContext.tsx:19-25 | The mount effect moves the provider to MountStep of its old state. It writes neither storage nor anything else except locale and document language. |
| LanguageContext.LanguageProvider.SetLocale | src/lib/LanguageContext.tsx:27-31 | setLocale moves the provider to SetLocaleStep of its old state. Afterwards locale, stored preference and document language agree on the new locale. |
| LanguageContext.LanguageProvider.Value | src/lib/LanguageContext.tsx:33-36 | The value given to the views carries the current locale and the table entry for that locale. |
| LanguageContext.UseLanguage | src/lib/LanguageContext.tsx:42-46 | Inside a provider, useLanguage returns that provider's value. Outside one, it fails with the error "useLanguage must be used within LanguageProvider" and returns no value. |

## Left out

- Canvas drawing is not modelled: clearing the canvas, the radial gradients, the radius `60 * life`, the main glow, and the `life <= 0` skip, which only skips drawing. These are floating-point rendering calls.
- Animation-frame scheduling and teardown are not modelled: `requestAnimationFrame`, `cancelAnimationFrame`, listener registration and removal, and the resize handler. A frame is one call of `Trail.Animate`.
- The early return when there is no canvas or no 2D context is not modelled. In that case the handlers are simply never installed.
- Pointer coordinates are integers in the model. The browser reports them as JavaScript numbers.
- The model shares nothing between `Trail` objects, and the coordinates and ages are values. In the source, each sample is an object that the frame loop updates through its reference. The `points` array is private to the component, so no aliasing is lost.
- React re-rendering and the context mechanism are not modelled. `useLanguage` takes the nearest provider value as a parameter. The source's context value is `{ locale, setLocale, t }` (src/lib/LanguageContext.tsx:36); the model's `ContextValue` carries only `locale` and `t`, and `setLocale` is reached as the method `LanguageProvider.SetLocale`.
- Storage is an always-available map. The source has no guard around `localStorage`, so a `getItem` or `setItem` that throws propagates the exception. That path is not modelled.
- The contents of the translation table are static strings and are kept abstract as the type parameter of `I18n.Translations`.
- Visual effects other than the cursor trail are not part of this model (falling dots, the dotted surface, the shader background), and neither are layout, sections and the 3D avatar. They are floating-point rendering or declarative markup.
