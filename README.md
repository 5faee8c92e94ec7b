# laravel-translatable: the translation resolution engine, in Dafny

This project models the core of the `HasTranslations` trait. The trait is mixed into an Eloquent
record to give some of its attributes per-locale values that live in a separate translation
store. The project also models `TranslationsEagerLoadScope`, the global query scope that decides
whether to eager-load those translations. The model covers:

- **The guard.** An attribute is read and written through translations only when three things
  hold: the record exists, the attribute is in the declared `$translatable` list (strict
  membership, an empty list when the list is not declared), and the current locale is not the
  default one. Otherwise `getAttribute` and `setAttribute` fall through to Eloquent.
- **The per-instance cache `$translated`** (locale, then attribute, to value). It is filled
  lazily by `getRawTranslation`. It is tested with `isset`, so a cached null counts as "not
  loaded" and is fetched again. `setTranslation` stages values in it.
- **Immediate writes.** `translate` and `translateMany` upsert rows in the store directly.
- **The saving hook.** `saveTranslations` walks the whole cache, loaded entries included. It
  drops falsy values with `array_filter` and writes the rest through `translateMany`. It never
  clears the cache.
- **The deletion policy.** The record's rows are deleted unless the record uses soft deletes
  and the delete is not a force delete.
- **The serialised view.** `getTranslations` returns one entry per declared attribute.
  `toArray` merges the non-falsy translations over Eloquent's own array.
- **The eager-load scope.** Outside the default locale, if some declared attribute auto-loads,
  the scope adds one eager load of `translations` restricted to the current locale.

How the record's collaborators are represented:

- **Eloquent's getter and setter** are the two cast functions the record carries.
  - `castGet(a, raw)` is what `parent::getAttribute` returns when `attributes[a]` holds `raw`.
  - `parent::setAttribute(a, v)` stores `castSet(a, v)` at `attributes[a]`.
- **The translator** (`ModelTranslator`) is three fields:
  - `store`, the record's own rows, keyed by (attribute, locale);
  - `locale`, the current locale;
  - `defaultLocale`.
- **The event dispatcher** is the append-only `notFound` log.
- **`autoLoadTranslations($attribute)`**, defined outside the trait and the scope, is the
  record's constant function `autoLoads`, fixed for the record's lifetime.
- **PHP values** are null, booleans, integers and strings. PHP's loose falsiness decides
  `array_filter` and `?:`.

Files:

- `values.dfy`: PHP values, falsiness, `array_filter`, `array_merge` and the enumeration of
  an array by `foreach`.
- `translations.dfy`: the cache and the store as values, the functions that say what each step
  does to them, and the lemmas relating the steps.
- `has_translations.dfy`: the record as a class whose methods update its fields in place.
- `eager_load_scope.dfy`: the query builder's eager loads, keyed by relation, and the scope.

Behaviour of the code that a reader might not expect, modelled as written:

- There is no separate pending-write buffer. The save hook flushes every non-falsy cache entry,
  including values that were only loaded, and keeps the cache.
- `translate` writes the store but not the cache. A slot whose read cached a non-null value
  keeps it after `translate`: `getAttribute` goes on returning it. If that value is not falsy,
  the next save writes it back over the row `translate` wrote
  (`Translations.StaleCacheOverwritesTranslate`). A read that found no translation caches null,
  which `isset` ignores, so the next read sees the new row; a cached null or other falsy value
  is not written back (`Translations.TranslateAfterFalsyRead`).
- A write equal to the cached value is not suppressed.
- `getRawTranslation` does not short-circuit for the default locale. Within the trait, only the
  guard of `getAttribute`/`setAttribute` looks at the default locale.
- `getAttribute` consults no auto-load setting. Auto-loading only matters to the eager-load scope.
- No "not translatable" error is raised by `getTranslation`, `translate` or `setTranslation`.
  They accept any attribute.
- A value staged through the guarded `setAttribute` is cast by `castSet` when staged and again
  when `saveTranslations` passes it through `translate`. The row therefore holds
  `castSet(a, castSet(a, v))`; `Translations.StagedThenSaved` states this.

## Model

| member | source | states |
|---|---|---|
| HasTranslations.TranslatableModel.constructor | src/HasTranslations.php:27 | a new record starts with an empty `$translated` cache and no events |
| HasTranslations.TranslatableModel.GetTranslatable | src/HasTranslations.php:198-201 | the declared list when there is one, the empty list when `$translatable` is not declared |
| HasTranslations.TranslatableModel.IsTranslatable | src/HasTranslations.php:190-193 | exact membership of the attribute in the declared list; false for every attribute when none is declared |
| HasTranslations.TranslatableModel.IsDefaultLocale | src/HasTranslations.php:184 | the translator's current locale equals the default locale |
| HasTranslations.TranslatableModel.ShouldBeTranslated | src/HasTranslations.php:180-185 | true exactly when the record exists, the attribute is declared, and the current locale is not the default; false if any of the three fails |
| HasTranslations.TranslatableModel.GetDefaultAttribute | src/HasTranslations.php:134-137 | Eloquent's getter applied to the native value, or to null when the attribute is missing |
| HasTranslations.TranslatableModel.HasLoadedTranslation | src/HasTranslations.php:142-145 | `isset`: the cache entry `(l, a)` exists and is not null, so a cached null is not loaded |
| HasTranslations.TranslatableModel.GetLoadedTranslation | src/HasTranslations.php:160-163 | the cache entry `(l, a)` when present, null otherwise |
| HasTranslations.TranslatableModel.ShouldDeleteTranslations | src/HasTranslations.php:234-245 | true exactly when the record does not use soft deletes or is force-deleting |
| Translations.LocaleOr | src/HasTranslations.php:84 | `$locale ?: getLocale()`: an omitted locale, `""` or `"0"` gives the current locale; any other given locale is kept |
| Translations.Fetch | src/HasTranslations.php:152 | the translator's `get`: the stored row's value, or null when the record has no row for `(a, l)` |
| HasTranslations.TranslatableModel.ParentSetAttribute | src/HasTranslations.php:294 | Eloquent's setter stores `castSet(a, v)` at `a` and changes no other native attribute |
| HasTranslations.TranslatableModel.WithGetAttribute | src/HasTranslations.php:308-319 | returns the getter's view `castGet(a, v)` of the given value; the native attributes come back unchanged when `a` was present, and gain a null `a` otherwise |
| HasTranslations.TranslatableModel.WithSetAttribute | src/HasTranslations.php:327-338 | returns the setter's result `castSet(a, v)`; the native attributes come back as they were (a null `a` added when it was absent) |
| HasTranslations.TranslatableModel.LoadTranslation | src/HasTranslations.php:150-153 | caches the stored value of `(a, l)`, null when there is no row, and leaves every other cache entry alone |
| HasTranslations.TranslatableModel.GetRawTranslation | src/HasTranslations.php:102-111 | a set, non-null cache entry is returned with no change to the cache; otherwise the stored value is returned and cached; either way the cache then holds the returned value; an empty locale means the current one |
| HasTranslations.TranslatableModel.GetTranslation | src/HasTranslations.php:82-95 | a null raw translation gives null and exactly one not-found event `(a, l)`; otherwise the getter's view of it and no event |
| HasTranslations.TranslatableModel.SetTranslation | src/HasTranslations.php:170-175 | stages `castSet(a, v)` in the cache at `(a, l)`, changes no other entry and writes nothing to the store |
| HasTranslations.TranslatableModel.GetAttribute | src/HasTranslations.php:269-282 | when the guard is false: the native cast value, with cache, attributes, events and store unchanged; otherwise the translation, or the native value when it is null, with the cache loaded and one event exactly when the translation is missing |
| HasTranslations.TranslatableModel.SetAttribute | src/HasTranslations.php:291-300 | returns the record; when the guard holds, stages `castSet(a, v)` for the current locale and keeps the native value; when it does not, writes the native attribute and keeps the cache |
| HasTranslations.TranslatableModel.Translate | src/HasTranslations.php:58-61 | upserts exactly the row `(a, l)` with `castSet(a, v)`, keeps the native attributes (a null `a` added when it was absent), leaves the cache untouched, and returns that row |
| HasTranslations.TranslatableModel.TranslateMany | src/HasTranslations.php:66-75 | returns `Translations.Rows` of the entries, i.e. one result per entry, in order, each the row written for that entry; the store is the in-order application of every entry (`Translations.Applied`) |
| HasTranslations.TranslatableModel.SaveTranslations | src/HasTranslations.php:214-219 | the store becomes `Translations.Flushed` of the cache: every cached non-falsy entry written through `castSet`, every other row kept; the cache is not changed |
| HasTranslations.TranslatableModel.HandleSavingEvent | src/HasTranslations.php:206-209 | the saving hook has exactly the effect of `saveTranslations` |
| HasTranslations.TranslatableModel.DeleteTranslations | src/HasTranslations.php:258-261 | removes all of the record's rows |
| HasTranslations.TranslatableModel.HandleDeletedEvent | src/HasTranslations.php:224-245 | rows are deleted if and only if the record does not use soft deletes or is force-deleting; otherwise the store is untouched |
| HasTranslations.TranslatableModel.GetTranslations | src/HasTranslations.php:116-127 | returns `Translations.View` of the declared attributes, caches each of them (`Translations.Warm`), and logs one event per entry of the declared list that has no translation (`Translations.Missing`) |
| HasTranslations.TranslatableModel.ToArray | src/HasTranslations.php:343-346 | the native serialised array merged with the non-falsy translations of the current locale, with the same cache and event effects as `getTranslations` |
| HasTranslations.Serialized | src/HasTranslations.php:345 | Eloquent's `toArray` has the same keys as the native attributes, each value through the getter |
| HasTranslations.TitleScenario | src/HasTranslations.php:82-95 | a "title" record read in "fr" gives null then falls back to "Hello", two not-found events are logged, and after `translate` the same read gives "Bonjour" (the cached null is fetched again); in "en" the native "Hello" is shown |
| Translations.Put | src/HasTranslations.php:174 | `$translated[l][a] = v` sets that entry and leaves every other entry, present or absent, as it was |
| Translations.Load | src/HasTranslations.php:106-110 | a loaded entry leaves the cache unchanged; afterwards the entry holds the resolved value |
| Translations.LoadKeeps | src/HasTranslations.php:150-153 | loading loses no cache entry and changes the resolution of no slot: the cache only memoises the store |
| Translations.StagedIsServed | src/HasTranslations.php:142-145 | after staging a non-null value it is what the next read returns, with no store read; a staged null is not loaded, so the next read returns the store's value |
| Translations.WarmResolves | src/HasTranslations.php:122-124 | reading all declared attributes changes the resolution of no slot, loses no entry, and leaves each declared attribute cached with its resolved value |
| Translations.ViewIsTranslations | src/HasTranslations.php:116-127 | the map returned by `getTranslations` has exactly the declared attributes as keys, each mapped to its cast translation or to null |
| Translations.MissingIsUntranslated | src/HasTranslations.php:88-91 | `getTranslations` logs at most one event per entry of the declared list, only for untranslated declared attributes of that locale, and one for every such attribute |
| Translations.FoundIsTranslated | src/HasTranslations.php:94 | `getTranslations` passes exactly the declared attributes that have a translation through `withGetAttribute` |
| Translations.WarmMirrors | src/HasTranslations.php:150-153 | loading keeps every non-falsy cache entry equal to the store's row |
| Translations.ToArrayOf | src/HasTranslations.php:345 | the merge has every native key plus every non-falsy translated key; a non-falsy translation overrides; every other native value is kept |
| Translations.Rows | src/HasTranslations.php:68-74 | the collection `translateMany` returns has one row per entry, in order, each the entry's attribute and locale with `castSet` of its value |
| Translations.Applied | src/HasTranslations.php:70-72 | writing entries for locale `l` leaves the rows of every other locale as they were and creates a row for each entry |
| Translations.AppliedEnumeration | src/HasTranslations.php:216-218 | writing an array's entries one by one, in any order, gives the same store as writing the array at once |
| Translations.Flushed | src/HasTranslations.php:214-219 | a save writes exactly the slots whose cached value is set and not falsy, each as `castSet` of that value; every other slot keeps its row or absence |
| Translations.SaveTwiceIsSaveOnce | src/HasTranslations.php:214-219 | since the cache is kept, saving twice writes what saving once wrote |
| Translations.ReadOnlySaveKeepsStore | src/HasTranslations.php:214-219 | a save after reads alone leaves the store unchanged whenever `castSet` fixes the stored values |
| Translations.StaleCacheOverwritesTranslate | src/HasTranslations.php:58-61 | with a non-falsy value cached at `(a, l)`, a row written by `translate` is overwritten on save by `castSet` of the cached value |
| Translations.TranslateAfterFalsyRead | src/HasTranslations.php:58-61 | with null or nothing cached at `(a, l)`, the next read returns the row `translate` wrote; with any falsy value cached, the next save keeps that row |
| Translations.StagedThenSaved | src/HasTranslations.php:216-217 | a value staged via `setAttribute` is saved as `castSet(a, castSet(a, v))`, or not at all when the staged value is falsy |
| Values.ArrayFilter | src/HasTranslations.php:217 | `array_filter` keeps exactly the non-falsy entries, with their values |
| Values.ArrayMerge | src/HasTranslations.php:345 | `array_merge` on string keys has the keys of both arrays, and the second array wins |
| Values.Entries | src/HasTranslations.php:216 | `foreach` visits each key of the array once, with its value |
| Scopes.Builder.With | src/Scopes/TranslationsEagerLoadScope.php:28-30 | `with` records the relation with its locale, replacing an earlier eager load of the same relation and keeping every other one |
| Scopes.ShouldLoadTranslations | src/Scopes/TranslationsEagerLoadScope.php:38-47 | true if and only if some declared attribute auto-loads; false when none is declared |
| Scopes.AutoLoadsOrderFree | src/Scopes/TranslationsEagerLoadScope.php:40-44 | the decision depends on the declared attributes as a multiset, not on their order |
| Scopes.Apply | src/Scopes/TranslationsEagerLoadScope.php:18-31 | in the default locale, or when no attribute auto-loads, the query is unchanged; otherwise `translations` is eager-loaded for the current locale only, replacing any earlier eager load of it, and the other eager loads are kept |

## Left out

- Eloquent's getter and setter are modelled as pure functions of `(a, v)` that read and write
  only the attribute `a`. Accessors that read other attributes, mutators that write other keys,
  and `$hidden`, `$appends` and relations in `toArray` are not modelled. `parent::toArray()` is
  taken to serialise each attribute as the getter returns it, which holds for the scalar values
  modelled; date and object casts, which Eloquent serialises differently, are not modelled.
- Reading a missing native attribute is taken as null, as plain PHP does. Under Laravel's error
  handler the warning would become an exception instead.
- `ModelTranslator` is not part of this model. Its `get`, `set`, `getLocale` and
  `isDefaultLocale` are the `store`, `locale` and `defaultLocale` fields. Its use of eager-loaded
  `translations` and its queries are not modelled.
- Rows of other records in the translation store are not modelled. `store` holds only this
  record's rows, so `deleteTranslations` empties it.
- The event dispatcher is reduced to the `notFound` log. Listeners are not modelled.
- `translations()` (the `morphMany` relation) is not modelled, nor is the `forLocale` query it
  is constrained by. The locale recorded by the eager load is the one current when `apply`
  runs; the closure reads it again when the query executes.
- `isUsingSoftDeletes` reflects on `class_uses`. It is the constant flag `usesSoftDeletes`.
- `bootHasTranslations` only registers the scope and the two hooks. The hooks are methods
  called explicitly.
- `TranslationScopes` and `TranslatableUrlRouting` are not part of this model.
- Scopes.Builder.With: the eager loads are a map from relation name to locale. The order of
  Eloquent's keyed array, the parsing of nested relation names and the constraint closure itself
  are not modelled; the closure is represented by the locale it restricts to.
- Translation values are limited to null, booleans, integers and strings. Floats and arrays
  are not modelled.
- `array_merge` is modelled on string keys only. Its renumbering of integer keys does not apply
  to attribute names.
- PHP arrays are ordered, but the model's maps are not. `translateMany` walks its input
  sequence in order. The arbitrary order comes only from `saveTranslations`: it picks the next
  locale from the not-yet-visited set, and `Values.Entries` lists each locale's filtered array
  in some order. The resulting store does not depend on either choice
  (`Translations.AppliedEnumeration`).
- `getTranslations` iterates `$this->translatable` directly. When that list is not declared,
  PHP warns, and the model iterates the empty list instead.
- Concurrent use of one record is not modelled.
