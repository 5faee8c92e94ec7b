/**
 * The `HasTranslations` trait: an owner record whose translatable attributes are read and
 * written through a per-instance cache, `$translated`, backed by the record's translation rows.
 *
 * Eloquent's own `getAttribute` / `setAttribute` are modelled by two cast functions the record
 * carries: `castGet(a, raw)` is what the parent getter returns when `attributes[a]` holds `raw`,
 * and the parent setter stores `castSet(a, v)` at `attributes[a]`. The translator is modelled by
 * the `store` field (the record's rows), the `locale` and `defaultLocale` fields, and the
 * event dispatcher by the append-only `notFound` log.
 */
module HasTranslations {
  import opened Values
  import opened Translations

  class TranslatableModel {
    /** The record's native (storage-backed) attributes. */
    var attributes: map<Attr, Value>
    /** `$translated`: the loaded and staged translations, by locale then attribute. */
    var translated: Cache
    /** Eloquent's `$exists`: the record is persisted. */
    var recordExists: bool
    /** The record class uses `SoftDeletes`. */
    const usesSoftDeletes: bool
    /** `isForceDeleting()`. */
    var forceDeleting: bool
    /** The declared `$translatable` property; `None` when it is not declared. */
    const translatable: Option<seq<Attr>>
    /** `autoLoadTranslations($attribute)`. */
    const autoLoads: Attr -> bool
    /** The parent getter's accessors and casts. */
    const castGet: (Attr, Value) -> Value
    /** The parent setter's mutators and casts. */
    const castSet: (Attr, Value) -> Value
    /** The record's rows in the translation store. */
    var store: Store
    /** The translator's current locale. */
    var locale: Locale
    /** The application's default locale. */
    const defaultLocale: Locale
    /** The "translation not found" events dispatched so far. */
    var notFound: seq<NotFound>

    constructor (attributes: map<Attr, Value>, recordExists: bool, usesSoftDeletes: bool,
                 translatable: Option<seq<Attr>>, autoLoads: Attr -> bool,
                 castGet: (Attr, Value) -> Value, castSet: (Attr, Value) -> Value,
                 store: Store, locale: Locale, defaultLocale: Locale)
      ensures this.attributes == attributes && this.recordExists == recordExists
      ensures this.usesSoftDeletes == usesSoftDeletes && !forceDeleting
      ensures this.translatable == translatable && this.autoLoads == autoLoads
      ensures this.castGet == castGet && this.castSet == castSet
      ensures this.store == store && this.locale == locale && this.defaultLocale == defaultLocale
      ensures translated == map[] && notFound == []
    {
      this.attributes := attributes;
      this.translated := map[];
      this.recordExists := recordExists;
      this.usesSoftDeletes := usesSoftDeletes;
      this.forceDeleting := false;
      this.translatable := translatable;
      this.autoLoads := autoLoads;
      this.castGet := castGet;
      this.castSet := castSet;
      this.store := store;
      this.locale := locale;
      this.defaultLocale := defaultLocale;
      this.notFound := [];
    }

    // -------------------------------------------------------------------------
    // The guard

    /** `$this->translatable ?? []`. */
    function GetTranslatable(): (r: seq<Attr>)
      ensures translatable.Some? ==> r == translatable.value
      ensures translatable.None? ==> r == []
    {
      match translatable
      case Some(attrs) => attrs
      case None => []
    }

    /** Strict membership in the declared attributes; nothing is translatable when none are declared. */
    predicate IsTranslatable(a: Attr): (b: bool)
      ensures translatable.None? ==> !b
      ensures translatable.Some? ==> (b <==> a in translatable.value)
    {
      a in GetTranslatable()
    }

    /** The translator's `isDefaultLocale()`: the current locale is the application's default. */
    predicate IsDefaultLocale(): (b: bool)
      reads this
      ensures b <==> locale == defaultLocale
    {
      locale == defaultLocale
    }

    /**
     * The guard: false whenever the record is not persisted, the attribute is not declared, or
     * the current locale is the default one, and true otherwise.
     */
    predicate ShouldBeTranslated(a: Attr): (b: bool)
      reads this
      ensures b <==> recordExists && translatable.Some? && a in translatable.value && locale != defaultLocale
    {
      recordExists && IsTranslatable(a) && !IsDefaultLocale()
    }

    // -------------------------------------------------------------------------
    // The parent getter and setter, and the apply-then-restore wrappers around them

    /** `getDefaultAttribute($a)`, i.e. `parent::getAttribute($a)`. */
    function GetDefaultAttribute(a: Attr): (r: Value)
      reads this
      ensures a in attributes ==> r == castGet(a, attributes[a])
      ensures a !in attributes ==> r == castGet(a, Null)
    {
      castGet(a, RawOf(attributes, a))
    }

    /** `parent::setAttribute($a, $v)`. */
    method ParentSetAttribute(a: Attr, v: Value)
      modifies this`attributes
      ensures attributes == old(attributes)[a := castSet(a, v)]
    {
      attributes := attributes[a := castSet(a, v)];
    }

    /** `withGetAttribute`: the parent getter applied to `v`, the native value put back. */
    method WithGetAttribute(a: Attr, v: Value) returns (processed: Value)
      modifies this`attributes
      ensures processed == castGet(a, v)
      ensures attributes == Restore(old(attributes), a)
      ensures a in old(attributes) ==> attributes == old(attributes)
    {
      var original := RawOf(attributes, a);
      attributes := attributes[a := v];
      processed := GetDefaultAttribute(a);
      attributes := attributes[a := original];
    }

    /** `withSetAttribute`: the parent setter applied to `v`, the native value put back. */
    method WithSetAttribute(a: Attr, v: Value) returns (processed: Value)
      modifies this`attributes
      ensures processed == castSet(a, v)
      ensures attributes == Restore(old(attributes), a)
      ensures a in old(attributes) ==> attributes == old(attributes)
    {
      var original := RawOf(attributes, a);
      ParentSetAttribute(a, v);
      processed := attributes[a];
      attributes := attributes[a := original];
    }

    // -------------------------------------------------------------------------
    // The cache

    /** `isset($this->translated[$l][$a])`: the entry exists and is not null. */
    predicate HasLoadedTranslation(a: Attr, l: Locale): (b: bool)
      reads this
      ensures b <==> l in translated && a in translated[l] && translated[l][a] != Null
    {
      IsLoaded(translated, l, a)
    }

    method LoadTranslation(a: Attr, l: Locale)
      modifies this`translated
      ensures translated == Put(old(translated), l, a, Fetch(store, a, l))
    {
      translated := Put(translated, l, a, Fetch(store, a, l));
    }

    function GetLoadedTranslation(a: Attr, l: Locale): (r: Value)
      reads this
      ensures l in translated && a in translated[l] ==> r == translated[l][a]
      ensures !(l in translated && a in translated[l]) ==> r == Null
    {
      Cached(translated, l, a)
    }

    /**
     * The cached value when it is set and not null, otherwise the stored one, which is then
     * cached. The default locale is not special here.
     */
    method GetRawTranslation(a: Attr, given: Option<Locale>) returns (v: Value)
      modifies this`translated
      ensures var l := LocaleOr(given, locale);
        && v == Resolve(old(translated), store, l, a)
        && translated == Load(old(translated), store, l, a)
        && (old(HasLoadedTranslation(a, l)) ==> v == old(GetLoadedTranslation(a, l)) && translated == old(translated))
        && GetLoadedTranslation(a, l) == v
    {
      var l := LocaleOr(given, locale);
      if !HasLoadedTranslation(a, l) {
        LoadTranslation(a, l);
      }
      v := GetLoadedTranslation(a, l);
    }

    /** The translation through the getter's casts, or null and one "not found" event. */
    method GetTranslation(a: Attr, given: Option<Locale>) returns (v: Value)
      modifies this`translated, this`attributes, this`notFound
      ensures var l := LocaleOr(given, locale);
        var raw := Resolve(old(translated), store, l, a);
        && v == Shown(castGet, a, raw)
        && translated == Load(old(translated), store, l, a)
        && notFound == old(notFound) + (if raw == Null then [NotFound(a, l)] else [])
        && attributes == (if raw == Null then old(attributes) else Restore(old(attributes), a))
    {
      var l := LocaleOr(given, locale);
      var translation := GetRawTranslation(a, Some(l));
      if translation == Null {
        notFound := notFound + [NotFound(a, l)];
        return Null;
      }
      v := WithGetAttribute(a, translation);
    }

    /** Stages `castSet(a, v)` in the cache for the locale; nothing reaches the store. */
    method SetTranslation(a: Attr, v: Value, given: Option<Locale>)
      modifies this`translated, this`attributes
      ensures translated == Put(old(translated), LocaleOr(given, locale), a, castSet(a, v))
      ensures attributes == Restore(old(attributes), a)
    {
      var l := LocaleOr(given, locale);
      var processed := WithSetAttribute(a, v);
      translated := Put(translated, l, a, processed);
    }

    // -------------------------------------------------------------------------
    // Attribute access

    method GetAttribute(a: Attr) returns (v: Value)
      modifies this`translated, this`attributes, this`notFound
      ensures !ShouldBeTranslated(a) ==>
        && v == old(GetDefaultAttribute(a))
        && translated == old(translated) && attributes == old(attributes) && notFound == old(notFound)
      ensures ShouldBeTranslated(a) ==>
        var raw := Resolve(old(translated), store, locale, a);
        var shown := Shown(castGet, a, raw);
        && v == (if shown == Null then old(GetDefaultAttribute(a)) else shown)
        && translated == Load(old(translated), store, locale, a)
        && notFound == old(notFound) + (if raw == Null then [NotFound(a, locale)] else [])
        && attributes == (if raw == Null then old(attributes) else Restore(old(attributes), a))
    {
      if !ShouldBeTranslated(a) {
        return GetDefaultAttribute(a);
      }
      var translation := GetTranslation(a, None);
      if translation == Null {
        return GetDefaultAttribute(a);
      }
      v := translation;
    }

    method SetAttribute(a: Attr, v: Value) returns (self: TranslatableModel)
      modifies this`translated, this`attributes
      ensures self == this
      ensures ShouldBeTranslated(a) ==>
        translated == Put(old(translated), locale, a, castSet(a, v)) && attributes == Restore(old(attributes), a)
      ensures !ShouldBeTranslated(a) ==>
        translated == old(translated) && attributes == old(attributes)[a := castSet(a, v)]
    {
      if !ShouldBeTranslated(a) {
        ParentSetAttribute(a, v);
        return this;
      }
      SetTranslation(a, v, None);
      self := this;
    }

    // -------------------------------------------------------------------------
    // Writing to the store

    /** Upserts the row `(a, l)` with `castSet(a, v)`, bypassing the cache. */
    method Translate(a: Attr, v: Value, l: Locale) returns (t: Translation)
      modifies this`store, this`attributes
      ensures store == old(store)[Slot(a, l) := castSet(a, v)]
      ensures attributes == Restore(old(attributes), a)
      ensures t == Translation(a, l, castSet(a, v))
    {
      var processed := WithSetAttribute(a, v);
      store := store[Slot(a, l) := processed];
      t := Translation(a, l, processed);
    }

    /** `translate` once per entry, in order; one result per entry. */
    method TranslateMany(entries: seq<(Attr, Value)>, l: Locale) returns (ts: seq<Translation>)
      modifies this`store, this`attributes
      ensures ts == Rows(entries, l, castSet)
      ensures store == Applied(old(store), entries, l, castSet)
      ensures attributes == RestoreAll(old(attributes), AttributesOf(entries))
    {
      ghost var rows0, attributes0, cast := store, attributes, castSet;
      ts := [];
      var i := 0;
      while i < |entries|
        invariant 0 <= i <= |entries|
        invariant ts == Rows(entries[..i], l, cast)
        invariant store == Applied(rows0, entries[..i], l, cast)
        invariant attributes == RestoreAll(attributes0, AttributesOf(entries[..i]))
      {
        var t := Translate(entries[i].0, entries[i].1, l);
        ts := ts + [t];
        TranslateManyStep(rows0, entries, i, l, cast, attributes0);
        i := i + 1;
      }
      assert entries[..i] == entries;
    }

    /**
     * The saving hook: `translateMany(array_filter(...))` for each cached locale. Every cached
     * value that is not falsy is written, loaded ones included; the cache is kept.
     */
    method SaveTranslations()
      modifies this`store, this`attributes
      ensures store == Flushed(old(store), translated, castSet)
      ensures attributes == RestoreAll(old(attributes), FlushedAttributes(translated))
    {
      ghost var rows0, attributes0, cache, cast := store, attributes, translated, castSet;
      var done: set<Locale> := {};
      var todo := translated.Keys;
      FlushedNothing(rows0, cache, cast);
      while todo != {}
        invariant todo <= cache.Keys && done == cache.Keys - todo
        invariant store == Flushed(rows0, Restrict(cache, done), cast)
        invariant attributes == RestoreAll(attributes0, FlushedAttributes(Restrict(cache, done)))
        decreases todo
      {
        var l :| l in todo;
        var entries := Entries(ArrayFilter(translated[l]));
        SaveStep(rows0, attributes0, cache, done, l, entries, cast);
        var _ := TranslateMany(entries, l);
        VisitOne(cache.Keys, done, todo, l);
        done := done + {l};
        todo := todo - {l};
      }
      assert Restrict(cache, done) == cache;
    }

    method HandleSavingEvent()
      modifies this`store, this`attributes
      ensures store == Flushed(old(store), translated, castSet)
      ensures attributes == RestoreAll(old(attributes), FlushedAttributes(translated))
    {
      SaveTranslations();
    }

    // -------------------------------------------------------------------------
    // Deletion

    /** Translations go with the record unless it is only soft-deleted. */
    predicate ShouldDeleteTranslations(): (b: bool)
      reads this
      ensures b <==> !usesSoftDeletes || forceDeleting
    {
      if !usesSoftDeletes then true
      else if forceDeleting then true
      else false
    }

    method DeleteTranslations()
      modifies this`store
      ensures store == map[]
    {
      store := map[];
    }

    method HandleDeletedEvent()
      modifies this`store
      ensures store == if !usesSoftDeletes || forceDeleting then map[] else old(store)
    {
      if ShouldDeleteTranslations() {
        DeleteTranslations();
      }
    }

    // -------------------------------------------------------------------------
    // The serialised view

    /** `getTranslation(a, l)` for each declared attribute, in declaration order. */
    method GetTranslations(given: Option<Locale>) returns (m: map<Attr, Value>)
      modifies this`translated, this`attributes, this`notFound
      ensures var l := LocaleOr(given, locale);
        && m == View(old(translated), store, l, GetTranslatable(), castGet)
        && translated == Warm(old(translated), store, l, GetTranslatable())
        && notFound == old(notFound) + Missing(old(translated), store, l, GetTranslatable())
        && attributes == RestoreAll(old(attributes), Found(old(translated), store, l, GetTranslatable()))
    {
      var l := LocaleOr(given, locale);
      var attrs := GetTranslatable();
      ghost var cache0, attributes0, events0, rows, cast := translated, attributes, notFound, store, castGet;
      m := map[];
      var i := 0;
      while i < |attrs|
        invariant 0 <= i <= |attrs|
        invariant m == View(cache0, rows, l, attrs[..i], cast)
        invariant translated == Warm(cache0, rows, l, attrs[..i])
        invariant notFound == events0 + Missing(cache0, rows, l, attrs[..i])
        invariant attributes == RestoreAll(attributes0, Found(cache0, rows, l, attrs[..i]))
      {
        ghost var cur, curAttributes, curEvents := translated, attributes, notFound;
        assert LocaleOr(Some(l), locale) == l;
        var t := GetTranslation(attrs[i], Some(l));
        GetTranslationsStep(cache0, rows, l, attrs, i, cast, attributes0, events0,
                            m, cur, curAttributes, curEvents, t, translated, attributes, notFound);
        m := m[attrs[i] := t];
        i := i + 1;
      }
      // The invariants speak of the prefix `attrs[..i]`; at exit that prefix is the whole list.
      assert attrs[..i] == attrs;
    }

    /** `array_merge(parent::toArray(), array_filter($this->getTranslations()))`. */
    method ToArray() returns (r: map<Attr, Value>)
      modifies this`translated, this`attributes, this`notFound
      ensures r == ToArrayOf(Serialized(old(attributes), castGet), View(old(translated), store, locale, GetTranslatable(), castGet))
      ensures translated == Warm(old(translated), store, locale, GetTranslatable())
      ensures notFound == old(notFound) + Missing(old(translated), store, locale, GetTranslatable())
      ensures attributes == RestoreAll(old(attributes), Found(old(translated), store, locale, GetTranslatable()))
    {
      var native := Serialized(attributes, castGet);
      var translations := GetTranslations(None);
      r := ArrayMerge(native, ArrayFilter(translations));
    }
  }

  /** `parent::toArray()`: each native attribute through the getter's casts. */
  function Serialized(attributes: map<Attr, Value>, castGet: (Attr, Value) -> Value): (r: map<Attr, Value>)
    ensures r.Keys == attributes.Keys
    ensures forall k :: k in r ==> r[k] == castGet(k, attributes[k])
  {
    map k | k in attributes :: castGet(k, attributes[k])
  }

  /**
   * A "title" record whose default locale is "en", read in "fr" before and after a French
   * translation is written. The first `getTranslation` caches null, which `isset` does not
   * count as loaded, so the read after `translate` goes back to the store and finds "Bonjour";
   * the native value is untouched and is what the default locale shows.
   */
  method TitleScenario() returns (missing: Value, fallback: Value, found: Value, native: Value, events: seq<NotFound>)
    ensures missing == Null && fallback == Str("Hello")
    ensures found == Str("Bonjour") && native == Str("Hello")
    ensures events == [NotFound("title", "fr"), NotFound("title", "fr")]
  {
    var identity := (a: Attr, v: Value) => v;
    var post := new TranslatableModel(map["title" := Str("Hello")], true, false, Some(["title"]),
                                      a => false, identity, identity, map[], "fr", "en");
    assert LocaleOr(Some("fr"), post.locale) == "fr";
    missing := post.GetTranslation("title", Some("fr"));
    assert post.translated == map["fr" := map["title" := Null]];
    assert post.attributes == map["title" := Str("Hello")];
    assert post.notFound == [NotFound("title", "fr")];
    assert post.ShouldBeTranslated("title") by {
      assert post.GetTranslatable() == ["title"];
    }
    ghost var cache := post.translated;
    assert Load(cache, post.store, "fr", "title") == cache by {
      assert !IsLoaded(cache, "fr", "title") && Fetch(post.store, "title", "fr") == Null;
      assert cache["fr"]["title" := Null] == cache["fr"];
    }
    fallback := post.GetAttribute("title");
    assert fallback == Str("Hello");
    assert post.notFound == [NotFound("title", "fr"), NotFound("title", "fr")];
    assert post.translated == cache;
    var _ := post.Translate("title", Str("Bonjour"), "fr");
    assert post.store == map[Slot("title", "fr") := Str("Bonjour")];
    assert Resolve(post.translated, post.store, "fr", "title") == Str("Bonjour");
    events := post.notFound;
    found := post.GetTranslation("title", Some("fr"));
    assert found == Str("Bonjour");
    post.locale := "en";
    assert !post.ShouldBeTranslated("title");
    native := post.GetAttribute("title");
  }
}
