/**
 * The translation cache of one record (`$translated`) and that record's rows in the
 * translation store, as values, with the functions that say what each step of the
 * resolution engine does to them and the lemmas that relate the steps.
 */
module Translations {
  import opened Values

  type Attr = string
  type Locale = string

  /** The key of one translation row of the record: its attribute and locale. */
  datatype Slot = Slot(attribute: Attr, locale: Locale)

  /** The record's translation rows; one row per slot, so an upsert is a map update. */
  type Store = map<Slot, Value>

  /** `$translated`: locale, then attribute, to the loaded or staged value. */
  type Cache = map<Locale, map<Attr, Value>>

  /** The payload of a "translation not found" event. */
  datatype NotFound = NotFound(attribute: Attr, locale: Locale)

  /** A translation row as returned by the translator after a write. */
  datatype Translation = Translation(attribute: Attr, locale: Locale, value: Value)

  /** `$locale ?: getLocale()`: an omitted or falsy locale stands for the current one. */
  function LocaleOr(given: Option<Locale>, current: Locale): (r: Locale)
    ensures given.None? ==> r == current
    ensures given == Some("") || given == Some("0") ==> r == current
    ensures given.Some? && given.value != "" && given.value != "0" ==> r == given.value
  {
    if given.Some? && !Falsy(Str(given.value)) then given.value else current
  }

  // ---------------------------------------------------------------------------
  // The native attributes and the apply-then-restore step

  /** `$this->attributes[$a]`, reading a missing key as null. */
  function RawOf(attributes: map<Attr, Value>, a: Attr): Value {
    if a in attributes then attributes[a] else Null
  }

  /** The native map after an apply-then-restore on `a`: `a` gets back what was read before. */
  function Restore(attributes: map<Attr, Value>, a: Attr): (r: map<Attr, Value>)
    ensures a in attributes ==> r == attributes
    ensures r.Keys == attributes.Keys + {a} && r[a] == RawOf(attributes, a)
    ensures forall k :: k in attributes ==> r[k] == attributes[k]
  {
    attributes[a := RawOf(attributes, a)]
  }

  /** The native map after apply-then-restore steps on every attribute of `keys`. */
  function RestoreAll(attributes: map<Attr, Value>, keys: set<Attr>): (r: map<Attr, Value>)
    ensures r.Keys == attributes.Keys + keys
    ensures forall k :: k in attributes ==> r[k] == attributes[k]
    ensures forall k :: k in r && k !in attributes ==> r[k] == Null
  {
    map k | k in attributes.Keys + keys :: RawOf(attributes, k)
  }

  lemma RestoreAllStep(attributes: map<Attr, Value>, keys: set<Attr>, a: Attr)
    ensures Restore(RestoreAll(attributes, keys), a) == RestoreAll(attributes, keys + {a})
  {
  }

  lemma RestoreAllTwice(attributes: map<Attr, Value>, keys: set<Attr>, more: set<Attr>)
    ensures RestoreAll(RestoreAll(attributes, keys), more) == RestoreAll(attributes, keys + more)
  {
  }

  // ---------------------------------------------------------------------------
  // Reading: the store, the cache, and what `getRawTranslation` resolves to

  /** The translator's `get`: the stored value, null when there is no row. */
  function Fetch(store: Store, a: Attr, l: Locale): (r: Value)
    ensures Slot(a, l) in store ==> r == store[Slot(a, l)]
    ensures Slot(a, l) !in store ==> r == Null
  {
    if Slot(a, l) in store then store[Slot(a, l)] else Null
  }

  /** `translated[l][a]` exists (it may hold null). */
  predicate Present(cache: Cache, l: Locale, a: Attr) {
    l in cache && a in cache[l]
  }

  /** `translated[l][a]`, reading a missing entry as null. */
  function Cached(cache: Cache, l: Locale, a: Attr): Value {
    if Present(cache, l, a) then cache[l][a] else Null
  }

  /** `isset($translated[l][a])`: present and not null. */
  predicate IsLoaded(cache: Cache, l: Locale, a: Attr) {
    Cached(cache, l, a) != Null
  }

  /** `$translated[l][a] = v`, creating the locale's inner array when needed. */
  function Put(cache: Cache, l: Locale, a: Attr, v: Value): (r: Cache)
    ensures Present(r, l, a) && Cached(r, l, a) == v
    ensures forall l', a' :: Slot(a', l') != Slot(a, l) ==>
      (Present(r, l', a') <==> Present(cache, l', a')) && Cached(r, l', a') == Cached(cache, l', a')
  {
    cache[l := (if l in cache then cache[l] else map[])[a := v]]
  }

  /** What `getRawTranslation(a, l)` returns: the cached value if set, else the stored one. */
  function Resolve(cache: Cache, store: Store, l: Locale, a: Attr): Value {
    if IsLoaded(cache, l, a) then Cached(cache, l, a) else Fetch(store, a, l)
  }

  /** What `getRawTranslation(a, l)` leaves in the cache. */
  function Load(cache: Cache, store: Store, l: Locale, a: Attr): (r: Cache)
    ensures IsLoaded(cache, l, a) ==> r == cache
    ensures Present(r, l, a) && Cached(r, l, a) == Resolve(cache, store, l, a)
  {
    if IsLoaded(cache, l, a) then cache else Put(cache, l, a, Fetch(store, a, l))
  }

  /** Loading only memoises: no entry is lost and no slot resolves differently. */
  lemma LoadKeeps(cache: Cache, store: Store, l: Locale, a: Attr)
    ensures forall l', a' :: Present(cache, l', a') ==> Present(Load(cache, store, l, a), l', a')
    ensures forall l', a' :: Resolve(Load(cache, store, l, a), store, l', a') == Resolve(cache, store, l', a')
  {
  }

  /** `withGetAttribute` applied to a raw translation; null stays null. */
  function Shown(castGet: (Attr, Value) -> Value, a: Attr, raw: Value): Value {
    if raw == Null then Null else castGet(a, raw)
  }

  // ---------------------------------------------------------------------------
  // `getTranslations(l)`: one `getTranslation` per declared attribute, in order

  /** The cache after `getTranslation(a, l)` for every `a` of `attrs`, in order. */
  function Warm(cache: Cache, store: Store, l: Locale, attrs: seq<Attr>): Cache
    decreases |attrs|
  {
    if attrs == [] then cache
    else
      var n := |attrs| - 1;
      Load(Warm(cache, store, l, attrs[..n]), store, l, attrs[n])
  }

  /**
   * Reading every declared attribute changes no resolution: the cache only memoises the
   * store, and afterwards holds every declared attribute's resolved value, null included.
   */
  lemma {:induction false} WarmResolves(cache: Cache, store: Store, l: Locale, attrs: seq<Attr>)
    ensures var r := Warm(cache, store, l, attrs);
      && (forall l', a' :: Resolve(r, store, l', a') == Resolve(cache, store, l', a'))
      && (forall l', a' :: Present(cache, l', a') ==> Present(r, l', a'))
      && (forall a :: a in attrs ==> Present(r, l, a) && Cached(r, l, a) == Resolve(cache, store, l, a))
    decreases |attrs|
  {
    if attrs != [] {
      var n := |attrs| - 1;
      WarmResolves(cache, store, l, attrs[..n]);
      forall a | a in attrs && a != attrs[n] ensures a in attrs[..n] {
        var i :| 0 <= i < |attrs| && attrs[i] == a;
        assert attrs[..n][i] == a;
      }
    }
  }

  /** The map `getTranslations(l)` returns. */
  function View(cache: Cache, store: Store, l: Locale, attrs: seq<Attr>, castGet: (Attr, Value) -> Value)
    : map<Attr, Value>
    decreases |attrs|
  {
    if attrs == [] then map[]
    else
      var n := |attrs| - 1;
      View(cache, store, l, attrs[..n], castGet)[attrs[n] := Shown(castGet, attrs[n], Resolve(cache, store, l, attrs[n]))]
  }

  /**
   * `getTranslations(l)` has exactly the declared attributes as keys, each mapped to its
   * translation through the getter's casts, or to null when there is none.
   */
  lemma {:induction false} ViewIsTranslations(cache: Cache, store: Store, l: Locale, attrs: seq<Attr>, castGet: (Attr, Value) -> Value)
    ensures var r := View(cache, store, l, attrs, castGet);
      && r.Keys == (set a | a in attrs)
      && (forall a :: a in r ==> r[a] == Shown(castGet, a, Resolve(cache, store, l, a)))
    decreases |attrs|
  {
    if attrs != [] {
      var n := |attrs| - 1;
      ViewIsTranslations(cache, store, l, attrs[..n], castGet);
      assert attrs == attrs[..n] + [attrs[n]];
    }
  }

  /** The "translation not found" events `getTranslations(l)` emits, in order. */
  function Missing(cache: Cache, store: Store, l: Locale, attrs: seq<Attr>): seq<NotFound>
    decreases |attrs|
  {
    if attrs == [] then []
    else
      var n := |attrs| - 1;
      Missing(cache, store, l, attrs[..n]) + (if Resolve(cache, store, l, attrs[n]) == Null then [NotFound(attrs[n], l)] else [])
  }

  /**
   * `getTranslations(l)` emits at most one event per declared attribute, and an event for
   * `(a, l)` exactly when `a` is declared and has no translation in `l`.
   */
  lemma {:induction false} MissingIsUntranslated(cache: Cache, store: Store, l: Locale, attrs: seq<Attr>)
    ensures var r := Missing(cache, store, l, attrs);
      && |r| <= |attrs|
      && (forall e :: e in r ==> e.locale == l && e.attribute in attrs && Resolve(cache, store, l, e.attribute) == Null)
      && (forall a :: a in attrs && Resolve(cache, store, l, a) == Null ==> NotFound(a, l) in r)
    decreases |attrs|
  {
    if attrs != [] {
      var n := |attrs| - 1;
      MissingIsUntranslated(cache, store, l, attrs[..n]);
      assert attrs == attrs[..n] + [attrs[n]];
    }
  }

  /** The attributes whose translation is found, hence passed through `withGetAttribute`. */
  function Found(cache: Cache, store: Store, l: Locale, attrs: seq<Attr>): set<Attr>
    decreases |attrs|
  {
    if attrs == [] then {}
    else
      var n := |attrs| - 1;
      Found(cache, store, l, attrs[..n]) + (if Resolve(cache, store, l, attrs[n]) != Null then {attrs[n]} else {})
  }

  /** `getTranslations(l)` casts exactly the declared attributes that have a translation in `l`. */
  lemma {:induction false} FoundIsTranslated(cache: Cache, store: Store, l: Locale, attrs: seq<Attr>)
    ensures forall a :: a in Found(cache, store, l, attrs) <==> a in attrs && Resolve(cache, store, l, a) != Null
    decreases |attrs|
  {
    if attrs != [] {
      var n := |attrs| - 1;
      FoundIsTranslated(cache, store, l, attrs[..n]);
      assert attrs == attrs[..n] + [attrs[n]];
    }
  }

  // One more `getTranslation` in the `getTranslations` loop, for each of its effects.

  lemma ViewStep(cache: Cache, store: Store, l: Locale, attrs: seq<Attr>, i: nat, castGet: (Attr, Value) -> Value)
    requires i < |attrs|
    ensures View(cache, store, l, attrs[..i + 1], castGet)
         == View(cache, store, l, attrs[..i], castGet)[attrs[i] := Shown(castGet, attrs[i], Resolve(cache, store, l, attrs[i]))]
  {
    assert attrs[..i + 1][..i] == attrs[..i];
  }

  lemma WarmStep(cache: Cache, store: Store, l: Locale, attrs: seq<Attr>, i: nat)
    requires i < |attrs|
    ensures Resolve(Warm(cache, store, l, attrs[..i]), store, l, attrs[i]) == Resolve(cache, store, l, attrs[i])
    ensures Warm(cache, store, l, attrs[..i + 1]) == Load(Warm(cache, store, l, attrs[..i]), store, l, attrs[i])
  {
    WarmResolves(cache, store, l, attrs[..i]);
    assert attrs[..i + 1][..i] == attrs[..i];
  }

  lemma MissingStep(cache: Cache, store: Store, l: Locale, attrs: seq<Attr>, i: nat)
    requires i < |attrs|
    ensures Missing(cache, store, l, attrs[..i + 1])
         == Missing(cache, store, l, attrs[..i]) + (if Resolve(cache, store, l, attrs[i]) == Null then [NotFound(attrs[i], l)] else [])
  {
    assert attrs[..i + 1][..i] == attrs[..i];
  }

  lemma FoundStep(cache: Cache, store: Store, l: Locale, attrs: seq<Attr>, i: nat, attributes: map<Attr, Value>)
    requires i < |attrs|
    ensures var before := RestoreAll(attributes, Found(cache, store, l, attrs[..i]));
      (if Resolve(cache, store, l, attrs[i]) == Null then before else Restore(before, attrs[i]))
      == RestoreAll(attributes, Found(cache, store, l, attrs[..i + 1]))
  {
    assert attrs[..i + 1][..i] == attrs[..i];
    RestoreAllStep(attributes, Found(cache, store, l, attrs[..i]), attrs[i]);
  }

  /** One iteration of the `getTranslations` loop, from the state before to the state after. */
  lemma GetTranslationsStep(cache: Cache, store: Store, l: Locale, attrs: seq<Attr>, i: nat, castGet: (Attr, Value) -> Value,
                            attributes: map<Attr, Value>, events: seq<NotFound>,
                            m: map<Attr, Value>, cur: Cache, curAttributes: map<Attr, Value>, curEvents: seq<NotFound>,
                            t: Value, next: Cache, nextAttributes: map<Attr, Value>, nextEvents: seq<NotFound>)
    requires i < |attrs|
    requires m == View(cache, store, l, attrs[..i], castGet)
    requires cur == Warm(cache, store, l, attrs[..i])
    requires curEvents == events + Missing(cache, store, l, attrs[..i])
    requires curAttributes == RestoreAll(attributes, Found(cache, store, l, attrs[..i]))
    requires var raw := Resolve(cur, store, l, attrs[i]);
      && t == Shown(castGet, attrs[i], raw)
      && next == Load(cur, store, l, attrs[i])
      && nextEvents == curEvents + (if raw == Null then [NotFound(attrs[i], l)] else [])
      && nextAttributes == (if raw == Null then curAttributes else Restore(curAttributes, attrs[i]))
    ensures m[attrs[i] := t] == View(cache, store, l, attrs[..i + 1], castGet)
    ensures next == Warm(cache, store, l, attrs[..i + 1])
    ensures nextEvents == events + Missing(cache, store, l, attrs[..i + 1])
    ensures nextAttributes == RestoreAll(attributes, Found(cache, store, l, attrs[..i + 1]))
  {
    WarmStep(cache, store, l, attrs, i);
    ViewStep(cache, store, l, attrs, i, castGet);
    MissingStep(cache, store, l, attrs, i);
    FoundStep(cache, store, l, attrs, i, attributes);
  }

  /** The serialised form: the native array overridden by the non-falsy translations. */
  function ToArrayOf(native: map<Attr, Value>, translations: map<Attr, Value>): (r: map<Attr, Value>)
    ensures forall k :: k in r <==> k in native || (k in translations && !Falsy(translations[k]))
    ensures forall k :: k in translations && !Falsy(translations[k]) ==> r[k] == translations[k]
    ensures forall k :: k in native && !(k in translations && !Falsy(translations[k])) ==> r[k] == native[k]
  {
    ArrayMerge(native, ArrayFilter(translations))
  }

  // ---------------------------------------------------------------------------
  // Writing: `translate`, `translateMany` and `saveTranslations`

  /** The store after `translate(e.0, e.1, l)` for each entry `e`, in order. */
  function Applied(store: Store, entries: seq<(Attr, Value)>, l: Locale, castSet: (Attr, Value) -> Value)
    : (r: Store)
    ensures forall s: Slot :: s.locale != l ==> (s in r <==> s in store) && (s in store ==> r[s] == store[s])
    ensures forall i :: 0 <= i < |entries| ==> Slot(entries[i].0, l) in r
    decreases |entries|
  {
    if entries == [] then store
    else
      var n := |entries| - 1;
      Applied(store, entries[..n], l, castSet)[Slot(entries[n].0, l) := castSet(entries[n].0, entries[n].1)]
  }

  /** The collection `translateMany` returns: one row per entry, in order. */
  function Rows(entries: seq<(Attr, Value)>, l: Locale, castSet: (Attr, Value) -> Value): (r: seq<Translation>)
    ensures |r| == |entries|
    ensures forall i :: 0 <= i < |entries| ==> r[i] == Translation(entries[i].0, l, castSet(entries[i].0, entries[i].1))
    decreases |entries|
  {
    if entries == [] then []
    else
      var n := |entries| - 1;
      Rows(entries[..n], l, castSet) + [Translation(entries[n].0, l, castSet(entries[n].0, entries[n].1))]
  }

  /** The attributes named by the entries of a `translateMany` call. */
  function AttributesOf(entries: seq<(Attr, Value)>): set<Attr> {
    set i | 0 <= i < |entries| :: entries[i].0
  }

  /** One more `translate` in the `translateMany` loop. */
  lemma TranslateManyStep(store: Store, entries: seq<(Attr, Value)>, i: nat, l: Locale, castSet: (Attr, Value) -> Value, attributes: map<Attr, Value>)
    requires i < |entries|
    ensures Applied(store, entries[..i + 1], l, castSet)
         == Applied(store, entries[..i], l, castSet)[Slot(entries[i].0, l) := castSet(entries[i].0, entries[i].1)]
    ensures Restore(RestoreAll(attributes, AttributesOf(entries[..i])), entries[i].0)
         == RestoreAll(attributes, AttributesOf(entries[..i + 1]))
    ensures Rows(entries[..i + 1], l, castSet)
         == Rows(entries[..i], l, castSet) + [Translation(entries[i].0, l, castSet(entries[i].0, entries[i].1))]
  {
    assert entries[..i + 1][..i] == entries[..i];
    assert AttributesOf(entries[..i + 1]) == AttributesOf(entries[..i]) + {entries[i].0} by {
      forall j | 0 <= j < i ensures entries[..i + 1][j] == entries[..i][j] { }
    }
    RestoreAllStep(attributes, AttributesOf(entries[..i]), entries[i].0);
  }

  /** The store with the slots of locale `l` set from `m`, each value through `castSet`. */
  function Overridden(store: Store, m: map<Attr, Value>, l: Locale, castSet: (Attr, Value) -> Value): (r: Store)
    ensures forall a :: a in m ==> Slot(a, l) in r && r[Slot(a, l)] == castSet(a, m[a])
    ensures forall s: Slot :: !(s.locale == l && s.attribute in m) ==> (s in r <==> s in store) && (s in store ==> r[s] == store[s])
  {
    map s | s in store.Keys + (set a | a in m :: Slot(a, l)) ::
      if s.locale == l && s.attribute in m then castSet(s.attribute, m[s.attribute]) else store[s]
  }

  lemma AttributesOfEnumeration(entries: seq<(Attr, Value)>, m: map<Attr, Value>)
    requires Enumerates(entries, m)
    ensures AttributesOf(entries) == m.Keys
  {
    forall a | a in m ensures a in AttributesOf(entries) {
      var i :| 0 <= i < |entries| && entries[i].0 == a;
    }
  }

  /** Overriding one more attribute is one more map update. */
  lemma OverriddenStep(store: Store, m: map<Attr, Value>, a: Attr, l: Locale, castSet: (Attr, Value) -> Value)
    requires a in m
    ensures Overridden(store, m - {a}, l, castSet)[Slot(a, l) := castSet(a, m[a])] == Overridden(store, m, l, castSet)
  {
    var lhs := Overridden(store, m - {a}, l, castSet)[Slot(a, l) := castSet(a, m[a])];
    var rhs := Overridden(store, m, l, castSet);
    forall s: Slot ensures (s in lhs <==> s in rhs) && (s in lhs ==> lhs[s] == rhs[s]) {
      if s != Slot(a, l) && s.locale == l && s.attribute in m {
        assert s.attribute in m - {a};
      }
    }
  }

  /** Dropping the last entry enumerates the map without that entry's key. */
  lemma EnumeratesPrefix(entries: seq<(Attr, Value)>, m: map<Attr, Value>)
    requires Enumerates(entries, m) && entries != []
    ensures Enumerates(entries[..|entries| - 1], m - {entries[|entries| - 1].0})
  {
    var n := |entries| - 1;
    var prefix := entries[..n];
    forall a | a in m - {entries[n].0}
      ensures exists i :: 0 <= i < |prefix| && prefix[i].0 == a
    {
      var i :| 0 <= i < |entries| && entries[i].0 == a;
      assert prefix[i].0 == a;
    }
  }

  /** Writing a map's entries one by one, in whatever order, writes exactly that map. */
  lemma {:induction false} AppliedEnumeration(store: Store, entries: seq<(Attr, Value)>, m: map<Attr, Value>, l: Locale, castSet: (Attr, Value) -> Value)
    requires Enumerates(entries, m)
    ensures Applied(store, entries, l, castSet) == Overridden(store, m, l, castSet)
    decreases |entries|
  {
    if entries == [] {
      AttributesOfEnumeration(entries, m);
      assert m == map[];
    } else {
      var n := |entries| - 1;
      EnumeratesPrefix(entries, m);
      AppliedEnumeration(store, entries[..n], m - {entries[n].0}, l, castSet);
      OverriddenStep(store, m, entries[n].0, l, castSet);
    }
  }

  /** `translated[s.locale][s.attribute]` is set and not falsy, so a save writes slot `s`. */
  predicate Flushes(cache: Cache, s: Slot) {
    Present(cache, s.locale, s.attribute) && !Falsy(cache[s.locale][s.attribute])
  }

  function Pending(cache: Cache): (r: set<Slot>)
    ensures forall s :: s in r <==> Flushes(cache, s)
  {
    set l, a | l in cache && a in cache[l] && !Falsy(cache[l][a]) :: Slot(a, l)
  }

  /**
   * The store after `saveTranslations`: every cached slot whose value is not falsy is written
   * (through `castSet` again, by `translate`); every other slot keeps its row or absence.
   */
  function Flushed(store: Store, cache: Cache, castSet: (Attr, Value) -> Value): (r: Store)
    ensures forall s :: Flushes(cache, s) ==> s in r && r[s] == castSet(s.attribute, cache[s.locale][s.attribute])
    ensures forall s :: !Flushes(cache, s) ==> (s in r <==> s in store) && (s in store ==> r[s] == store[s])
  {
    map s | s in store.Keys + Pending(cache) ::
      if Flushes(cache, s) then castSet(s.attribute, cache[s.locale][s.attribute]) else store[s]
  }

  /** The attributes `saveTranslations` passes through `withSetAttribute`. */
  function FlushedAttributes(cache: Cache): set<Attr> {
    set s | s in Pending(cache) :: s.attribute
  }

  /** The cache restricted to the locales a save loop has already visited. */
  function Restrict(cache: Cache, locales: set<Locale>): (r: Cache)
    ensures forall l :: l in r <==> l in cache && l in locales
    ensures forall l :: l in r ==> r[l] == cache[l]
  {
    map l | l in cache && l in locales :: cache[l]
  }

  lemma FlushedStepAt(store: Store, cache: Cache, done: set<Locale>, l: Locale, castSet: (Attr, Value) -> Value, s: Slot)
    requires l in cache && l !in done
    ensures var lhs := Flushed(store, Restrict(cache, done + {l}), castSet);
      var rhs := Overridden(Flushed(store, Restrict(cache, done), castSet), ArrayFilter(cache[l]), l, castSet);
      (s in lhs <==> s in rhs) && (s in lhs ==> lhs[s] == rhs[s])
  {
    var after := Restrict(cache, done + {l});
    var before := Restrict(cache, done);
    if s.locale == l {
      assert !Flushes(before, s);
      assert Flushes(after, s) <==> s.attribute in ArrayFilter(cache[l]);
    } else {
      assert Flushes(after, s) <==> Flushes(before, s);
    }
  }

  /** One more locale visited by `saveTranslations` is one `translateMany` of its filtered array. */
  lemma FlushedStep(store: Store, cache: Cache, done: set<Locale>, l: Locale, castSet: (Attr, Value) -> Value)
    requires l in cache && l !in done
    ensures Flushed(store, Restrict(cache, done + {l}), castSet)
         == Overridden(Flushed(store, Restrict(cache, done), castSet), ArrayFilter(cache[l]), l, castSet)
  {
    var lhs := Flushed(store, Restrict(cache, done + {l}), castSet);
    var rhs := Overridden(Flushed(store, Restrict(cache, done), castSet), ArrayFilter(cache[l]), l, castSet);
    forall s: Slot ensures (s in lhs <==> s in rhs) && (s in lhs ==> lhs[s] == rhs[s]) {
      FlushedStepAt(store, cache, done, l, castSet, s);
    }
    assert lhs.Keys == rhs.Keys;
  }

  lemma FlushedAttributesStep(cache: Cache, done: set<Locale>, l: Locale)
    requires l in cache && l !in done
    ensures FlushedAttributes(Restrict(cache, done + {l}))
         == FlushedAttributes(Restrict(cache, done)) + ArrayFilter(cache[l]).Keys
  {
    var after := Restrict(cache, done + {l});
    var before := Restrict(cache, done);
    forall a | a in ArrayFilter(cache[l]).Keys ensures a in FlushedAttributes(after) {
      assert Flushes(after, Slot(a, l));
    }
    forall a | a in FlushedAttributes(before) ensures a in FlushedAttributes(after) {
      var s :| s in Pending(before) && s.attribute == a;
      assert Flushes(after, s);
    }
    forall a | a in FlushedAttributes(after) ensures a in FlushedAttributes(before) + ArrayFilter(cache[l]).Keys {
      var s :| s in Pending(after) && s.attribute == a;
      if s.locale != l { assert Flushes(before, s); }
    }
  }

  /** One locale of the `saveTranslations` loop: `translateMany` of its filtered entries. */
  lemma SaveStep(store: Store, attributes: map<Attr, Value>, cache: Cache, done: set<Locale>, l: Locale,
                 entries: seq<(Attr, Value)>, castSet: (Attr, Value) -> Value)
    requires l in cache && l !in done
    requires Enumerates(entries, ArrayFilter(cache[l]))
    ensures Applied(Flushed(store, Restrict(cache, done), castSet), entries, l, castSet)
         == Flushed(store, Restrict(cache, done + {l}), castSet)
    ensures RestoreAll(RestoreAll(attributes, FlushedAttributes(Restrict(cache, done))), AttributesOf(entries))
         == RestoreAll(attributes, FlushedAttributes(Restrict(cache, done + {l})))
  {
    var filtered := ArrayFilter(cache[l]);
    AppliedEnumeration(Flushed(store, Restrict(cache, done), castSet), entries, filtered, l, castSet);
    AttributesOfEnumeration(entries, filtered);
    FlushedStep(store, cache, done, l, castSet);
    FlushedAttributesStep(cache, done, l);
    RestoreAllTwice(attributes, FlushedAttributes(Restrict(cache, done)), filtered.Keys);
  }

  /** Moving one locale from the to-do set of the save loop to the visited set. */
  lemma VisitOne(all: set<Locale>, done: set<Locale>, todo: set<Locale>, l: Locale)
    requires todo <= all && done == all - todo && l in todo
    ensures todo - {l} <= all && done + {l} == all - (todo - {l}) && l !in done
  {
  }

  lemma FlushedNothing(store: Store, cache: Cache, castSet: (Attr, Value) -> Value)
    ensures Flushed(store, Restrict(cache, {}), castSet) == store
    ensures FlushedAttributes(Restrict(cache, {})) == {}
  {
  }

  // ---------------------------------------------------------------------------
  // Properties of the engine

  /**
   * Staging a null through `setTranslation` does not count as loaded: the next read goes to
   * the store. Any other staged value is what the next read returns, without a store read.
   */
  lemma StagedIsServed(cache: Cache, store: Store, l: Locale, a: Attr, v: Value)
    ensures Resolve(Put(cache, l, a, v), store, l, a) == (if v == Null then Fetch(store, a, l) else v)
    ensures v != Null ==> Load(Put(cache, l, a, v), store, l, a) == Put(cache, l, a, v)
  {
  }

  /**
   * Because the cache is never cleared, a second save writes what the first wrote:
   * saving twice is saving once.
   */
  lemma SaveTwiceIsSaveOnce(store: Store, cache: Cache, castSet: (Attr, Value) -> Value)
    ensures Flushed(Flushed(store, cache, castSet), cache, castSet) == Flushed(store, cache, castSet)
  {
  }

  /** Every non-falsy entry of the cache agrees with the store: only loads filled it. */
  ghost predicate Mirrors(cache: Cache, store: Store) {
    forall s :: Flushes(cache, s) ==> s in store && store[s] == cache[s.locale][s.attribute]
  }

  /** Loading keeps the cache a mirror of the store. */
  lemma {:induction false} WarmMirrors(cache: Cache, store: Store, l: Locale, attrs: seq<Attr>)
    requires Mirrors(cache, store)
    ensures Mirrors(Warm(cache, store, l, attrs), store)
    decreases |attrs|
  {
    if attrs != [] {
      var n := |attrs| - 1;
      WarmMirrors(cache, store, l, attrs[..n]);
      var w := Warm(cache, store, l, attrs[..n]);
      forall s | Flushes(Load(w, store, l, attrs[n]), s)
        ensures s in store && store[s] == Load(w, store, l, attrs[n])[s.locale][s.attribute]
      {
        if s != Slot(attrs[n], l) {
          assert Flushes(w, s);
        }
      }
    }
  }

  /**
   * Saving after reads alone rewrites every loaded row with `castSet` of itself, so it leaves
   * the store as it was whenever `castSet` fixes the stored values.
   */
  lemma ReadOnlySaveKeepsStore(store: Store, cache: Cache, castSet: (Attr, Value) -> Value)
    requires Mirrors(cache, store)
    requires forall s :: s in store ==> castSet(s.attribute, store[s]) == store[s]
    ensures Flushed(store, cache, castSet) == store
  {
  }

  /**
   * A value set through the guarded `setAttribute` is cast once when staged and once more
   * when saved: the row holds `castSet(a, castSet(a, v))` unless the staged value is falsy.
   */
  lemma StagedThenSaved(store: Store, cache: Cache, l: Locale, a: Attr, v: Value, castSet: (Attr, Value) -> Value)
    ensures var staged := castSet(a, v);
      var saved := Flushed(store, Put(cache, l, a, staged), castSet);
      && (!Falsy(staged) ==> Fetch(saved, a, l) == castSet(a, staged))
      && (Falsy(staged) ==> Fetch(saved, a, l) == Fetch(store, a, l))
  {
    var c := Put(cache, l, a, castSet(a, v));
    assert Flushes(c, Slot(a, l)) <==> !Falsy(castSet(a, v));
  }

  /**
   * `translate` writes the store and leaves the cache alone, so a slot read before it keeps its
   * old non-falsy value in the cache, and the next save writes that value back over the row
   * `translate` wrote.
   */
  lemma StaleCacheOverwritesTranslate(store: Store, cache: Cache, a: Attr, l: Locale, x: Value, castSet: (Attr, Value) -> Value)
    requires Present(cache, l, a) && !Falsy(Cached(cache, l, a))
    ensures Fetch(store[Slot(a, l) := x], a, l) == x
    ensures Fetch(Flushed(store[Slot(a, l) := x], cache, castSet), a, l) == castSet(a, Cached(cache, l, a))
  {
    assert Flushes(cache, Slot(a, l));
  }

  /**
   * The other side of the same slot: when the earlier read cached null (no translation found),
   * the next read sees the row `translate` wrote; when it cached null or another falsy value,
   * the next save leaves that row as it is.
   */
  lemma TranslateAfterFalsyRead(store: Store, cache: Cache, a: Attr, l: Locale, x: Value, castSet: (Attr, Value) -> Value)
    requires !Present(cache, l, a) || Falsy(Cached(cache, l, a))
    ensures !IsLoaded(cache, l, a) ==> Resolve(cache, store[Slot(a, l) := x], l, a) == x
    ensures Fetch(Flushed(store[Slot(a, l) := x], cache, castSet), a, l) == x
  {
    assert !Flushes(cache, Slot(a, l));
  }
}
