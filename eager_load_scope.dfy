/**
 * `TranslationsEagerLoadScope`: a global query scope that, outside the default locale, asks the
 * query builder to eager-load the record's `translations` relation constrained to the current
 * locale, provided at least one translatable attribute wants its translations auto-loaded.
 */
module Scopes {
  import opened Translations
  import opened HasTranslations

  /** One `with([...])` request: a relation name and the locale its rows are restricted to. */
  datatype EagerLoad = EagerLoad(relation: string, locale: Locale)

  /**
   * The part of an Eloquent query builder the scope touches: its eager loads, keyed by relation
   * name, each with the locale its rows are restricted to.
   */
  class Builder {
    var eagerLoads: map<string, Locale>

    constructor ()
      ensures eagerLoads == map[]
    {
      eagerLoads := map[];
    }

    /**
     * `$query->with([...])`: Eloquent merges the request into its keyed array, so an earlier
     * eager load of the same relation is replaced and every other one is kept.
     */
    method With(load: EagerLoad)
      modifies this
      ensures load.relation in eagerLoads && eagerLoads[load.relation] == load.locale
      ensures forall r :: r != load.relation ==> (r in eagerLoads <==> r in old(eagerLoads))
      ensures forall r :: r != load.relation && r in eagerLoads ==> eagerLoads[r] == old(eagerLoads)[r]
      ensures eagerLoads.Keys == old(eagerLoads).Keys + {load.relation}
    {
      eagerLoads := eagerLoads[load.relation := load.locale];
    }
  }

  /** Some attribute of `attrs` has translations auto-loading switched on. */
  predicate AnyAutoLoads(attrs: seq<Attr>, autoLoads: Attr -> bool) {
    exists i :: 0 <= i < |attrs| && autoLoads(attrs[i])
  }

  /**
   * `shouldLoadTranslations`: scans the declared attributes and answers true at the first one
   * that auto-loads, false when none does (in particular when none is declared).
   */
  method ShouldLoadTranslations(translatable: TranslatableModel) returns (b: bool)
    ensures b <==> AnyAutoLoads(translatable.GetTranslatable(), translatable.autoLoads)
    ensures translatable.GetTranslatable() == [] ==> !b
  {
    var attrs := translatable.GetTranslatable();
    var i := 0;
    while i < |attrs|
      invariant 0 <= i <= |attrs|
      invariant forall j :: 0 <= j < i ==> !translatable.autoLoads(attrs[j])
    {
      if translatable.autoLoads(attrs[i]) {
        return true;
      }
      i := i + 1;
    }
    return false;
  }

  /** The answer depends only on which attributes are declared, not on their order. */
  lemma AutoLoadsOrderFree(xs: seq<Attr>, ys: seq<Attr>, autoLoads: Attr -> bool)
    requires multiset(xs) == multiset(ys)
    ensures AnyAutoLoads(xs, autoLoads) <==> AnyAutoLoads(ys, autoLoads)
  {
    if AnyAutoLoads(xs, autoLoads) {
      var i :| 0 <= i < |xs| && autoLoads(xs[i]);
      assert xs[i] in multiset(ys);
      var j :| 0 <= j < |ys| && ys[j] == xs[i];
    }
    if AnyAutoLoads(ys, autoLoads) {
      var j :| 0 <= j < |ys| && autoLoads(ys[j]);
      assert ys[j] in multiset(xs);
      var i :| 0 <= i < |xs| && xs[i] == ys[j];
    }
  }

  /**
   * `apply`: in the default locale, or when no attribute auto-loads, the query is left as it
   * is; otherwise the query eager-loads `translations` for the current locale only, replacing
   * any earlier eager load of that relation, and its other eager loads are kept.
   */
  method Apply(query: Builder, translatable: TranslatableModel)
    modifies query
    ensures query.eagerLoads == (if !translatable.IsDefaultLocale() && AnyAutoLoads(translatable.GetTranslatable(), translatable.autoLoads)
      then old(query.eagerLoads)["translations" := translatable.locale]
      else old(query.eagerLoads))
  {
    if translatable.IsDefaultLocale() {
      return;
    }
    var should := ShouldLoadTranslations(translatable);
    if !should {
      return;
    }
    query.With(EagerLoad("translations", translatable.locale));
  }
}
