/**
 * Convention-registration selection of CastleInterceptHelpersOld/ByConventionRegistrator.cs:
 * which assemblies are scanned, which of their types qualify for a service
 * type, and which filter the convention registration applies. The static
 * configuration properties of the source are the fields of `Configuration`,
 * and the assemblies loaded in the application domain are a parameter.
 */
module ByConventionRegistrator {
  import opened Types

  // ----- Sequence and string helpers with the meaning of their .NET counterparts -----

  /** `Enumerable.Where`: the elements that satisfy `p`, in their original order. */
  function Where<T(!new)>(s: seq<T>, p: T -> bool): (r: seq<T>)
    ensures |r| <= |s|
    ensures forall x :: x in r <==> x in s && p(x)
    ensures forall i :: 0 <= i < |r| ==> p(r[i])
  {
    if s == [] then [] else (if p(s[0]) then [s[0]] else []) + Where(s[1..], p)
  }

  /** Filtering a concatenation filters each part and keeps the parts in order. */
  lemma {:induction false} WhereAppend<T(!new)>(s: seq<T>, t: seq<T>, p: T -> bool)
    ensures Where(s + t, p) == Where(s, p) + Where(t, p)
  {
    if s == [] {
      assert s + t == t;
    } else {
      assert (s + t)[0] == s[0];
      assert (s + t)[1..] == s[1..] + t;
      WhereAppend(s[1..], t, p);
    }
  }

  /** A filter every element passes keeps the whole sequence. */
  lemma {:induction false} WhereKeepsAll<T(!new)>(s: seq<T>, p: T -> bool)
    requires forall i :: 0 <= i < |s| ==> p(s[i])
    ensures Where(s, p) == s
  {
    if s != [] {
      WhereKeepsAll(s[1..], p);
    }
  }

  /** `String.Contains` with ordinal comparison: `sub` occurs in `s`. */
  predicate Contains(s: string, sub: string)
    decreases |s|
  {
    sub <= s || (s != [] && Contains(s[1..], sub))
  }

  /** `sub` occurs in `s` starting at index `i`. */
  predicate OccursAt(s: string, sub: string, i: nat) {
    i + |sub| <= |s| && s[i..i + |sub|] == sub
  }

  /** `Contains` agrees with the definition of a substring: an occurrence at some index. */
  lemma {:induction false} ContainsIffOccurs(s: string, sub: string)
    decreases |s|
    ensures Contains(s, sub) <==> exists i: nat :: OccursAt(s, sub, i)
  {
    if sub <= s {
      assert s[0..|sub|] == sub;
      assert OccursAt(s, sub, 0);
    }
    if s != [] {
      ContainsIffOccurs(s[1..], sub);
      if Contains(s[1..], sub) {
        var i: nat :| OccursAt(s[1..], sub, i);
        assert s[1..][i..i + |sub|] == s[i + 1..i + 1 + |sub|];
        assert OccursAt(s, sub, i + 1);
      }
      if i: nat :| OccursAt(s, sub, i) {
        if i == 0 {
          assert sub <= s;
        } else {
          assert s[1..][i - 1..i - 1 + |sub|] == s[i..i + |sub|];
          assert OccursAt(s[1..], sub, i - 1);
        }
      }
    } else {
      if i: nat :| OccursAt(s, sub, i) {
        assert sub == [];
      }
    }
  }

  /** `Char.IsWhiteSpace`: the Unicode separators and the control characters 9 to 13, 0x85. */
  predicate IsWhiteSpace(c: char) {
    || ('\U{9}' <= c <= '\U{D}')
    || c == ' ' || c == '\U{85}' || c == '\U{A0}' || c == '\U{1680}'
    || ('\U{2000}' <= c <= '\U{200A}')
    || c == '\U{2028}' || c == '\U{2029}' || c == '\U{202F}' || c == '\U{205F}' || c == '\U{3000}'
  }

  /** `string.IsNullOrWhiteSpace`. */
  predicate IsNullOrWhiteSpace(s: Option<string>) {
    s.None? || forall i :: 0 <= i < |s.value| ==> IsWhiteSpace(s.value[i])
  }

  // ----- Assembly selection -----

  /** The loaded assemblies whose full name contains `selector`, in load order. */
  function SelectByName(loaded: seq<Assembly>, selector: string): (r: seq<Assembly>)
    ensures forall a :: a in r <==> a in loaded && Contains(a.fullName, selector)
    ensures |r| <= |loaded|
  {
    Where(loaded, (a: Assembly) => Contains(a.fullName, selector))
  }

  /** Selecting from two groups of loaded assemblies keeps the first group's matches first. */
  lemma SelectByNameAppend(first: seq<Assembly>, second: seq<Assembly>, selector: string)
    ensures SelectByName(first + second, selector) == SelectByName(first, selector) + SelectByName(second, selector)
  {
    WhereAppend(first, second, (a: Assembly) => Contains(a.fullName, selector));
  }

  /**
   * `ByConventionRegistrationFilter`: no provider (null), or a provider
   * represented by the filter it returns, which may itself be null (`None`).
   */
  datatype FilterProvider = NoFilterProvider | FilterProvider(filter: Option<TypeName -> bool>)

  /** The static configuration: the name selector, the explicit assemblies and the filter provider. */
  datatype Configuration = Configuration(
    assemblyNameSelector: Option<string>,
    assembliesForConventionRegistration: Option<seq<Assembly>>,
    byConventionRegistrationFilter: FilterProvider)

  /** The assemblies `GetAssembilesWithConventionRegistration` returns, or its configuration error. */
  function ConventionAssemblies(config: Configuration, loaded: seq<Assembly>): (r: Result<seq<Assembly>, Error>)
    ensures r.Failure? <==>
      IsNullOrWhiteSpace(config.assemblyNameSelector) && config.assembliesForConventionRegistration.None?
    ensures r.Failure? ==> r.error == NotConfigured
    ensures r.Success? ==> forall a :: a in r.value <==>
      || (!IsNullOrWhiteSpace(config.assemblyNameSelector) && a in loaded
          && Contains(a.fullName, config.assemblyNameSelector.value))
      || (config.assembliesForConventionRegistration.Some? && a in config.assembliesForConventionRegistration.value)
  {
    var selector := config.assemblyNameSelector;
    var explicit := config.assembliesForConventionRegistration;
    if IsNullOrWhiteSpace(selector) && explicit.None? then Failure(NotConfigured)
    else
      Success((if IsNullOrWhiteSpace(selector) then [] else SelectByName(loaded, selector.value))
              + (if explicit.Some? then explicit.value else []))
  }

  /** `GetAssembilesWithConventionRegistration()`: fails unconfigured, else the selector's matches then the explicit list. */
  method GetAssembilesWithConventionRegistration(config: Configuration, loaded: seq<Assembly>)
    returns (r: Result<seq<Assembly>, Error>)
    ensures r == ConventionAssemblies(config, loaded)
  {
    if IsNullOrWhiteSpace(config.assemblyNameSelector) && config.assembliesForConventionRegistration.None? {
      return Failure(NotConfigured);
    }
    var assemblies: seq<Assembly> := [];
    if !IsNullOrWhiteSpace(config.assemblyNameSelector) {
      assemblies := assemblies + SelectByName(loaded, config.assemblyNameSelector.value);
    }
    assert assemblies == if IsNullOrWhiteSpace(config.assemblyNameSelector) then []
                         else SelectByName(loaded, config.assemblyNameSelector.value);
    if config.assembliesForConventionRegistration.Some? {
      assemblies := assemblies + config.assembliesForConventionRegistration.value;
    } else {
      assert assemblies + [] == assemblies;
    }
    return Success(assemblies);
  }

  /**
   * The selector's matches come first, in load order, and the explicit
   * assemblies follow in the given order, with no duplicate removed.
   */
  lemma ConventionAssembliesLayout(config: Configuration, loaded: seq<Assembly>)
    requires !IsNullOrWhiteSpace(config.assemblyNameSelector)
    ensures var matches := SelectByName(loaded, config.assemblyNameSelector.value);
      var explicit := if config.assembliesForConventionRegistration.Some?
                      then config.assembliesForConventionRegistration.value else [];
      && ConventionAssemblies(config, loaded).Success?
      && |ConventionAssemblies(config, loaded).value| == |matches| + |explicit|
      && ConventionAssemblies(config, loaded).value[..|matches|] == matches
      && ConventionAssemblies(config, loaded).value[|matches|..] == explicit
      && multiset(ConventionAssemblies(config, loaded).value) == multiset(matches) + multiset(explicit)
      && (forall i :: 0 <= i < |matches| ==>
            matches[i] in loaded && Contains(matches[i].fullName, config.assemblyNameSelector.value))
  {
    var matches := SelectByName(loaded, config.assemblyNameSelector.value);
    var explicit := if config.assembliesForConventionRegistration.Some?
                    then config.assembliesForConventionRegistration.value else [];
    assert ConventionAssemblies(config, loaded).value == matches + explicit;
    assert forall i :: 0 <= i < |matches| ==> matches[i] in matches;
  }

  /** With a blank selector and an explicit list, exactly the explicit list is scanned. */
  lemma BlankSelectorScansExplicitOnly(config: Configuration, loaded: seq<Assembly>)
    requires IsNullOrWhiteSpace(config.assemblyNameSelector)
    requires config.assembliesForConventionRegistration.Some?
    ensures ConventionAssemblies(config, loaded) == Success(config.assembliesForConventionRegistration.value)
  {
    assert [] + config.assembliesForConventionRegistration.value == config.assembliesForConventionRegistration.value;
  }

  // ----- Types that qualify -----

  /** `IsRegistrable<T>(t)`: assignable to T, a class, and not abstract. */
  predicate IsRegistrable(meta: Metadata, service: TypeName, t: TypeName) {
    IsAssignableFrom(meta, service, t) && meta(t).isClass && !meta(t).isAbstract
  }

  /** `SelectMany(assembly => assembly.GetTypes())`: all types, assembly by assembly; the first assembly that cannot load its types raises. */
  function TypesOf(assemblies: seq<Assembly>): (r: Result<seq<TypeName>, Error>)
    ensures r.Failure? <==> exists i :: 0 <= i < |assemblies| && !assemblies[i].typesLoad
    ensures r.Failure? ==>
      exists i :: (&& 0 <= i < |assemblies| && !assemblies[i].typesLoad
                   && r.error == TypeLoadFailed(assemblies[i].fullName)
                   && forall j :: 0 <= j < i ==> assemblies[j].typesLoad)
    ensures r.Success? ==>
      forall t :: t in r.value <==> exists i :: 0 <= i < |assemblies| && t in assemblies[i].types
  {
    if assemblies == [] then Success([])
    else if !assemblies[0].typesLoad then Failure(TypeLoadFailed(assemblies[0].fullName))
    else
      var rest :- TypesOf(assemblies[1..]);
      assert forall i :: 1 <= i < |assemblies| ==> assemblies[1..][i - 1] == assemblies[i];
      Success(assemblies[0].types + rest)
  }

  /**
   * The registrable types of `assemblies` for `service`, assembly by assembly
   * in type order; it raises when an assembly cannot load its types.
   */
  function RegistrableTypes(meta: Metadata, service: TypeName, assemblies: seq<Assembly>)
    : (r: Result<seq<TypeName>, Error>)
    ensures r.Failure? <==> TypesOf(assemblies).Failure?
    ensures r.Failure? ==> r == Failure(TypesOf(assemblies).error)
    ensures r.Success? ==> forall i :: 0 <= i < |r.value| ==>
      IsAssignableFrom(meta, service, r.value[i]) && meta(r.value[i]).isClass && !meta(r.value[i]).isAbstract
    ensures r.Success? ==> forall t ::
      t in r.value <==>
        && IsAssignableFrom(meta, service, t) && meta(t).isClass && !meta(t).isAbstract
        && exists a :: a in assemblies && t in a.types
  {
    var types :- TypesOf(assemblies);
    assert forall t :: t in types <==> exists a :: a in assemblies && t in a.types by {
      forall t ensures t in types <==> exists a :: a in assemblies && t in a.types {
        if t in types {
          var i :| 0 <= i < |assemblies| && t in assemblies[i].types;
          assert assemblies[i] in assemblies;
        }
      }
    }
    Success(Where(types, (t: TypeName) => IsRegistrable(meta, service, t)))
  }

  /**
   * `GetAutoNamedTypesFor<T>()`: the registrable types of every scanned
   * assembly; it raises whatever selecting or loading the assemblies raises.
   */
  function GetAutoNamedTypesFor(meta: Metadata, service: TypeName, config: Configuration, loaded: seq<Assembly>)
    : (r: Result<seq<TypeName>, Error>)
    ensures ConventionAssemblies(config, loaded).Failure? ==> r == Failure(NotConfigured)
    ensures ConventionAssemblies(config, loaded).Success? ==>
      r == RegistrableTypes(meta, service, ConventionAssemblies(config, loaded).value)
    ensures r.Success? ==> forall t ::
      t in r.value <==>
        && IsAssignableFrom(meta, service, t) && meta(t).isClass && !meta(t).isAbstract
        && exists a :: a in ConventionAssemblies(config, loaded).value && t in a.types
  {
    var assemblies :- ConventionAssemblies(config, loaded);
    RegistrableTypes(meta, service, assemblies)
  }

  // ----- The convention filter -----

  /**
   * `FilterTypesToRegisterByConvention()`: the provider's filter when a
   * provider is set (null when it returns null), otherwise accept-all.
   */
  function FilterTypesToRegisterByConvention(provider: FilterProvider): (f: Option<TypeName -> bool>)
    ensures f.None? <==> provider == FilterProvider(None)
    ensures provider.FilterProvider? && f.Some? ==> forall t :: f.value(t) == provider.filter.value(t)
    ensures provider.NoFilterProvider? ==> f.Some? && forall t :: f.value(t)
  {
    if provider.FilterProvider? then provider.filter else Some((t: TypeName) => true)
  }

  /**
   * `candidates.Where(FilterTypesToRegisterByConvention())`: the candidates the
   * filter keeps, in order; a null filter raises, as `Where` rejects a null predicate.
   */
  function FilterConventionTypes(candidates: seq<TypeName>, provider: FilterProvider)
    : (r: Result<seq<TypeName>, Error>)
    ensures r.Failure? <==> provider == FilterProvider(None)
    ensures r.Failure? ==> r.error == NullArgument
    ensures r.Success? && provider.FilterProvider? ==>
      forall t :: t in r.value <==> t in candidates && provider.filter.value(t)
  {
    var f := FilterTypesToRegisterByConvention(provider);
    if f.None? then Failure(NullArgument) else Success(Where(candidates, f.value))
  }

  /** With no filter provider configured, the convention filter passes every candidate type through. */
  lemma DefaultFilterKeepsAllTypes(config: Configuration, candidates: seq<TypeName>)
    requires config.byConventionRegistrationFilter.NoFilterProvider?
    ensures FilterConventionTypes(candidates, config.byConventionRegistrationFilter) == Success(candidates)
  {
    WhereKeepsAll(candidates, FilterTypesToRegisterByConvention(config.byConventionRegistrationFilter).value);
  }
}
