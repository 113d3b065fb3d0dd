/**
 * The earlier copy of the library in CastleWindsor/UnityContainerFactory.cs:
 * the factory's named resolution with a default, its own copy of the
 * interception pass, and a ByConventionRegistrator that always selects the
 * assemblies named after the research project plus an optional provider's list.
 */
module CastleWindsorResearch {
  import opened Types
  import opened Containers
  import InterceptionHelper
  import Convention = ByConventionRegistrator

  // ----- UnityContainerFactory -----

  /** `UnityContainerFactory.Resolve<T>(name)`: the registered instance, or default(T) when nothing is registered. */
  function Resolve(container: Container, meta: Metadata, t: TypeName, name: Name): (r: Result<Obj, Error>)
    requires container.Linked()
    reads container, container.ancestors
    ensures container.IsRegistered(Key(t, name)) ==> r == container.Resolve(Key(t, name), meta)
    ensures !container.IsRegistered(Key(t, name)) ==> r == Success(Null)
    ensures r.Failure? ==> !r.error.NotRegistered?
  {
    if container.IsRegistered(Key(t, name)) then container.Resolve(Key(t, name), meta) else Success(Null)
  }

  /**
   * On an intercepted container, `Resolve<T>(name)` of an eligible registration
   * yields its proxy: it implements the registered interface, its target is
   * the parent's instance, and its chain is the globals then the attribute
   * interceptors.
   */
  lemma ResolveYieldsProxy(child: Container, meta: Metadata, globals: seq<Obj>, i: nat)
    requires InterceptionHelper.InterceptedChild(child, meta, globals)
    requires i < |child.parent.registrations|
    requires InterceptionHelper.LastEligible(meta, child.parent.registrations, i)
    ensures var r := child.parent.registrations[i];
      && child.parent.Resolve(KeyOf(r), meta).Success?
      && InterceptionHelper.GetAttributeInterceptors(meta, r.mappedToType).Success?
      && Resolve(child, meta, r.registeredType, r.name)
         == Success(Proxy(r.registeredType,
                          child.parent.Resolve(KeyOf(r), meta).value,
                          globals + InterceptionHelper.GetAttributeInterceptors(meta, r.mappedToType).value))
  {
    InterceptionHelper.ChildResolvesProxy(child, meta, globals, i);
    InterceptionHelper.PassKeys(child.parent, meta, globals);
  }

  /**
   * `UnityContainerFactory.InterceptContainer`: the same loop as the library's,
   * with the same skip rules in the same order and the same chain.
   */
  method InterceptContainer(container: Container, globalInterceptors: seq<Obj>, meta: Metadata)
    returns (result: Result<Container, Error>)
    requires container.Linked()
    ensures container.registrations == old(container.registrations)
    ensures container.factories == old(container.factories)
    ensures result.Success? <==> InterceptionHelper.Pass(container, meta, globalInterceptors).Success?
    ensures result.Failure? ==> result.error == InterceptionHelper.Pass(container, meta, globalInterceptors).error
    ensures result.Success? ==>
      && fresh(result.value)
      && result.value.Linked()
      && result.value.parent == container
      && result.value.registrations == []
      && result.value.factories == InterceptionHelper.Pass(container, meta, globalInterceptors).value
  {
    result := InterceptionHelper.InterceptContainer(container, globalInterceptors, meta);
  }

  // ----- ByConventionRegistrator -----

  /** The assembly-name fragment this copy always selects by. */
  const ResearchAssemblySelector: string := "CastleWindsorResearch"

  /** `AdditionalAssembliesForConventionRegistration`: unset, or a provider returning a list or null. */
  datatype AssemblyProvider = NoProvider | Provider(assemblies: Option<seq<Assembly>>)

  /** The assemblies `GetAssembilesWithConventionRegistration` returns, or the error a null provider list raises. */
  function ConventionAssemblies(loaded: seq<Assembly>, provider: AssemblyProvider): (r: Result<seq<Assembly>, Error>)
    ensures r.Failure? <==> provider == Provider(None)
    ensures r.Failure? ==> r.error == NullArgument
    ensures r.Success? ==> forall a :: a in r.value <==>
      || (a in loaded && Convention.Contains(a.fullName, ResearchAssemblySelector))
      || (provider.Provider? && a in provider.assemblies.value)
  {
    var matches := Convention.SelectByName(loaded, ResearchAssemblySelector);
    match provider
    case NoProvider => Success(matches)
    case Provider(None) => Failure(NullArgument)
    case Provider(Some(extra)) => Success(matches + extra)
  }

  /** `ByConventionRegistrator.GetAssembilesWithConventionRegistration()`. */
  method GetAssembilesWithConventionRegistration(loaded: seq<Assembly>, provider: AssemblyProvider)
    returns (r: Result<seq<Assembly>, Error>)
    ensures r == ConventionAssemblies(loaded, provider)
  {
    var assemblies := Convention.SelectByName(loaded, ResearchAssemblySelector);
    if provider.Provider? {
      if provider.assemblies.None? {
        return Failure(NullArgument);
      }
      assemblies := assemblies + provider.assemblies.value;
    }
    return Success(assemblies);
  }

  /**
   * The research assemblies come first, in load order, followed by the
   * provider's list in its order; without a provider only the research
   * assemblies are scanned.
   */
  lemma ConventionAssembliesLayout(loaded: seq<Assembly>, provider: AssemblyProvider)
    requires provider != Provider(None)
    ensures var matches := Convention.SelectByName(loaded, ResearchAssemblySelector);
      var extra := if provider.Provider? then provider.assemblies.value else [];
      && ConventionAssemblies(loaded, provider).Success?
      && |ConventionAssemblies(loaded, provider).value| == |matches| + |extra|
      && ConventionAssemblies(loaded, provider).value[..|matches|] == matches
      && ConventionAssemblies(loaded, provider).value[|matches|..] == extra
      && (forall i :: 0 <= i < |matches| ==>
            matches[i] in loaded && Convention.Contains(matches[i].fullName, ResearchAssemblySelector))
  {
    var matches := Convention.SelectByName(loaded, ResearchAssemblySelector);
    assert forall i :: 0 <= i < |matches| ==> matches[i] in matches;
    if provider.NoProvider? {
      assert ConventionAssemblies(loaded, provider).value == matches + [];
    }
  }

  /** `ByConventionRegistrator.GetAutoNamedTypesFor<T>()`. */
  function GetAutoNamedTypesFor(meta: Metadata, service: TypeName, loaded: seq<Assembly>, provider: AssemblyProvider)
    : (r: Result<seq<TypeName>, Error>)
    ensures ConventionAssemblies(loaded, provider).Failure? ==> r == Failure(NullArgument)
    ensures ConventionAssemblies(loaded, provider).Success? ==>
      r == Convention.RegistrableTypes(meta, service, ConventionAssemblies(loaded, provider).value)
    ensures r.Success? ==> forall t ::
      t in r.value <==>
        && IsAssignableFrom(meta, service, t) && meta(t).isClass && !meta(t).isAbstract
        && exists a :: a in ConventionAssemblies(loaded, provider).value && t in a.types
  {
    var assemblies :- ConventionAssemblies(loaded, provider);
    Convention.RegistrableTypes(meta, service, assemblies)
  }

  /** `FilterTypesToRegisterByConvention()`: this copy accepts every type. */
  function FilterTypesToRegisterByConvention(): (f: TypeName -> bool)
    ensures forall t :: f(t)
  {
    (t: TypeName) => true
  }
}
