# CastleInterceptHelpers in Dafny

A model of the core of CastleInterceptHelpers, a small library that wraps the
services of a Unity dependency-injection container in Castle DynamicProxy
interface proxies, so that interceptors (logging, exception handling, …) run
around every call.

Two components are modelled.

- **The container interception pass** (`InterceptionHelper.InterceptContainer`).
  It walks the container's registrations. It skips those whose mapped type
  implements `IInterceptor`, then those whose registered type is not an
  interface. For each remaining registration it creates the interceptors
  named by the mapped type's `InterceptWith` attributes. It builds one proxy
  over the parent's instance, whose chain is the global interceptors followed
  by the declared ones. It registers that proxy as a constant factory in a
  fresh child container, which falls back to the parent for everything else.
  `CastleWindsor/UnityContainerFactory.cs` holds an earlier copy of the same
  loop. Its method `CastleWindsorResearch.InterceptContainer` delegates to
  the library's, so the two share one definition.
- **Convention-registration selection** (`ByConventionRegistrator`,
  `CastleWindsorResearch`). It decides which assemblies are scanned and which
  of their types qualify for a service type (`IsRegistrable`). It also gives
  the filter the convention registration applies. The library version has a
  configurable name selector and an explicit list, and raises when neither is
  set. The CastleWindsor version always selects by "CastleWindsorResearch" and
  appends an optional provider's list.

The model works over explicit tables instead of .NET reflection:

- A `Metadata` function gives each type its interfaces, assignability,
  class and abstract flags, `InterceptWith` attributes, and whether
  `Activator` or the container can create it.
- An `Assembly` is a full name with a list of types.
- An object is a value: `Null`, `Instance(type)` or
  `Proxy(interfaceType, target, chain)`.
- A thrown exception is a `Failure` of `Result`.
- The container is a class (`Containers.Container`). It has a parent, a list
  of type registrations, and a map of constant factories. `Resolve` asks the
  nearest container of the chain that has the key.

The interception pass is specified by the function `InterceptionHelper.Pass`.
The method's postcondition ties the child's entries to it. The lemmas then
prove:

- which keys get an entry;
- that each entry is the proxy of its registration;
- what the chain holds;
- when the pass raises, and with which error;
- what resolving from the child yields.

The three unit tests of the library are re-stated as methods in
`InterceptUtilitiesTests`.

The library declares an `Order` on `InterceptWith`, and the attributes
`RemoveGlobalInterceptorAttribute` and `DoNotInterceptAttribute`.
`InterceptContainer` (CastleInterceptHelpers/InterceptionHelper.cs:19-37)
reads none of them. It concatenates the globals and the attribute
interceptors without sorting, excluding or suppressing anything. Declared
interceptors are created with `Activator.CreateInstance` and cast with
`as IInterceptor` (line 45); they are not resolved through the container.
The model does the same.

## Model

| member | source | states |
|---|---|---|
| `Containers.Container.constructor` | CastleWindsor/UnityContainerFactory.cs:81 | a new container is a root with no registrations and no factories |
| `Containers.LastWithKey` | CastleWindsor/UnityContainerFactory.cs:47-57 | the mapping resolution uses for a key: none iff no registration has the key, otherwise the last registration with that key |
| `Containers.RemoveKey` | CastleWindsor/UnityContainerFactory.cs:47-57 | the registrations without those for the key, every other one kept |
| `Containers.RemoveKeyKeepsKeysUnique` | CastleWindsor/UnityContainerFactory.cs:47-57 | dropping a key's registrations keeps the remaining keys unique |
| `Containers.Container.CreateChild` | CastleInterceptHelpers/InterceptionHelper.cs:21 | the child container starts empty and falls back to the given parent |
| `Containers.Container.RegisterType` | CastleWindsor/UnityContainerFactory.cs:47-57 | registering a mapping replaces any earlier entry for the same (type, name) key and appends the new one |
| `Containers.RegisterKeepsKeysUnique` | CastleWindsor/UnityContainerFactory.cs:47-57 | registering keeps every (type, name) key registered at most once, and the new registration is present |
| `Containers.Container.RegisterFactory` | CastleInterceptHelpers/InterceptionHelper.cs:34 | the key now maps to the one given object and every other entry is unchanged |
| `Containers.Container.IsRegistered` | CastleWindsor/UnityContainerFactory.cs:24 | a key is registered iff this container or an ancestor has a mapping or a factory for it |
| `Containers.Container.Resolve` | CastleInterceptHelpers/InterceptionHelper.cs:32 | resolution fails as "not registered" exactly when no container of the chain has the key; a constant factory yields its object |
| `InterceptionHelper.InterceptorTypes` | CastleInterceptHelpers/InterceptionHelper.cs:44 | one interceptor type per attribute, in attribute order |
| `InterceptionHelper.AsInterceptor` | CastleInterceptHelpers/InterceptionHelper.cs:45 | a created object that implements IInterceptor is kept; any other becomes null, as `as IInterceptor` gives |
| `InterceptionHelper.CreateInterceptors` | CastleInterceptHelpers/InterceptionHelper.cs:45 | one entry per type in order: an instance if the type implements IInterceptor, null otherwise; it raises exactly when some type cannot be created, naming the first one |
| `InterceptionHelper.GetAttributeInterceptors` | CastleInterceptHelpers/InterceptionHelper.cs:42-46 | one interceptor per InterceptWith attribute in attribute order, null for a type that is not an interceptor, empty when there is no attribute; raises exactly when an attribute's type cannot be created |
| `InterceptionHelper.Eligible` | CastleInterceptHelpers/InterceptionHelper.cs:24-28 | a registration is proxied iff its mapped type does not implement IInterceptor and its registered type is an interface |
| `InterceptionHelper.ProxyFor` | CastleInterceptHelpers/InterceptionHelper.cs:30-32 | the proxy implements the registered type; its target is the container's resolution of the same key; its chain is the globals then the attribute interceptors, of length globals plus attributes; attribute errors come before resolution errors |
| `InterceptionHelper.PassFrom` | CastleInterceptHelpers/InterceptionHelper.cs:22-35 | the loop over the rest of the registrations from the entries built so far: skips ineligible ones, stops at the first exception, and a later entry for a key replaces an earlier one |
| `InterceptionHelper.Pass` | CastleInterceptHelpers/InterceptionHelper.cs:21-36 | the whole loop from an empty child: the child's factory entries, or the exception the loop raises |
| `InterceptionHelper.InterceptContainer` | CastleInterceptHelpers/InterceptionHelper.cs:19-37 | returns a fresh child of the container whose factories are exactly the pass's entries and which has no registrations; raises exactly when the pass does; the parent's registrations and factories are unchanged |
| `InterceptionHelper.PassFromEntry` | CastleInterceptHelpers/InterceptionHelper.cs:22-35 | a key ends up in the child iff it was there before or an eligible registration has it; keys no eligible registration has keep their entry |
| `InterceptionHelper.PassFromLast` | CastleInterceptHelpers/InterceptionHelper.cs:32-34 | the child entry for an eligible registration that no later eligible one overrides is that registration's proxy |
| `InterceptionHelper.PassFromOutcome` | CastleInterceptHelpers/InterceptionHelper.cs:22-35 | the pass raises iff some eligible registration's proxy cannot be built, and then with the first such registration's error |
| `InterceptionHelper.PassKeys` | CastleInterceptHelpers/InterceptionHelper.cs:24-34 | the child has an entry for a key iff some registration with that key passes both skip rules |
| `InterceptionHelper.PassEntryIsProxy` | CastleInterceptHelpers/InterceptionHelper.cs:30-34 | the key of an eligible registration that no later eligible registration with the same key follows maps to the proxy built for that registration; with unique keys, as registering keeps them, this is every eligible registration |
| `InterceptionHelper.PassOutcome` | CastleInterceptHelpers/InterceptionHelper.cs:30-32 | over a whole container: the pass raises iff some eligible registration fails, with the first failure's error |
| `InterceptionHelper.CoversTail` | CastleInterceptHelpers/InterceptionHelper.cs:22 | a key is covered by a registration list iff the head covers it or the rest does |
| `InterceptionHelper.UniqueKeysEveryEligibleIsLast` | CastleInterceptHelpers/InterceptionHelper.cs:34 | when keys are unique, no eligible registration's entry is overwritten |
| `InterceptionHelper.ChildResolvesProxy` | CastleInterceptHelpers/InterceptionHelper.cs:32-34 | for the last eligible registration of a key (every eligible one when keys are unique), resolving that key from the child yields the proxy over the parent's resolution of the key, whose chain is the globals then that registration's attribute interceptors |
| `InterceptionHelper.ChildFallsBackToParent` | CastleInterceptHelpers/InterceptionHelper.cs:21-28 | a key no eligible registration has gets no child entry, and the child resolves it as the parent does |
| `InterceptionHelper.InterceptorRegistrationNotProxied` | CastleInterceptHelpers/InterceptionHelper.cs:24-25 | when keys are unique, as registering keeps them, a registration mapped to an interceptor gets no child entry and resolves from the parent |
| `InterceptionHelper.NonInterfaceRegistrationNotProxied` | CastleInterceptHelpers/InterceptionHelper.cs:27-28 | a registration whose registered type is not an interface gets no child entry and resolves from the parent |
| `InterceptUtilitiesTests.SingleRegistrationIntercepted` | CastleInterceptHelpersTests/InterceptUtilitiesTests.cs:27-28 | one interface registration yields exactly one child entry: a proxy over the parent's instance with globals then declared interceptors |
| `InterceptUtilitiesTests.TestAttributeInterceptors` | CastleInterceptHelpersTests/InterceptUtilitiesTests.cs:42-85 | a test class without InterceptWith yields no attribute interceptors; one with a single InterceptWith yields that one interceptor |
| `InterceptUtilitiesTests.InterceptAndResolve` | CastleInterceptHelpersTests/InterceptUtilitiesTests.cs:27-30 | register, intercept and resolve yields the proxy over the real service with globals then declared interceptors |
| `InterceptUtilitiesTests.GlobalInterceptorTest` | CastleInterceptHelpersTests/InterceptUtilitiesTests.cs:20-39 | the resolved service is a proxy over MyFooService whose chain is the one global interceptor |
| `InterceptUtilitiesTests.AttributeInterceptorTest` | CastleInterceptHelpersTests/InterceptUtilitiesTests.cs:41-60 | the resolved service is a proxy whose chain is the one attribute interceptor |
| `InterceptUtilitiesTests.GlobalAndAttributeInterceptorTest` | CastleInterceptHelpersTests/InterceptUtilitiesTests.cs:63-85 | the resolved service is a proxy whose chain is the global interceptor and then the attribute interceptor |
| `ByConventionRegistrator.Where` | CastleInterceptHelpersOld/ByConventionRegistrator.cs:56-58 | the result holds exactly the elements that pass the predicate and is no longer than the input |
| `ByConventionRegistrator.WhereAppend` | CastleInterceptHelpersOld/ByConventionRegistrator.cs:56-58 | filtering keeps order: filtering a concatenation is the concatenation of the filtered parts |
| `ByConventionRegistrator.WhereKeepsAll` | CastleInterceptHelpersOld/ByConventionRegistrator.cs:123-126 | a filter that every element passes returns the input unchanged |
| `ByConventionRegistrator.Contains` | CastleInterceptHelpersOld/ByConventionRegistrator.cs:57 | ordinal `String.Contains`: the selector is a prefix of the name or of one of its suffixes |
| `ByConventionRegistrator.ContainsIffOccurs` | CastleInterceptHelpersOld/ByConventionRegistrator.cs:57 | `Contains` holds iff the selector occurs in the name at some index |
| `ByConventionRegistrator.IsNullOrWhiteSpace` | CastleInterceptHelpersOld/ByConventionRegistrator.cs:47-54 | a selector is blank iff it is null or every character is .NET white space |
| `ByConventionRegistrator.SelectByName` | CastleInterceptHelpersOld/ByConventionRegistrator.cs:56-58 | exactly the loaded assemblies whose full name contains the selector |
| `ByConventionRegistrator.SelectByNameAppend` | CastleInterceptHelpersOld/ByConventionRegistrator.cs:56-58 | selector matches keep load order |
| `ByConventionRegistrator.ConventionAssemblies` | CastleInterceptHelpersOld/ByConventionRegistrator.cs:45-67 | raises a configuration error iff the selector is null or blank and there is no explicit list; otherwise an assembly is in the result iff it matches a non-blank selector or is in the explicit list |
| `ByConventionRegistrator.GetAssembilesWithConventionRegistration` | CastleInterceptHelpersOld/ByConventionRegistrator.cs:45-67 | the list built with AddRange equals the selection above, error included |
| `ByConventionRegistrator.ConventionAssembliesLayout` | CastleInterceptHelpersOld/ByConventionRegistrator.cs:52-66 | with a non-blank selector: the matches come first in load order, then the explicit list; the length is their sum and nothing is de-duplicated |
| `ByConventionRegistrator.BlankSelectorScansExplicitOnly` | CastleInterceptHelpersOld/ByConventionRegistrator.cs:47-66 | a blank selector with an explicit list scans exactly the explicit list |
| `ByConventionRegistrator.IsRegistrable` | CastleInterceptHelpersOld/ByConventionRegistrator.cs:102-105 | a type qualifies iff it is assignable to the service, a class and not abstract; the Windsor copy (CastleWindsor/UnityContainerFactory.cs:176-179) is the same code |
| `ByConventionRegistrator.TypesOf` | CastleInterceptHelpersOld/ByConventionRegistrator.cs:79-86 | all types of all assemblies; raises iff some assembly cannot load its types, naming the first one |
| `ByConventionRegistrator.RegistrableTypes` | CastleInterceptHelpersOld/ByConventionRegistrator.cs:99-105 | every returned type is assignable to the service, a class and not abstract, and every such type of a scanned assembly is returned |
| `ByConventionRegistrator.GetAutoNamedTypesFor` | CastleInterceptHelpersOld/ByConventionRegistrator.cs:77-100 | raises the configuration error when selection does; otherwise returns exactly the registrable types of the scanned assemblies |
| `ByConventionRegistrator.FilterTypesToRegisterByConvention` | CastleInterceptHelpersOld/ByConventionRegistrator.cs:117-127 | null exactly when a provider is set and returns null; the provider's filter, pointwise, when it returns one; a filter accepting every type when no provider is set |
| `ByConventionRegistrator.FilterConventionTypes` | CastleInterceptHelpersOld/ByConventionRegistrator.cs:30 | applying the filter with `Where` raises exactly when the filter is null; otherwise a candidate is kept iff the provider's filter accepts it |
| `ByConventionRegistrator.DefaultFilterKeepsAllTypes` | CastleInterceptHelpersOld/ByConventionRegistrator.cs:30 | with no filter provider configured, filtering succeeds and keeps every candidate type in order |
| `CastleWindsorResearch.Resolve` | CastleWindsor/UnityContainerFactory.cs:22-29 | the registered instance when the type is registered under the name, otherwise the default, which is null for the reference types the model has; never a "not registered" error |
| `CastleWindsorResearch.ResolveYieldsProxy` | CastleWindsor/UnityContainerFactory.cs:97-101 | on an intercepted container, for the last eligible registration of a key (every eligible one when keys are unique), resolving it by name yields exactly its proxy: the registered interface, the parent's instance as target, and the globals then the attribute interceptors as chain |
| `CastleWindsorResearch.InterceptContainer` | CastleWindsor/UnityContainerFactory.cs:86-104 | the same skip rules in the same order, the same chain and one constant proxy per eligible key as the library's pass |
| `CastleWindsorResearch.ConventionAssemblies` | CastleWindsor/UnityContainerFactory.cs:129-141 | an assembly is scanned iff its full name contains "CastleWindsorResearch" or the provider lists it; a provider that returns null raises |
| `CastleWindsorResearch.GetAssembilesWithConventionRegistration` | CastleWindsor/UnityContainerFactory.cs:129-141 | the list built with AddRange equals the selection above, error included |
| `CastleWindsorResearch.ConventionAssembliesLayout` | CastleWindsor/UnityContainerFactory.cs:131-140 | the research assemblies come first in load order, then the provider's list; without a provider only the research assemblies |
| `CastleWindsorResearch.GetAutoNamedTypesFor` | CastleWindsor/UnityContainerFactory.cs:151-174 | exactly the types of the scanned assemblies that are assignable to the service, classes and not abstract |
| `CastleWindsorResearch.FilterTypesToRegisterByConvention` | CastleWindsor/UnityContainerFactory.cs:191-195 | the filter accepts every type |

`ReflectionHelper.GetAttributeInterceptors` (CastleWindsor/UnityContainerFactory.cs:209-217) is the
same code as its library counterpart and is modelled by `InterceptionHelper.GetAttributeInterceptors`.
It reads a different attribute class, though: CastleWindsor's own `InterceptWithAttribute`
(CastleWindsor/UnityContainerFactory.cs:198-207), which has no `Order`. The one `interceptWith`
column of `Metadata` stands for whichever of the two attribute classes the copy being modelled reads;
for the CastleWindsor copy, `order` is meaningless.

## Left out

- CastleWindsorResearch.Resolve: for a value type `T`, `default(T)` is not null (for example 0), but the model has only reference objects, so an unregistered key always yields `Null`.
- InterceptionHelper.InterceptContainer (and CastleWindsorResearch.InterceptContainer): a null `globalInterceptors` array is not modelled, because a `seq<Obj>` cannot be null. In the source, `Concat` then throws ArgumentNullException at the first eligible registration, after that registration's `GetAttributeInterceptors` has run, and nothing is thrown when no registration is eligible. The order in which `Registrations` is enumerated is also not modelled: the model walks registrations in registration order, and re-registering a key moves it to the end. Unity documents no order for `Registrations`, so the "first" failure named by `PassOutcome` and `PassFromOutcome` is first in that modelled order only.
- Call interception: a proxy is the record `Proxy(interfaceType, target, chain)`. `IInvocation.Proceed` and calls through the chain are not modelled. Castle's argument checks in `CreateInterfaceProxyWithTarget` are not modelled either.
- Object identity and lifetimes: objects are values, so two resolutions of a transient registration give equal values. In .NET they give distinct instances. Singleton and other lifetime managers (`RegisterSingleton`, the `Register` overloads with a lifetime) are left out.
- Unity internals: Unity can build an unregistered concrete class, but the model fails it as "not registered". A container's `Registrations` also lists its parents' registrations, its factory registrations and the container's own registration; the model's pass enumerates only the container's type registrations. Construction of instances with constructor injection is the given flag `buildable`.
- `RegisterTypesByConvention` (both copies): it passes the selection to `AllClasses.FromAssemblies`, `WithMappings.FromMatchingInterface` and `WithName.Default`, which are Unity code. The model states only which assemblies and which filter it gets.
- `CreateContainer` (CastleWindsor/UnityContainerFactory.cs:79-84) and CastleInterceptHelpersOld/UnityContainerFactory.cs: a two-call composition of convention registration and the pass.
- `Resolve<T>()` without a name and `ResolveAll<T>`: direct delegation to the container.
- Reflection: `GetInterfaces`, `IsInterface`, `IsAssignableFrom`, `GetCustomAttributes`, `Activator.CreateInstance` and `AppDomain.GetAssemblies` are given tables. The order of the attributes is the order the table lists them; .NET does not promise declaration order.
- The message text built from `ReflectionTypeLoadException` (CastleWindsor/UnityContainerFactory.cs:157-171, CastleInterceptHelpersOld/ByConventionRegistrator.cs:83-97). The model keeps only that loading fails, with the assembly's name.
- `Order`, `RemoveGlobalInterceptorAttribute` and `DoNotInterceptAttribute`: the interception code never reads them. `Order` is an unused field of `InterceptWith`. The other two attributes are not modelled.
- Static configuration properties (`Container`, `AssemblyNameSelector`, `AssembliesForConventionRegistration`, `ByConventionRegistrationFilter`, `AdditionalAssembliesForConventionRegistration`) are parameters. A provider delegate is represented by the value it returns; calling it twice is not modelled.
- CastleWindsor/Program.cs and CastleWindsor/MyService.cs: a console demo and interceptors whose only effect is console output.
- Container chains: `Resolve` walks any finite parent chain. The child a pass creates has no type registrations of its own.
