/**
 * The container interception pass of CastleInterceptHelpers/InterceptionHelper.cs:
 * every eligible registration of a container gets, in a fresh child
 * container, a constant factory returning one interface proxy over the
 * parent's instance, with the global interceptors followed by the
 * interceptors the mapped type declares through InterceptWith attributes.
 */
module InterceptionHelper {
  import opened Types
  import opened Containers

  /** `Activator.CreateInstance(t) as IInterceptor`, for a type Activator can create. */
  function AsInterceptor(meta: Metadata, t: TypeName): Obj {
    if ImplementsInterceptor(meta, t) then Instance(t) else Null
  }

  /** The interceptor types named by the attributes, in attribute order. */
  function InterceptorTypes(attrs: seq<InterceptWith>): (ts: seq<TypeName>)
    ensures |ts| == |attrs|
    ensures forall i :: 0 <= i < |attrs| ==> ts[i] == attrs[i].interceptor
  {
    if attrs == [] then [] else [attrs[0].interceptor] + InterceptorTypes(attrs[1..])
  }

  /**
   * Creates one interceptor per type, in order; the first type Activator
   * cannot create raises, and a created object that is not an interceptor
   * becomes a null entry.
   */
  function CreateInterceptors(meta: Metadata, ts: seq<TypeName>): (r: Result<seq<Obj>, Error>)
    ensures r.Failure? <==> exists i :: 0 <= i < |ts| && !meta(ts[i]).activatable
    ensures r.Success? ==>
      (&& |r.value| == |ts|
       && forall i :: 0 <= i < |ts| ==>
            r.value[i] == (if ImplementsInterceptor(meta, ts[i]) then Instance(ts[i]) else Null))
    ensures r.Failure? ==>
      exists i :: (&& 0 <= i < |ts| && r.error == ActivationFailed(ts[i]) && !meta(ts[i]).activatable
                   && forall j :: 0 <= j < i ==> meta(ts[j]).activatable)
  {
    if ts == [] then Success([])
    else if !meta(ts[0]).activatable then Failure(ActivationFailed(ts[0]))
    else
      var rest :- CreateInterceptors(meta, ts[1..]);
      assert forall i :: 1 <= i < |ts| ==> ts[1..][i - 1] == ts[i];
      Success([AsInterceptor(meta, ts[0])] + rest)
  }

  /** `ReflectionHelper.GetAttributeInterceptors(t)`. */
  function GetAttributeInterceptors(meta: Metadata, t: TypeName): (r: Result<seq<Obj>, Error>)
    ensures var attrs := meta(t).interceptWith;
      && (r.Failure? <==> exists i :: 0 <= i < |attrs| && !meta(attrs[i].interceptor).activatable)
      && (r.Success? ==>
            (&& |r.value| == |attrs|
             && forall i :: 0 <= i < |attrs| ==> r.value[i] == AsInterceptor(meta, attrs[i].interceptor)))
      && (attrs == [] ==> r == Success([]))
  {
    CreateInterceptors(meta, InterceptorTypes(meta(t).interceptWith))
  }

  /** The two skip rules of the pass: no interceptor is intercepted, and only interfaces are proxied. */
  predicate Eligible(meta: Metadata, r: Registration) {
    !ImplementsInterceptor(meta, r.mappedToType) && meta(r.registeredType).isInterface
  }

  /**
   * The proxy the pass builds for one eligible registration: the attribute
   * interceptors are created first, then the target is resolved from `c`.
   */
  function ProxyFor(c: Container, meta: Metadata, globals: seq<Obj>, r: Registration): (p: Result<Obj, Error>)
    requires c.Linked()
    reads c, c.ancestors
    ensures GetAttributeInterceptors(meta, r.mappedToType).Failure? ==>
      p == Failure(GetAttributeInterceptors(meta, r.mappedToType).error)
    ensures GetAttributeInterceptors(meta, r.mappedToType).Success? ==>
      p.Success? == c.Resolve(KeyOf(r), meta).Success?
    ensures p.Success? ==>
      var attrs := meta(r.mappedToType).interceptWith;
      && p.value.Proxy?
      && p.value.interfaceType == r.registeredType
      && p.value.target == c.Resolve(KeyOf(r), meta).value
      && |p.value.chain| == |globals| + |attrs|
      && p.value.chain[..|globals|] == globals
      && (forall i :: 0 <= i < |attrs| ==>
            p.value.chain[|globals| + i] == AsInterceptor(meta, attrs[i].interceptor))
    ensures p.Failure? && GetAttributeInterceptors(meta, r.mappedToType).Success? ==>
      p.error == c.Resolve(KeyOf(r), meta).error
  {
    var declared :- GetAttributeInterceptors(meta, r.mappedToType);
    var target :- c.Resolve(KeyOf(r), meta);
    Success(Proxy(r.registeredType, target, globals + declared))
  }

  /** The pass over `regs`, starting from the child entries `m`; a later entry for a key replaces an earlier one. */
  function PassFrom(c: Container, meta: Metadata, globals: seq<Obj>, m: map<Key, Obj>, regs: seq<Registration>)
    : Result<map<Key, Obj>, Error>
    requires c.Linked()
    reads c, c.ancestors
    decreases |regs|
  {
    if regs == [] then Success(m)
    else if !Eligible(meta, regs[0]) then PassFrom(c, meta, globals, m, regs[1..])
    else
      var proxied :- ProxyFor(c, meta, globals, regs[0]);
      PassFrom(c, meta, globals, m[KeyOf(regs[0]) := proxied], regs[1..])
  }

  /** The child entries the pass over all of `c`'s registrations produces, or the error it raises. */
  function Pass(c: Container, meta: Metadata, globals: seq<Obj>): Result<map<Key, Obj>, Error>
    requires c.Linked()
    reads c, c.ancestors
  {
    PassFrom(c, meta, globals, map[], c.registrations)
  }

  /** `InterceptionHelper.InterceptContainer(container, globalInterceptors)`. */
  method InterceptContainer(container: Container, globalInterceptors: seq<Obj>, meta: Metadata)
    returns (result: Result<Container, Error>)
    requires container.Linked()
    ensures container.registrations == old(container.registrations)
    ensures container.factories == old(container.factories)
    ensures result.Success? <==> Pass(container, meta, globalInterceptors).Success?
    ensures result.Failure? ==> result.error == Pass(container, meta, globalInterceptors).error
    ensures result.Success? ==>
      && fresh(result.value)
      && result.value.Linked()
      && result.value.parent == container
      && result.value.registrations == []
      && result.value.factories == Pass(container, meta, globalInterceptors).value
  {
    var childContainer := new Container.CreateChild(container);
    var registrations := container.registrations;
    var i := 0;
    while i < |registrations|
      invariant 0 <= i <= |registrations|
      invariant childContainer.Linked() && childContainer.parent == container
      invariant childContainer.registrations == []
      invariant PassFrom(container, meta, globalInterceptors, childContainer.factories, registrations[i..])
             == Pass(container, meta, globalInterceptors)
    {
      var registration := registrations[i];
      assert registrations[i..][1..] == registrations[i + 1..];
      i := i + 1;

      if ImplementsInterceptor(meta, registration.mappedToType) {
        continue;
      }
      if !meta(registration.registeredType).isInterface {
        continue;
      }

      var declared :- GetAttributeInterceptors(meta, registration.mappedToType);
      var allInterceptors := globalInterceptors + declared;
      var target :- container.Resolve(KeyOf(registration), meta);
      var proxied := Proxy(registration.registeredType, target, allInterceptors);
      childContainer.RegisterFactory(KeyOf(registration), proxied);
    }
    assert registrations[i..] == [];
    return Success(childContainer);
  }

  // ----- Properties of the pass -----

  /** Some eligible registration of `regs` has key `k`. */
  predicate Covers(meta: Metadata, regs: seq<Registration>, k: Key) {
    exists i :: 0 <= i < |regs| && Eligible(meta, regs[i]) && KeyOf(regs[i]) == k
  }

  /** `regs[i]` is eligible and no later eligible registration has its key. */
  predicate LastEligible(meta: Metadata, regs: seq<Registration>, i: nat)
    requires i < |regs|
  {
    Eligible(meta, regs[i]) &&
    forall j :: i < j < |regs| && Eligible(meta, regs[j]) ==> KeyOf(regs[j]) != KeyOf(regs[i])
  }

  lemma CoversTail(meta: Metadata, regs: seq<Registration>, k: Key)
    requires regs != []
    ensures Covers(meta, regs, k) <==> (Eligible(meta, regs[0]) && KeyOf(regs[0]) == k) || Covers(meta, regs[1..], k)
  {
    if Covers(meta, regs, k) {
      var i :| 0 <= i < |regs| && Eligible(meta, regs[i]) && KeyOf(regs[i]) == k;
      if i > 0 {
        assert regs[1..][i - 1] == regs[i];
      }
    }
    if Covers(meta, regs[1..], k) {
      var i :| 0 <= i < |regs[1..]| && Eligible(meta, regs[1..][i]) && KeyOf(regs[1..][i]) == k;
      assert regs[i + 1] == regs[1..][i];
    }
  }

  /** Which keys the pass leaves in the child, and that keys no eligible registration has keep their entry. */
  lemma {:induction false} PassFromEntry(
    c: Container, meta: Metadata, globals: seq<Obj>, m: map<Key, Obj>, regs: seq<Registration>, k: Key)
    requires c.Linked()
    requires PassFrom(c, meta, globals, m, regs).Success?
    ensures k in PassFrom(c, meta, globals, m, regs).value <==> k in m || Covers(meta, regs, k)
    ensures k in m && !Covers(meta, regs, k) ==> PassFrom(c, meta, globals, m, regs).value[k] == m[k]
    decreases |regs|
  {
    if regs != [] {
      CoversTail(meta, regs, k);
      if !Eligible(meta, regs[0]) {
        PassFromEntry(c, meta, globals, m, regs[1..], k);
      } else {
        var p := ProxyFor(c, meta, globals, regs[0]);
        PassFromEntry(c, meta, globals, m[KeyOf(regs[0]) := p.value], regs[1..], k);
      }
    }
  }

  /** The child entry for the key of the last eligible registration with that key is that registration's proxy. */
  lemma {:induction false} PassFromLast(
    c: Container, meta: Metadata, globals: seq<Obj>, m: map<Key, Obj>, regs: seq<Registration>, i: nat)
    requires c.Linked()
    requires PassFrom(c, meta, globals, m, regs).Success?
    requires i < |regs| && LastEligible(meta, regs, i)
    ensures ProxyFor(c, meta, globals, regs[i]).Success?
    ensures KeyOf(regs[i]) in PassFrom(c, meta, globals, m, regs).value
    ensures PassFrom(c, meta, globals, m, regs).value[KeyOf(regs[i])] == ProxyFor(c, meta, globals, regs[i]).value
    decreases |regs|
  {
    var k := KeyOf(regs[i]);
    if i == 0 {
      var p := ProxyFor(c, meta, globals, regs[0]);
      var m' := m[k := p.value];
      PassFromEntry(c, meta, globals, m', regs[1..], k);
    } else {
      assert LastEligible(meta, regs[1..], i - 1) by {
        forall j | i - 1 < j < |regs[1..]| && Eligible(meta, regs[1..][j])
          ensures KeyOf(regs[1..][j]) != KeyOf(regs[1..][i - 1])
        {
          assert regs[1..][j] == regs[j + 1];
        }
      }
      if !Eligible(meta, regs[0]) {
        PassFromLast(c, meta, globals, m, regs[1..], i - 1);
      } else {
        var p := ProxyFor(c, meta, globals, regs[0]);
        PassFromLast(c, meta, globals, m[KeyOf(regs[0]) := p.value], regs[1..], i - 1);
      }
    }
  }

  /** `r` is eligible and its proxy cannot be built. */
  predicate Breaks(c: Container, meta: Metadata, globals: seq<Obj>, r: Registration)
    requires c.Linked()
    reads c, c.ancestors
  {
    Eligible(meta, r) && ProxyFor(c, meta, globals, r).Failure?
  }

  /** The pass fails exactly when some eligible registration's proxy cannot be built, and then with the first such error. */
  lemma {:induction false} PassFromOutcome(
    c: Container, meta: Metadata, globals: seq<Obj>, m: map<Key, Obj>, regs: seq<Registration>)
    requires c.Linked()
    ensures PassFrom(c, meta, globals, m, regs).Failure? <==>
      exists i :: 0 <= i < |regs| && Breaks(c, meta, globals, regs[i])
    ensures PassFrom(c, meta, globals, m, regs).Failure? ==>
      exists i :: (&& 0 <= i < |regs| && Breaks(c, meta, globals, regs[i])
                   && PassFrom(c, meta, globals, m, regs).error == ProxyFor(c, meta, globals, regs[i]).error
                   && forall j :: 0 <= j < i ==> !Breaks(c, meta, globals, regs[j]))
    decreases |regs|
  {
    if regs != [] && !Breaks(c, meta, globals, regs[0]) {
      var tail := regs[1..];
      var m' := if Eligible(meta, regs[0]) then m[KeyOf(regs[0]) := ProxyFor(c, meta, globals, regs[0]).value] else m;
      assert PassFrom(c, meta, globals, m, regs) == PassFrom(c, meta, globals, m', tail);
      PassFromOutcome(c, meta, globals, m', tail);
      if PassFrom(c, meta, globals, m', tail).Failure? {
        var i :| && 0 <= i < |tail| && Breaks(c, meta, globals, tail[i])
                 && PassFrom(c, meta, globals, m', tail).error == ProxyFor(c, meta, globals, tail[i]).error
                 && forall j :: 0 <= j < i ==> !Breaks(c, meta, globals, tail[j]);
        assert regs[i + 1] == tail[i];
        forall j | 0 < j < i + 1 ensures !Breaks(c, meta, globals, regs[j]) {
          assert regs[j] == tail[j - 1];
        }
      }
      if exists i :: 0 <= i < |regs| && Breaks(c, meta, globals, regs[i]) {
        var i :| 0 <= i < |regs| && Breaks(c, meta, globals, regs[i]);
        assert tail[i - 1] == regs[i];
      }
    }
  }

  /** Exactly the keys of eligible registrations get a child entry. */
  lemma PassKeys(c: Container, meta: Metadata, globals: seq<Obj>)
    requires c.Linked()
    requires Pass(c, meta, globals).Success?
    ensures forall k :: k in Pass(c, meta, globals).value <==> Covers(meta, c.registrations, k)
  {
    forall k ensures k in Pass(c, meta, globals).value <==> Covers(meta, c.registrations, k) {
      PassFromEntry(c, meta, globals, map[], c.registrations, k);
    }
  }

  /** The entry for an eligible registration is the proxy built for it. */
  lemma PassEntryIsProxy(c: Container, meta: Metadata, globals: seq<Obj>, i: nat)
    requires c.Linked()
    requires Pass(c, meta, globals).Success?
    requires i < |c.registrations| && LastEligible(meta, c.registrations, i)
    ensures var r := c.registrations[i];
      && ProxyFor(c, meta, globals, r).Success?
      && KeyOf(r) in Pass(c, meta, globals).value
      && Pass(c, meta, globals).value[KeyOf(r)] == ProxyFor(c, meta, globals, r).value
  {
    PassFromLast(c, meta, globals, map[], c.registrations, i);
  }

  /** The pass raises exactly when an eligible registration's proxy cannot be built, with the first such error. */
  lemma PassOutcome(c: Container, meta: Metadata, globals: seq<Obj>)
    requires c.Linked()
    ensures var regs := c.registrations;
      (Pass(c, meta, globals).Failure? <==>
        exists i :: 0 <= i < |regs| && Eligible(meta, regs[i]) && ProxyFor(c, meta, globals, regs[i]).Failure?)
    ensures var regs := c.registrations;
      Pass(c, meta, globals).Failure? ==>
        exists i :: (&& 0 <= i < |regs| && Eligible(meta, regs[i])
                     && ProxyFor(c, meta, globals, regs[i]).Failure?
                     && Pass(c, meta, globals).error == ProxyFor(c, meta, globals, regs[i]).error
                     && forall j :: 0 <= j < i && Eligible(meta, regs[j]) ==> ProxyFor(c, meta, globals, regs[j]).Success?)
  {
    PassFromOutcome(c, meta, globals, map[], c.registrations);
  }

  /** In a container whose keys are unique (as registering keeps them), every eligible registration is the last for its key. */
  lemma UniqueKeysEveryEligibleIsLast(meta: Metadata, regs: seq<Registration>, i: nat)
    requires UniqueKeys(regs) && i < |regs| && Eligible(meta, regs[i])
    ensures LastEligible(meta, regs, i)
  {
  }

  // ----- What resolving from the child container yields -----

  /** `child` is the container InterceptContainer returned for its parent. */
  ghost predicate InterceptedChild(child: Container, meta: Metadata, globals: seq<Obj>)
    reads child, child.ancestors
  {
    && child.Linked()
    && child.parent != null
    && child.registrations == []
    && Pass(child.parent, meta, globals).Success?
    && child.factories == Pass(child.parent, meta, globals).value
  }

  /**
   * Resolving an eligible registration's key from the child yields the one
   * proxy built for it, whose target is the parent's resolution of the same key.
   */
  lemma ChildResolvesProxy(child: Container, meta: Metadata, globals: seq<Obj>, i: nat)
    requires InterceptedChild(child, meta, globals)
    requires i < |child.parent.registrations| && LastEligible(meta, child.parent.registrations, i)
    ensures var r := child.parent.registrations[i];
      && child.Resolve(KeyOf(r), meta).Success?
      && child.parent.Resolve(KeyOf(r), meta).Success?
      && GetAttributeInterceptors(meta, r.mappedToType).Success?
      && child.Resolve(KeyOf(r), meta).value
         == Proxy(r.registeredType,
                  child.parent.Resolve(KeyOf(r), meta).value,
                  globals + GetAttributeInterceptors(meta, r.mappedToType).value)
  {
    PassEntryIsProxy(child.parent, meta, globals, i);
  }

  /** A key no eligible registration has is not overridden: the child resolves it as the parent does. */
  lemma ChildFallsBackToParent(child: Container, meta: Metadata, globals: seq<Obj>, k: Key)
    requires InterceptedChild(child, meta, globals)
    requires !Covers(meta, child.parent.registrations, k)
    ensures k !in child.factories
    ensures child.Resolve(k, meta) == child.parent.Resolve(k, meta)
  {
    PassKeys(child.parent, meta, globals);
  }

  /** A registration mapped to an interceptor gets no child entry and resolves from the parent. */
  lemma InterceptorRegistrationNotProxied(child: Container, meta: Metadata, globals: seq<Obj>, i: nat)
    requires InterceptedChild(child, meta, globals)
    requires UniqueKeys(child.parent.registrations)
    requires i < |child.parent.registrations|
    requires ImplementsInterceptor(meta, child.parent.registrations[i].mappedToType)
    ensures var k := KeyOf(child.parent.registrations[i]);
      k !in child.factories && child.Resolve(k, meta) == child.parent.Resolve(k, meta)
  {
    var regs := child.parent.registrations;
    var k := KeyOf(regs[i]);
    ChildFallsBackToParent(child, meta, globals, k);
  }

  /** A registration whose registered type is not an interface gets no child entry and resolves from the parent. */
  lemma NonInterfaceRegistrationNotProxied(child: Container, meta: Metadata, globals: seq<Obj>, i: nat)
    requires InterceptedChild(child, meta, globals)
    requires i < |child.parent.registrations|
    requires !meta(child.parent.registrations[i].registeredType).isInterface
    ensures var k := KeyOf(child.parent.registrations[i]);
      k !in child.factories && child.Resolve(k, meta) == child.parent.Resolve(k, meta)
  {
    var regs := child.parent.registrations;
    var k := KeyOf(regs[i]);
    ChildFallsBackToParent(child, meta, globals, k);
  }
}
