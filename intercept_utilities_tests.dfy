/**
 * The three scenarios of CastleInterceptHelpersTests/InterceptUtilitiesTests.cs,
 * stated over the model: a container with one registration, intercepted with
 * a global interceptor, with an attribute interceptor, and with both. Each
 * returns what resolving the service from the intercepted container yields.
 */
module InterceptUtilitiesTests {
  import opened Types
  import opened Containers
  import opened InterceptionHelper

  const IMyFooService: TypeName := "CastleInterceptHelpersTests.IMyFooService"
  const MyFooService: TypeName := "CastleInterceptHelpersTests.MyFooService"
  const MyFooServiceWithAttributeInterceptor: TypeName := "CastleInterceptHelpersTests.MyFooServiceWithAttributeInterceptor"
  const MyInterceptor: TypeName := "CastleInterceptHelpersTests.MyInterceptor"
  const MyOtherInterceptor: TypeName := "CastleInterceptHelpersTests.MyOtherInterceptor"

  /** A concrete class with a parameterless constructor. */
  function ConcreteClass(interfaces: set<TypeName>, attrs: seq<InterceptWith>): TypeInfo {
    TypeInfo(false, true, false, interfaces, interfaces, attrs, true, true)
  }

  /** The reflection table of the test assembly. */
  function TestMetadata(): Metadata {
    (t: TypeName) =>
      if t == IMyFooService then TypeInfo(true, false, true, {}, {}, [], false, false)
      else if t == MyFooService then ConcreteClass({IMyFooService}, [])
      else if t == MyFooServiceWithAttributeInterceptor then
        ConcreteClass({IMyFooService}, [InterceptWith(MyInterceptor, 0)])
      else if t == MyInterceptor || t == MyOtherInterceptor then ConcreteClass({IInterceptor}, [])
      else TypeInfo(false, false, false, {}, {}, [], false, false)
  }

  /**
   * A container with one registration of interface `iface` mapped to `impl`:
   * the pass maps that key to one proxy over the parent's instance whose
   * chain is the globals followed by the declared interceptors.
   */
  lemma {:induction false} SingleRegistrationIntercepted(
    c: Container, meta: Metadata, globals: seq<Obj>, iface: TypeName, impl: TypeName)
    requires c.Linked() && c.parent == null && c.factories == map[]
    requires c.registrations == [Registration(iface, impl, None)]
    requires meta(iface).isInterface && !ImplementsInterceptor(meta, impl) && meta(impl).buildable
    requires GetAttributeInterceptors(meta, impl).Success?
    ensures Pass(c, meta, globals)
         == Success(map[Key(iface, None) := Proxy(iface, Instance(impl), globals + GetAttributeInterceptors(meta, impl).value)])
  {
    var k := Key(iface, None);
    var r := Registration(iface, impl, None);
    assert KeyOf(r) == k;
    assert LastWithKey(c.registrations, k) == Some(r);
    assert c.Lookup(k, meta) == Some(Success(Instance(impl)));
    assert c.Resolve(k, meta) == Success(Instance(impl));
    var p := ProxyFor(c, meta, globals, r);
    assert p == Success(Proxy(iface, Instance(impl), globals + GetAttributeInterceptors(meta, impl).value));
    assert Eligible(meta, r);
    assert PassFrom(c, meta, globals, map[], [r]) == PassFrom(c, meta, globals, map[k := p.value], []);
    assert c.registrations[1..] == [];
  }

  /**
   * The attribute interceptors of the library's tests: none for a class
   * without InterceptWith, and the one declared interceptor for a class with one.
   */
  lemma TestAttributeInterceptors(meta: Metadata, impl: TypeName, d: TypeName)
    requires meta(d).activatable && ImplementsInterceptor(meta, d)
    ensures meta(impl).interceptWith == [] ==> GetAttributeInterceptors(meta, impl) == Success([])
    ensures |meta(impl).interceptWith| == 1 && meta(impl).interceptWith[0].interceptor == d ==>
      GetAttributeInterceptors(meta, impl) == Success([Instance(d)])
  {
    if |meta(impl).interceptWith| == 1 && meta(impl).interceptWith[0].interceptor == d {
      var r := GetAttributeInterceptors(meta, impl);
      assert r.Success?;
      assert r.value == [Instance(d)];
    }
  }

  /** Registers `impl` for IMyFooService, intercepts with `globals`, and resolves IMyFooService from the result. */
  method InterceptAndResolve(impl: TypeName, globals: seq<Obj>) returns (service: Result<Obj, Error>)
    requires impl == MyFooService || impl == MyFooServiceWithAttributeInterceptor
    ensures service == Success(Proxy(IMyFooService, Instance(impl),
                                     globals + GetAttributeInterceptors(TestMetadata(), impl).value))
  {
    var meta := TestMetadata();
    var unityContainer := new Container();
    unityContainer.RegisterType(Registration(IMyFooService, impl, None));
    assert unityContainer.registrations == [Registration(IMyFooService, impl, None)];
    SingleRegistrationIntercepted(unityContainer, meta, globals, IMyFooService, impl);
    var intercepted := InterceptContainer(unityContainer, globals, meta);
    var child := intercepted.value;
    service := child.Resolve(Key(IMyFooService, None), meta);
  }

  /** GlobalInterceptorTest: the global interceptor alone wraps the real service. */
  method GlobalInterceptorTest() returns (service: Result<Obj, Error>)
    ensures service == Success(Proxy(IMyFooService, Instance(MyFooService), [Instance(MyInterceptor)]))
  {
    service := InterceptAndResolve(MyFooService, [Instance(MyInterceptor)]);
    TestAttributeInterceptors(TestMetadata(), MyFooService, MyInterceptor);
    assert [Instance(MyInterceptor)] + [] == [Instance(MyInterceptor)];
  }

  /** AttributeInterceptorTest: with no global interceptor, the declared interceptor alone wraps the service. */
  method AttributeInterceptorTest() returns (service: Result<Obj, Error>)
    ensures service == Success(Proxy(IMyFooService, Instance(MyFooServiceWithAttributeInterceptor),
                                     [Instance(MyInterceptor)]))
  {
    service := InterceptAndResolve(MyFooServiceWithAttributeInterceptor, []);
    TestAttributeInterceptors(TestMetadata(), MyFooServiceWithAttributeInterceptor, MyInterceptor);
    assert [] + [Instance(MyInterceptor)] == [Instance(MyInterceptor)];
  }

  /** GlobalAndAttributeInterceptorTest: the global interceptor is outermost, the declared one inside it. */
  method GlobalAndAttributeInterceptorTest() returns (service: Result<Obj, Error>)
    ensures service == Success(Proxy(IMyFooService, Instance(MyFooServiceWithAttributeInterceptor),
                                     [Instance(MyOtherInterceptor), Instance(MyInterceptor)]))
  {
    service := InterceptAndResolve(MyFooServiceWithAttributeInterceptor, [Instance(MyOtherInterceptor)]);
    TestAttributeInterceptors(TestMetadata(), MyFooServiceWithAttributeInterceptor, MyInterceptor);
    assert [Instance(MyOtherInterceptor)] + [Instance(MyInterceptor)] == [Instance(MyOtherInterceptor), Instance(MyInterceptor)];
  }
}
