/**
 * The data model shared by every part of the project: the reflection table
 * that stands for .NET type metadata, registrations and keys of the
 * dependency-injection container, the objects a container hands out, and the
 * errors the modelled code can raise.
 */
module Types {

  datatype Option<+T> = None | Some(value: T)

  /** A failure-compatible result: `Failure` stands for a thrown exception. */
  datatype Result<+T, +E> = Success(value: T) | Failure(error: E) {
    predicate IsFailure() { Failure? }

    function PropagateFailure<U>(): Result<U, E>
      requires Failure?
    {
      Failure(error)
    }

    function Extract(): T
      requires Success?
    {
      value
    }
  }

  /** A type is identified by its full name. */
  type TypeName = string

  /** The interception capability every interceptor implements. */
  const IInterceptor: TypeName := "Castle.DynamicProxy.IInterceptor"

  /** One `[InterceptWith(typeof(X), order)]` attribute on a class. */
  datatype InterceptWith = InterceptWith(interceptor: TypeName, order: int)

  /**
   * What reflection reports about one type.
   *  - interfaces: every interface the type implements (GetInterfaces)
   *  - assignableTo: every other type T with typeof(T).IsAssignableFrom(this)
   *  - interceptWith: its InterceptWith attributes, in the order reflection lists them
   *  - activatable: Activator.CreateInstance succeeds on it
   *  - buildable: the container can construct it when it is the target of a mapping
   */
  datatype TypeInfo = TypeInfo(
    isInterface: bool,
    isClass: bool,
    isAbstract: bool,
    interfaces: set<TypeName>,
    assignableTo: set<TypeName>,
    interceptWith: seq<InterceptWith>,
    activatable: bool,
    buildable: bool)

  /** The reflection table: metadata for every type name. */
  type Metadata = TypeName -> TypeInfo

  predicate ImplementsInterceptor(meta: Metadata, t: TypeName) {
    IInterceptor in meta(t).interfaces
  }

  /** typeof(target).IsAssignableFrom(t); every type is assignable to itself. */
  predicate IsAssignableFrom(meta: Metadata, target: TypeName, t: TypeName) {
    t == target || target in meta(t).assignableTo
  }

  /** A container name; `None` is the default (null) name. */
  type Name = Option<string>

  datatype Key = Key(registeredType: TypeName, name: Name)

  /** One entry of a container's Registrations. */
  datatype Registration = Registration(registeredType: TypeName, mappedToType: TypeName, name: Name)

  function KeyOf(r: Registration): Key {
    Key(r.registeredType, r.name)
  }

  /**
   * The objects the model passes around: a null reference, an instance of a
   * type, or an interface proxy over a target with its ordered interceptor
   * chain (the first element is the outermost interceptor).
   */
  datatype Obj =
    | Null
    | Instance(ofType: TypeName)
    | Proxy(interfaceType: TypeName, target: Obj, chain: seq<Obj>)

  /** An assembly: its full name and the types GetTypes reports, or a load failure. */
  datatype Assembly = Assembly(fullName: string, types: seq<TypeName>, typesLoad: bool)

  datatype Error =
    | NotConfigured                  // neither a name selector nor an explicit assembly list is set
    | NullArgument                   // AddRange given a null list
    | ActivationFailed(typeName: TypeName)  // Activator.CreateInstance threw
    | NotRegistered(key: Key)        // the container has nothing for the key
    | BuildFailed(typeName: TypeName)    // the container could not construct the mapped type
    | TypeLoadFailed(assembly: string)  // Assembly.GetTypes threw
}
