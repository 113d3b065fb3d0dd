/**
 * The dependency-injection container the interception pass works on, reduced
 * to what the pass relies on: a list of type registrations, constant-factory
 * registrations, a parent to fall back to, and resolution by (type, name).
 */
module Containers {
  import opened Types

  predicate HasKey(regs: seq<Registration>, k: Key) {
    exists i :: 0 <= i < |regs| && KeyOf(regs[i]) == k
  }

  /** The registration most recently added for key `k`, if any. */
  function LastWithKey(regs: seq<Registration>, k: Key): (r: Option<Registration>)
    ensures r.None? <==> !HasKey(regs, k)
    ensures r.Some? ==> exists i :: 0 <= i < |regs| && regs[i] == r.value && KeyOf(regs[i]) == k
                                   && forall j :: i < j < |regs| ==> KeyOf(regs[j]) != k
  {
    if regs == [] then None
    else if KeyOf(regs[|regs| - 1]) == k then Some(regs[|regs| - 1])
    else
      var r := LastWithKey(regs[..|regs| - 1], k);
      assert forall i :: 0 <= i < |regs| - 1 ==> regs[..|regs| - 1][i] == regs[i];
      r
  }

  /** `regs` without the registrations for key `k`, in their original order. */
  function RemoveKey(regs: seq<Registration>, k: Key): (r: seq<Registration>)
    ensures forall x :: x in r <==> x in regs && KeyOf(x) != k
    ensures |r| <= |regs|
  {
    if regs == [] then []
    else (if KeyOf(regs[0]) == k then [] else [regs[0]]) + RemoveKey(regs[1..], k)
  }

  predicate UniqueKeys(regs: seq<Registration>) {
    forall i, j :: 0 <= i < j < |regs| ==> KeyOf(regs[i]) != KeyOf(regs[j])
  }

  /** Registering replaces whatever was registered for the same key, so keys stay unique. */
  lemma {:induction false} RegisterKeepsKeysUnique(regs: seq<Registration>, r: Registration)
    requires UniqueKeys(regs)
    ensures UniqueKeys(RemoveKey(regs, KeyOf(r)) + [r])
    ensures r in RemoveKey(regs, KeyOf(r)) + [r]
  {
    RemoveKeyKeepsKeysUnique(regs, KeyOf(r));
    var s := RemoveKey(regs, KeyOf(r));
    forall i, j | 0 <= i < j < |s + [r]|
      ensures KeyOf((s + [r])[i]) != KeyOf((s + [r])[j])
    {
      if j == |s| {
        assert (s + [r])[i] == s[i];
        assert s[i] in s;
      } else {
        assert (s + [r])[i] == s[i] && (s + [r])[j] == s[j];
      }
    }
  }

  lemma {:induction false} RemoveKeyKeepsKeysUnique(regs: seq<Registration>, k: Key)
    requires UniqueKeys(regs)
    ensures UniqueKeys(RemoveKey(regs, k))
  {
    if regs != [] {
      var tail := regs[1..];
      assert UniqueKeys(tail) by {
        forall i, j | 0 <= i < j < |tail| ensures KeyOf(tail[i]) != KeyOf(tail[j]) {
          assert tail[i] == regs[i + 1] && tail[j] == regs[j + 1];
        }
      }
      RemoveKeyKeepsKeysUnique(tail, k);
      var rest := RemoveKey(tail, k);
      var head := if KeyOf(regs[0]) == k then [] else [regs[0]];
      forall x | x in rest ensures KeyOf(x) != KeyOf(regs[0]) {
        assert x in tail;
        var j :| 0 <= j < |tail| && tail[j] == x;
        assert regs[j + 1] == x;
      }
      forall i, j | 0 <= i < j < |head + rest|
        ensures KeyOf((head + rest)[i]) != KeyOf((head + rest)[j])
      {
        if i < |head| {
          assert (head + rest)[j] == rest[j - |head|];
          assert rest[j - |head|] in rest;
        } else {
          assert (head + rest)[i] == rest[i - |head|] && (head + rest)[j] == rest[j - |head|];
        }
      }
    }
  }

  class Container {
    /** The container this one falls back to; null for a root container. */
    const parent: Container?
    ghost const depth: nat
    ghost const ancestors: set<Container>

    /** Type mappings, in registration order. */
    var registrations: seq<Registration>
    /** Keys registered with a factory that always returns one fixed object. */
    var factories: map<Key, Obj>

    /** The parent chain is finite and `ancestors` is exactly that chain. */
    ghost predicate Linked()
      decreases depth
    {
      if parent == null then ancestors == {}
      else parent.depth < depth && ancestors == {parent} + parent.ancestors && parent.Linked()
    }

    /** `new UnityContainer()`: an empty root container. */
    constructor ()
      ensures Linked() && parent == null
      ensures registrations == [] && factories == map[]
    {
      parent := null;
      depth := 0;
      ancestors := {};
      registrations := [];
      factories := map[];
    }

    /** `p.CreateChildContainer()`: an empty container that falls back to `p`. */
    constructor CreateChild(p: Container)
      requires p.Linked()
      ensures Linked() && parent == p && ancestors == {p} + p.ancestors
      ensures registrations == [] && factories == map[]
    {
      parent := p;
      depth := p.depth + 1;
      ancestors := {p} + p.ancestors;
      registrations := [];
      factories := map[];
    }

    /** `RegisterType(registeredType, mappedToType, name)`: replaces any earlier entry for the key. */
    method RegisterType(r: Registration)
      modifies this
      ensures registrations == RemoveKey(old(registrations), KeyOf(r)) + [r]
      ensures factories == old(factories) - {KeyOf(r)}
    {
      registrations := RemoveKey(registrations, KeyOf(r)) + [r];
      factories := factories - {KeyOf(r)};
    }

    /** `RegisterFactory(type, name, c => obj)`: replaces any earlier entry for the key. */
    method RegisterFactory(k: Key, obj: Obj)
      modifies this
      ensures factories == old(factories)[k := obj]
      ensures registrations == RemoveKey(old(registrations), k)
    {
      factories := factories[k := obj];
      registrations := RemoveKey(registrations, k);
    }

    /** What this container alone yields for `k`, or `None` when it has nothing for `k`. */
    function Lookup(k: Key, meta: Metadata): (r: Option<Result<Obj, Error>>)
      reads this
      ensures r.Some? <==> k in factories || HasKey(registrations, k)
      ensures k in factories ==> r == Some(Success(factories[k]))
    {
      if k in factories then Some(Success(factories[k]))
      else match LastWithKey(registrations, k)
        case None => None
        case Some(reg) =>
          Some(if meta(reg.mappedToType).buildable then Success(Instance(reg.mappedToType))
               else Failure(BuildFailed(reg.mappedToType)))
    }

    /** `IsRegistered(type, name)`: this container or one of its ancestors has the key. */
    predicate IsRegistered(k: Key)
      requires Linked()
      reads this, ancestors
      decreases depth
    {
      k in factories || HasKey(registrations, k) || (parent != null && parent.IsRegistered(k))
    }

    /**
     * `Resolve(type, name)`: the nearest container of the chain that has the
     * key decides; a key no container has is a resolution error.
     */
    function Resolve(k: Key, meta: Metadata): (r: Result<Obj, Error>)
      requires Linked()
      reads this, ancestors
      decreases depth
      ensures (r.Failure? && r.error.NotRegistered?) <==> !IsRegistered(k)
      ensures !IsRegistered(k) ==> r == Failure(NotRegistered(k))
      ensures k in factories ==> r == Success(factories[k])
    {
      match Lookup(k, meta)
      case Some(res) => res
      case None => if parent == null then Failure(NotRegistered(k)) else parent.Resolve(k, meta)
    }
  }
}
