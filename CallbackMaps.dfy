/**
 * CallbackMap: named completion callbacks, one ScopedFunctionContainer per identifier.
 *
 * The std::map from juce::Identifier to an owned container becomes a map from the
 * identifier's text to the container's id in the shared scope registry; the container
 * for an identifier is created the first time something is added under it.
 */
module CallbackMaps {
  import opened ScopeTrackedFunctions

  type Identifier = string

  class CallbackMap {
    var callbacks: map<Identifier, ContainerId>

    /** Every identifier owns a live container of its own. */
    ghost predicate Valid(registry: Registry)
      reads this, registry
    {
      && (forall id :: id in callbacks ==> callbacks[id] in registry.scopes)
      && (forall i, j :: i in callbacks && j in callbacks && i != j ==> callbacks[i] != callbacks[j])
    }

    constructor ()
      ensures callbacks == map[]
    {
      callbacks := map[];
    }

    /**
     * The container for `id`, created (exactly one new container, registered nowhere yet)
     * when the identifier is unknown; the other identifiers keep their containers.
     */
    method ContainerFor(id: Identifier, registry: Registry) returns (c: ContainerId)
      requires registry.Valid() && Valid(registry)
      modifies this, registry
      ensures registry.Valid() && Valid(registry)
      ensures id in callbacks && c == callbacks[id] && c in registry.scopes
      ensures id in old(callbacks) ==>
                callbacks == old(callbacks) && unchanged(registry)
      ensures id !in old(callbacks) ==>
                && callbacks == old(callbacks)[id := c]
                && c == old(registry.nextContainer)
                && registry.State() == WithNewContainer(old(registry.State()))
      ensures forall other :: other in old(callbacks) && other != id ==>
                && other in callbacks && callbacks[other] == old(callbacks)[other] && callbacks[other] != c
                && Triggered(registry.State(), callbacks[other]) == Triggered(old(registry.State()), old(callbacks)[other])
      ensures registry.functions == old(registry.functions)
    {
      if id in callbacks {
        return callbacks[id];
      }
      ghost var a := registry.State();
      c := registry.NewContainer();
      NewContainerConsistent(a);
      callbacks := callbacks[id := c];
    }

    /**
     * add: an unknown identifier first gets exactly one new container; either way the
     * function is then added to the identifier's container under `scope`. The containers
     * of all other identifiers, and what they trigger, stay as they were.
     */
    method Add(id: Identifier, scope: ScopeId, f: FnId, registry: Registry)
      requires registry.Valid() && Valid(registry) && scope in registry.functions
      modifies this, registry
      ensures registry.Valid() && Valid(registry)
      ensures id in old(callbacks) ==>
                && callbacks == old(callbacks)
                && registry.State() == AddSpec(old(registry.State()), callbacks[id], scope, f)
      ensures id !in old(callbacks) ==>
                && callbacks == old(callbacks)[id := old(registry.nextContainer)]
                && registry.State() == AddSpec(WithNewContainer(old(registry.State())), callbacks[id], scope, f)
      ensures id in callbacks && f in Triggered(registry.State(), callbacks[id])
      ensures forall other :: other in old(callbacks) && other != id ==>
                && other in callbacks && callbacks[other] == old(callbacks)[other]
                && Triggered(registry.State(), callbacks[other]) == Triggered(old(registry.State()), old(callbacks)[other])
    {
      var c := ContainerFor(id, registry);
      ghost var b := registry.State();
      registry.Add(c, scope, f);
      AddThenTriggered(b, c, scope, f);
      forall other | other in old(callbacks) && other != id
        ensures Triggered(registry.State(), callbacks[other]) == Triggered(old(registry.State()), old(callbacks)[other])
      {
        AddLeavesOtherContainers(b, c, scope, f, callbacks[other]);
      }
    }

    /** trigger: an unknown identifier triggers nothing; a known one triggers its container. */
    method Trigger(id: Identifier, registry: Registry) returns (calls: seq<FnId>)
      requires registry.Valid() && Valid(registry)
      ensures id !in callbacks ==> calls == []
      ensures id in callbacks ==> calls == Triggered(registry.State(), callbacks[id])
    {
      calls := [];
      if id in callbacks {
        calls := registry.TriggerFunctions(callbacks[id]);
      }
    }
  }
}
