/**
 * Scope-tracked callbacks (FunctionScope / ScopedFunctionContainer), modelled as an arena.
 *
 * Every FunctionScope and every ScopedFunctionContainer is named by an integer id.
 * The three vectors the source keeps in those objects become maps from ids:
 *   scopes[c]     -- ScopedFunctionContainer::scopes of container c
 *   functions[s]  -- FunctionScope::scopedFunctions of scope s
 *   containers[s] -- FunctionScope::containers of scope s
 * A scope is alive while its id is a key of `functions` (and of `containers`).
 * Functions are opaque ids; triggering a container yields the ids it would call, in order.
 *
 * The pure part (Arena and the *Spec functions) states what each operation does;
 * class Registry holds the same state in fields and implements the operations
 * with the loops of the source, each method proved equal to its Spec function.
 */
module ScopeTrackedFunctions {

  type ScopeId = nat
  type ContainerId = nat
  type FnId = nat

  /** A ScopedFunction: the container it was added through, and the function. */
  datatype Entry = Entry(container: ContainerId, fn: FnId)

  datatype Arena = Arena(
    nextScope: nat,
    nextContainer: nat,
    scopes: map<ContainerId, seq<ScopeId>>,
    functions: map<ScopeId, seq<Entry>>,
    containers: map<ScopeId, seq<ContainerId>>)

  /*********************************************************************
   * Sequence helpers: duplicates and std::remove_if
   *********************************************************************/

  predicate NoDup(xs: seq<nat>) {
    forall i, j :: 0 <= i < j < |xs| ==> xs[i] != xs[j]
  }

  /** `xs` with every occurrence of `x` erased, the rest in their order (remove_if + erase). */
  function Without(xs: seq<nat>, x: nat): (r: seq<nat>)
    ensures |r| <= |xs|
  {
    if xs == [] then []
    else if xs[|xs| - 1] == x then Without(xs[..|xs| - 1], x)
    else Without(xs[..|xs| - 1], x) + [xs[|xs| - 1]]
  }

  /** Erasing keeps exactly the other elements. */
  lemma {:induction false} WithoutMembers(xs: seq<nat>, x: nat)
    ensures x !in Without(xs, x)
    ensures forall y :: y in Without(xs, x) <==> y in xs && y != x
  {
    if xs != [] {
      var init := xs[..|xs| - 1];
      WithoutMembers(init, x);
      assert xs == init + [xs[|xs| - 1]];
    }
  }

  /** Erasing distributes over concatenation: the survivors keep their relative order. */
  lemma {:induction false} WithoutAppend(xs: seq<nat>, ys: seq<nat>, x: nat)
    ensures Without(xs + ys, x) == Without(xs, x) + Without(ys, x)
    decreases |ys|
  {
    if ys == [] {
      assert xs + ys == xs;
    } else {
      var yi := ys[..|ys| - 1];
      assert (xs + ys)[..|xs + ys| - 1] == xs + yi;
      WithoutAppend(xs, yi, x);
    }
  }

  /** Erasing an absent element changes nothing. */
  lemma {:induction false} WithoutAbsent(xs: seq<nat>, x: nat)
    requires x !in xs
    ensures Without(xs, x) == xs
  {
    if xs != [] {
      var init := xs[..|xs| - 1];
      assert xs == init + [xs[|xs| - 1]];
      WithoutAbsent(init, x);
    }
  }

  /** Erasing twice is erasing once. */
  lemma WithoutIdempotent(xs: seq<nat>, x: nat)
    ensures Without(Without(xs, x), x) == Without(xs, x)
  {
    WithoutMembers(xs, x);
    WithoutAbsent(Without(xs, x), x);
  }

  /** Erasing from a list without duplicates leaves a list without duplicates. */
  lemma {:induction false} WithoutNoDup(xs: seq<nat>, x: nat)
    requires NoDup(xs)
    ensures NoDup(Without(xs, x))
  {
    if xs != [] {
      var init := xs[..|xs| - 1];
      assert NoDup(init);
      WithoutNoDup(init, x);
      WithoutMembers(init, x);
      if xs[|xs| - 1] != x {
        assert xs[|xs| - 1] !in init;
      }
    }
  }

  /** In a list without duplicates a present element occurs exactly once. */
  lemma {:induction false} NoDupOccursOnce(xs: seq<nat>, x: nat)
    requires NoDup(xs) && x in xs
    ensures multiset(xs)[x] == 1
  {
    var init := xs[..|xs| - 1];
    var last := xs[|xs| - 1];
    assert xs == init + [last];
    assert NoDup(init);
    if last == x {
      assert x !in init;
      assert x !in multiset(init);
    } else {
      assert x in init;
      NoDupOccursOnce(init, x);
    }
  }

  /** std::find: the index of the first `x`, or |xs| when there is none. */
  method IndexOf<T(==)>(xs: seq<T>, x: T) returns (i: nat)
    ensures i <= |xs|
    ensures i < |xs| ==> xs[i] == x
    ensures x !in xs[..i]
  {
    i := 0;
    while i < |xs| && xs[i] != x
      invariant i <= |xs|
      invariant x !in xs[..i]
    {
      i := i + 1;
    }
  }

  /*********************************************************************
   * The registry invariant
   *********************************************************************/

  /** "Scope in container.scopes ==> container in scope.containers", and that scope is alive. */
  ghost predicate BackLinked(a: Arena) {
    forall c: ContainerId, s: ScopeId :: c in a.scopes && s in a.scopes[c] ==> s in a.containers && c in a.containers[s]
  }

  ghost predicate Consistent(a: Arena) {
    && (forall c: ContainerId :: c in a.scopes <==> c < a.nextContainer)
    && (forall s: ScopeId :: s in a.functions <==> s in a.containers)
    && (forall s: ScopeId :: s in a.functions ==> s < a.nextScope)
    && (forall c: ContainerId :: c in a.scopes ==> NoDup(a.scopes[c]))
    && (forall s: ScopeId, c: ContainerId :: s in a.containers && c in a.containers[s] ==> c in a.scopes)
    && BackLinked(a)
  }

  function ScopesOf(a: Arena, c: ContainerId): seq<ScopeId> {
    if c in a.scopes then a.scopes[c] else []
  }

  /*********************************************************************
   * Triggering and counting
   *********************************************************************/

  /** The functions of `es` added through container `c`, in insertion order. */
  function Tagged(es: seq<Entry>, c: ContainerId): seq<FnId> {
    if es == [] then []
    else Tagged(es[..|es| - 1], c) + (if es[|es| - 1].container == c then [es[|es| - 1].fn] else [])
  }

  /** The inner loop of triggerFunctions: the functions of one scope added through `c`, in order. */
  method TaggedIn(es: seq<Entry>, c: ContainerId) returns (fns: seq<FnId>)
    ensures fns == Tagged(es, c)
  {
    fns := [];
    var j := 0;
    while j < |es|
      invariant 0 <= j <= |es|
      invariant fns == Tagged(es[..j], c)
    {
      assert es[..j + 1][..j] == es[..j];
      if es[j].container == c {
        fns := fns + [es[j].fn];
      }
      j := j + 1;
    }
    assert es[..j] == es;
  }

  /** The functions `c` calls for the scopes `ss`, scope by scope. */
  function Collect(fns: map<ScopeId, seq<Entry>>, ss: seq<ScopeId>, c: ContainerId): seq<FnId>
    requires forall s :: s in ss ==> s in fns
  {
    if ss == [] then []
    else Collect(fns, ss[..|ss| - 1], c) + Tagged(fns[ss[|ss| - 1]], c)
  }

  /**
   * The functions triggerFunctions on container `c` calls: none for a container without
   * scopes, and never more than getNumFunctions counts.
   */
  function Triggered(a: Arena, c: ContainerId): (r: seq<FnId>)
    requires Consistent(a)
    ensures ScopesOf(a, c) == [] ==> r == []
    ensures |r| <= NumFunctions(a, c)
  {
    CollectAtMostSizes(a.functions, ScopesOf(a, c), c);
    Collect(a.functions, ScopesOf(a, c), c)
  }

  function SumSizes(fns: map<ScopeId, seq<Entry>>, ss: seq<ScopeId>): nat
    requires forall s :: s in ss ==> s in fns
  {
    if ss == [] then 0 else SumSizes(fns, ss[..|ss| - 1]) + |fns[ss[|ss| - 1]]|
  }

  /**
   * getNumFunctions: every entry of every registered scope counts, whatever container it
   * was added through; a container without scopes counts none.
   */
  function NumFunctions(a: Arena, c: ContainerId): (n: nat)
    requires Consistent(a)
    ensures ScopesOf(a, c) == [] ==> n == 0
    ensures forall s :: s in ScopesOf(a, c) ==> |a.functions[s]| <= n
  {
    SumSizesCountEach(a.functions, ScopesOf(a, c));
    SumSizes(a.functions, ScopesOf(a, c))
  }

  /** Each listed scope's entries are part of the sum. */
  lemma {:induction false} SumSizesCountEach(fns: map<ScopeId, seq<Entry>>, ss: seq<ScopeId>)
    requires forall s :: s in ss ==> s in fns
    ensures forall s :: s in ss ==> |fns[s]| <= SumSizes(fns, ss)
  {
    if ss != [] {
      var init := ss[..|ss| - 1];
      assert forall s :: s in ss ==> s in init || s == ss[|ss| - 1];
      SumSizesCountEach(fns, init);
    }
  }

  /** The outer loop of triggerFunctions: scope by scope, the functions added through `c`. */
  method CollectIn(fns: map<ScopeId, seq<Entry>>, ss: seq<ScopeId>, c: ContainerId) returns (calls: seq<FnId>)
    requires forall s :: s in ss ==> s in fns
    ensures calls == Collect(fns, ss, c)
  {
    calls := [];
    var i := 0;
    while i < |ss|
      invariant 0 <= i <= |ss|
      invariant calls == Collect(fns, ss[..i], c)
    {
      var tagged := TaggedIn(fns[ss[i]], c);
      calls := calls + tagged;
      assert ss[..i + 1] == ss[..i] + [ss[i]];
      CollectAppend(fns, ss[..i], ss[i], c);
      i := i + 1;
    }
    assert ss[..i] == ss;
  }

  /** The loop of getNumFunctions: the sizes of the scopes' function lists, added up. */
  method SumSizesIn(fns: map<ScopeId, seq<Entry>>, ss: seq<ScopeId>) returns (num: nat)
    requires forall s :: s in ss ==> s in fns
    ensures num == SumSizes(fns, ss)
  {
    num := 0;
    var i := 0;
    while i < |ss|
      invariant 0 <= i <= |ss|
      invariant num == SumSizes(fns, ss[..i])
    {
      assert ss[..i + 1][..i] == ss[..i];
      num := num + |fns[ss[i]]|;
      i := i + 1;
    }
    assert ss[..i] == ss;
  }

  lemma {:induction false} TaggedMembers(es: seq<Entry>, c: ContainerId)
    ensures |Tagged(es, c)| <= |es|
    ensures forall f :: f in Tagged(es, c) <==> Entry(c, f) in es
  {
    if es != [] {
      var init := es[..|es| - 1];
      TaggedMembers(init, c);
      assert es == init + [es[|es| - 1]];
    }
  }

  lemma {:induction false} TaggedAppend(es: seq<Entry>, e: Entry, c: ContainerId)
    ensures Tagged(es + [e], c) == Tagged(es, c) + (if e.container == c then [e.fn] else [])
  {
    assert (es + [e])[..|es + [e]| - 1] == es;
  }

  lemma {:induction false} CollectMembers(fns: map<ScopeId, seq<Entry>>, ss: seq<ScopeId>, c: ContainerId)
    requires forall s :: s in ss ==> s in fns
    ensures forall f :: f in Collect(fns, ss, c) <==> exists s :: s in ss && Entry(c, f) in fns[s]
  {
    if ss != [] {
      var init := ss[..|ss| - 1];
      var last := ss[|ss| - 1];
      assert ss == init + [last];
      CollectMembers(fns, init, c);
      TaggedMembers(fns[last], c);
    }
  }

  lemma {:induction false} CollectAtMostSizes(fns: map<ScopeId, seq<Entry>>, ss: seq<ScopeId>, c: ContainerId)
    requires forall s :: s in ss ==> s in fns
    ensures |Collect(fns, ss, c)| <= SumSizes(fns, ss)
  {
    if ss != [] {
      CollectAtMostSizes(fns, ss[..|ss| - 1], c);
      TaggedMembers(fns[ss[|ss| - 1]], c);
    }
  }

  /** Collect only looks at the entries of `c` of the scopes it visits. */
  lemma {:induction false} CollectFrame(f1: map<ScopeId, seq<Entry>>, f2: map<ScopeId, seq<Entry>>, ss: seq<ScopeId>, c: ContainerId)
    requires forall s :: s in ss ==> s in f1 && s in f2 && Tagged(f1[s], c) == Tagged(f2[s], c)
    ensures Collect(f1, ss, c) == Collect(f2, ss, c)
  {
    if ss != [] {
      CollectFrame(f1, f2, ss[..|ss| - 1], c);
    }
  }

  lemma {:induction false} CollectAppend(fns: map<ScopeId, seq<Entry>>, ss: seq<ScopeId>, s: ScopeId, c: ContainerId)
    requires forall x :: x in ss ==> x in fns
    requires s in fns
    ensures Collect(fns, ss + [s], c) == Collect(fns, ss, c) + Tagged(fns[s], c)
  {
    assert (ss + [s])[..|ss + [s]| - 1] == ss;
  }

  /** triggerFunctions calls f exactly when some registered scope holds f tagged with this container. */
  lemma TriggeredIff(a: Arena, c: ContainerId, f: FnId)
    requires Consistent(a)
    ensures f in Triggered(a, c) <==> exists s :: s in ScopesOf(a, c) && Entry(c, f) in a.functions[s]
  {
    CollectMembers(a.functions, ScopesOf(a, c), c);
  }

  /*********************************************************************
   * Constructors
   *********************************************************************/

  function Empty(): Arena {
    Arena(0, 0, map[], map[], map[])
  }

  /** FunctionScope(): a fresh scope with no functions and no containers. */
  function WithNewScope(a: Arena): Arena {
    a.(nextScope := a.nextScope + 1,
       functions := a.functions[a.nextScope := []],
       containers := a.containers[a.nextScope := []])
  }

  /** ScopedFunctionContainer(): a fresh container with no scopes. */
  function WithNewContainer(a: Arena): Arena {
    a.(nextContainer := a.nextContainer + 1, scopes := a.scopes[a.nextContainer := []])
  }

  lemma NewScopeConsistent(a: Arena)
    requires Consistent(a)
    ensures Consistent(WithNewScope(a))
    ensures forall c :: Triggered(WithNewScope(a), c) == Triggered(a, c)
  {
    var b := WithNewScope(a);
    forall c: ContainerId, x: ScopeId | c in a.scopes && x in a.scopes[c]
      ensures x < a.nextScope
    {
      assert x in a.containers;
      assert x in a.functions;
    }
    forall c ensures Triggered(b, c) == Triggered(a, c) {
      CollectFrame(b.functions, a.functions, ScopesOf(a, c), c);
    }
  }

  lemma NewContainerConsistent(a: Arena)
    requires Consistent(a)
    ensures Consistent(WithNewContainer(a))
    ensures Triggered(WithNewContainer(a), a.nextContainer) == []
    ensures forall c :: c != a.nextContainer ==> Triggered(WithNewContainer(a), c) == Triggered(a, c)
  {
  }

  /*********************************************************************
   * add, remove and the FunctionScope destructor
   *********************************************************************/

  /** ScopedFunctionContainer::add: addFunctionToScope, then registerContainerToScope. */
  function AddSpec(a: Arena, c: ContainerId, s: ScopeId, f: FnId): (r: Arena)
    requires c in a.scopes && s in a.functions && s in a.containers
    ensures r.nextScope == a.nextScope && r.nextContainer == a.nextContainer
    ensures r.scopes.Keys == a.scopes.Keys && r.functions.Keys == a.functions.Keys && r.containers.Keys == a.containers.Keys
    ensures forall x :: x in a.functions && x != s ==> r.functions[x] == a.functions[x]
    ensures forall x :: x in a.containers && x != s ==> r.containers[x] == a.containers[x]
    ensures forall d :: d in a.scopes && d != c ==> r.scopes[d] == a.scopes[d]
  {
    var a1 := a.(functions := a.functions[s := a.functions[s] + [Entry(c, f)]]);
    if s in a.scopes[c] then a1
    else a1.(containers := a1.containers[s := a1.containers[s] + [c]],
             scopes := a1.scopes[c := a1.scopes[c] + [s]])
  }

  /** ScopedFunctionContainer::remove. */
  function RemoveSpec(a: Arena, c: ContainerId, s: ScopeId): (r: Arena)
    requires c in a.scopes
    ensures r.functions == a.functions && r.containers == a.containers
    ensures r.nextScope == a.nextScope && r.nextContainer == a.nextContainer
    ensures r.scopes.Keys == a.scopes.Keys && s !in r.scopes[c]
    ensures forall d :: d in a.scopes && d != c ==> r.scopes[d] == a.scopes[d]
  {
    WithoutMembers(a.scopes[c], s);
    a.(scopes := a.scopes[c := Without(a.scopes[c], s)])
  }

  /** remove(s) on each container of `cs`, first to last. */
  function RemoveEach(a: Arena, cs: seq<ContainerId>, s: ScopeId): (r: Arena)
    requires forall c :: c in cs ==> c in a.scopes
    ensures r == a.(scopes := r.scopes)
    ensures r.scopes.Keys == a.scopes.Keys
    ensures forall c :: c in r.scopes ==> r.scopes[c] == if c in cs then Without(a.scopes[c], s) else a.scopes[c]
  {
    if cs == [] then a
    else
      var prev := RemoveEach(a, cs[..|cs| - 1], s);
      var last := cs[|cs| - 1];
      assert forall c :: c in cs ==> c in cs[..|cs| - 1] || c == last;
      WithoutIdempotent(a.scopes[last], s);
      RemoveSpec(prev, last, s)
  }

  /** One more container of the list: RemoveEach of a prefix one longer is one more RemoveSpec. */
  lemma RemoveEachSnoc(a: Arena, cs: seq<ContainerId>, i: nat, s: ScopeId)
    requires i < |cs| && forall c :: c in cs ==> c in a.scopes
    ensures cs[i] in RemoveEach(a, cs[..i], s).scopes
    ensures RemoveEach(a, cs[..i + 1], s) == RemoveSpec(RemoveEach(a, cs[..i], s), cs[i], s)
  {
    assert cs[..i + 1][..i] == cs[..i];
  }

  /** ~FunctionScope: the scope is erased from every container, then ceases to exist. */
  function DestroySpec(a: Arena, s: ScopeId): (r: Arena)
    ensures s !in r.functions && s !in r.containers && r.scopes.Keys == a.scopes.Keys
    ensures r.functions.Keys == a.functions.Keys - {s} && r.containers.Keys == a.containers.Keys - {s}
    ensures r.nextScope == a.nextScope && r.nextContainer == a.nextContainer
    ensures forall x :: x in r.functions ==> x in a.functions && r.functions[x] == a.functions[x]
    ensures forall x :: x in r.containers ==> x in a.containers && r.containers[x] == a.containers[x]
  {
    a.(scopes := map c | c in a.scopes :: Without(a.scopes[c], s),
       functions := a.functions - {s},
       containers := a.containers - {s})
  }

  lemma AddConsistent(a: Arena, c: ContainerId, s: ScopeId, f: FnId)
    requires Consistent(a) && c in a.scopes && s in a.functions
    ensures Consistent(AddSpec(a, c, s, f))
  {
    var b := AddSpec(a, c, s, f);
    if s !in a.scopes[c] {
      assert NoDup(b.scopes[c]);
    }
  }

  /** add appends (c, f) to the end of the scope's functions and registers the scope exactly once. */
  lemma AddEffect(a: Arena, c: ContainerId, s: ScopeId, f: FnId)
    requires Consistent(a) && c in a.scopes && s in a.functions
    ensures AddSpec(a, c, s, f).functions == a.functions[s := a.functions[s] + [Entry(c, f)]]
    ensures multiset(AddSpec(a, c, s, f).scopes[c])[s] == 1
    ensures s in a.scopes[c] ==> AddSpec(a, c, s, f).scopes == a.scopes && AddSpec(a, c, s, f).containers == a.containers
    ensures s !in a.scopes[c] ==>
              && AddSpec(a, c, s, f).scopes[c] == a.scopes[c] + [s]
              && AddSpec(a, c, s, f).containers[s] == a.containers[s] + [c]
  {
    AddConsistent(a, c, s, f);
    NoDupOccursOnce(AddSpec(a, c, s, f).scopes[c], s);
  }

  /** A second add with the same scope does not register it again. */
  lemma AddTwiceRegistersOnce(a: Arena, c: ContainerId, s: ScopeId, f: FnId, g: FnId)
    requires Consistent(a) && c in a.scopes && s in a.functions
    ensures var b := AddSpec(a, c, s, f);
            AddSpec(b, c, s, g).scopes == b.scopes && AddSpec(b, c, s, g).containers == b.containers
  {
  }

  /** After add, a trigger of the same container calls the new function. */
  lemma AddThenTriggered(a: Arena, c: ContainerId, s: ScopeId, f: FnId)
    requires Consistent(a) && c in a.scopes && s in a.functions
    ensures Consistent(AddSpec(a, c, s, f))
    ensures f in Triggered(AddSpec(a, c, s, f), c)
  {
    AddConsistent(a, c, s, f);
    var b := AddSpec(a, c, s, f);
    assert Entry(c, f) in b.functions[s];
    TriggeredIff(b, c, f);
  }

  /** add through one container changes what no other container triggers. */
  lemma AddLeavesOtherContainers(a: Arena, c: ContainerId, s: ScopeId, f: FnId, other: ContainerId)
    requires Consistent(a) && c in a.scopes && s in a.functions && other != c
    ensures Consistent(AddSpec(a, c, s, f))
    ensures Triggered(AddSpec(a, c, s, f), other) == Triggered(a, other)
  {
    AddConsistent(a, c, s, f);
    var b := AddSpec(a, c, s, f);
    TaggedAppend(a.functions[s], Entry(c, f), other);
    CollectFrame(b.functions, a.functions, ScopesOf(a, other), other);
  }

  lemma RemoveConsistent(a: Arena, c: ContainerId, s: ScopeId)
    requires Consistent(a) && c in a.scopes
    ensures Consistent(RemoveSpec(a, c, s))
  {
    WithoutMembers(a.scopes[c], s);
    WithoutNoDup(a.scopes[c], s);
  }

  /** remove erases every occurrence, keeps the others in order, and is idempotent. */
  lemma RemoveEffect(a: Arena, c: ContainerId, s: ScopeId)
    requires c in a.scopes
    ensures s !in RemoveSpec(a, c, s).scopes[c]
    ensures forall x :: x in RemoveSpec(a, c, s).scopes[c] <==> x in a.scopes[c] && x != s
    ensures forall xs, ys :: a.scopes[c] == xs + ys ==>
              RemoveSpec(a, c, s).scopes[c] == Without(xs, s) + Without(ys, s)
    ensures RemoveSpec(RemoveSpec(a, c, s), c, s) == RemoveSpec(a, c, s)
  {
    WithoutMembers(a.scopes[c], s);
    WithoutIdempotent(a.scopes[c], s);
    forall xs, ys | a.scopes[c] == xs + ys
      ensures RemoveSpec(a, c, s).scopes[c] == Without(xs, s) + Without(ys, s)
    {
      WithoutAppend(xs, ys, s);
    }
  }

  /** remove leaves the scope's own entries in place: adding it again revives them. */
  lemma RemoveThenAddRevives(a: Arena, c: ContainerId, s: ScopeId, f: FnId, g: FnId)
    requires Consistent(a) && c in a.scopes && s in a.functions
    ensures var b := RemoveSpec(AddSpec(a, c, s, f), c, s);
            && Consistent(b) && Entry(c, f) in b.functions[s] && s !in b.scopes[c]
            && Consistent(AddSpec(b, c, s, g))
            && f in Triggered(AddSpec(b, c, s, g), c)
  {
    AddConsistent(a, c, s, f);
    var a1 := AddSpec(a, c, s, f);
    RemoveConsistent(a1, c, s);
    var b := RemoveSpec(a1, c, s);
    WithoutMembers(a1.scopes[c], s);
    AddConsistent(b, c, s, g);
    var d := AddSpec(b, c, s, g);
    assert Entry(c, f) in d.functions[s];
    TriggeredIff(d, c, f);
  }

  /**
   * What the destructor's loop does -- remove(s) on every container in the scope's own
   * list -- erases the scope from every container: the back-links reach all of them.
   */
  lemma {:induction false} RemoveEachReachesAll(a: Arena, s: ScopeId)
    requires Consistent(a) && s in a.functions
    ensures RemoveEach(a, a.containers[s], s).scopes == DestroySpec(a, s).scopes
  {
    var cs := a.containers[s];
    var r := RemoveEach(a, cs, s);
    var d := DestroySpec(a, s);
    forall c | c in a.scopes
      ensures r.scopes[c] == d.scopes[c]
    {
      if c !in cs {
        assert s !in a.scopes[c];
        WithoutAbsent(a.scopes[c], s);
      }
    }
  }

  /** The destructor's loop followed by dropping the scope's own lists is DestroySpec. */
  lemma DestroyByRemoveEach(a: Arena, s: ScopeId)
    requires Consistent(a) && s in a.functions
    ensures var r := RemoveEach(a, a.containers[s], s);
            r.(functions := r.functions - {s}, containers := r.containers - {s}) == DestroySpec(a, s)
    ensures Consistent(DestroySpec(a, s))
  {
    RemoveEachReachesAll(a, s);
    DestroyEffect(a, s);
  }

  lemma DestroyEffect(a: Arena, s: ScopeId)
    requires Consistent(a) && s in a.functions
    ensures Consistent(DestroySpec(a, s))
    ensures forall c :: s !in ScopesOf(DestroySpec(a, s), c)
    ensures forall c, x :: x in ScopesOf(DestroySpec(a, s), c) <==> x in ScopesOf(a, c) && x != s
  {
    var d := DestroySpec(a, s);
    forall c | c in a.scopes
      ensures s !in d.scopes[c]
      ensures NoDup(d.scopes[c])
      ensures forall x :: x in d.scopes[c] <==> x in a.scopes[c] && x != s
    {
      DestroyedContainer(a, s, c);
    }
  }

  /** What destroying scope `s` leaves in one container's list. */
  lemma DestroyedContainer(a: Arena, s: ScopeId, c: ContainerId)
    requires Consistent(a) && c in a.scopes
    ensures var r := DestroySpec(a, s).scopes[c];
            && s !in r && NoDup(r)
            && forall x :: x in r <==> x in a.scopes[c] && x != s
  {
    WithoutMembers(a.scopes[c], s);
    WithoutNoDup(a.scopes[c], s);
  }

  /**
   * The safety property: once a scope is destroyed no container holds it, and a trigger
   * calls exactly the functions of the other scopes that were registered.
   */
  lemma DestroyedScopeSilenced(a: Arena, s: ScopeId, c: ContainerId, f: FnId)
    requires Consistent(a) && s in a.functions
    ensures s !in ScopesOf(DestroySpec(a, s), c)
    ensures Consistent(DestroySpec(a, s))
    ensures f in Triggered(DestroySpec(a, s), c) <==>
            exists x :: x != s && x in ScopesOf(a, c) && Entry(c, f) in a.functions[x]
  {
    DestroyEffect(a, s);
    TriggeredIff(DestroySpec(a, s), c, f);
  }

  /*********************************************************************
   * The objects, as one arena of fields
   *********************************************************************/

  class Registry {
    var nextScope: nat
    var nextContainer: nat
    var scopes: map<ContainerId, seq<ScopeId>>
    var functions: map<ScopeId, seq<Entry>>
    var containers: map<ScopeId, seq<ContainerId>>

    function State(): Arena
      reads this
    {
      Arena(nextScope, nextContainer, scopes, functions, containers)
    }

    ghost predicate Valid()
      reads this
    {
      Consistent(State())
    }

    constructor ()
      ensures Valid() && State() == Empty()
    {
      nextScope, nextContainer := 0, 0;
      scopes, functions, containers := map[], map[], map[];
    }

    /** FunctionScope::FunctionScope */
    method NewScope() returns (s: ScopeId)
      requires Valid()
      modifies this
      ensures Valid()
      ensures s == old(nextScope) && s !in old(functions)
      ensures State() == WithNewScope(old(State()))
    {
      s := nextScope;
      NewScopeConsistent(State());
      functions := functions[s := []];
      containers := containers[s := []];
      nextScope := nextScope + 1;
    }

    /** ScopedFunctionContainer::ScopedFunctionContainer */
    method NewContainer() returns (c: ContainerId)
      requires Valid()
      modifies this
      ensures Valid()
      ensures c == old(nextContainer) && c !in old(scopes)
      ensures State() == WithNewContainer(old(State()))
    {
      c := nextContainer;
      NewContainerConsistent(State());
      scopes := scopes[c := []];
      nextContainer := nextContainer + 1;
    }

    /** ScopedFunctionContainer::add (with addFunctionToScope and registerContainerToScope). */
    method Add(c: ContainerId, s: ScopeId, f: FnId)
      requires Valid() && c in scopes && s in functions
      modifies this
      ensures Valid()
      ensures State() == AddSpec(old(State()), c, s, f)
    {
      AddConsistent(State(), c, s, f);
      functions := functions[s := functions[s] + [Entry(c, f)]];
      var i := IndexOf(scopes[c], s);
      if i == |scopes[c]| {
        assert scopes[c][..i] == scopes[c];
        containers := containers[s := containers[s] + [c]];
        scopes := scopes[c := scopes[c] + [s]];
      }
    }

    /** ScopedFunctionContainer::remove: remove_if compacts the survivors, erase drops the tail. */
    method Remove(c: ContainerId, s: ScopeId)
      requires Valid() && c in scopes
      modifies this
      ensures Valid()
      ensures State() == RemoveSpec(old(State()), c, s)
    {
      RemoveConsistent(State(), c, s);
      var xs := scopes[c];
      var kept: seq<ScopeId> := [];
      var i := 0;
      while i < |xs|
        invariant 0 <= i <= |xs|
        invariant kept == Without(xs[..i], s)
      {
        assert xs[..i + 1][..i] == xs[..i];
        if xs[i] != s {
          kept := kept + [xs[i]];
        }
        i := i + 1;
      }
      assert xs[..i] == xs;
      scopes := scopes[c := kept];
    }

    /** The destructor's loop: remove(s) on each container of `cs`, first to last. */
    method RemoveFromContainers(cs: seq<ContainerId>, s: ScopeId)
      requires Valid() && forall c :: c in cs ==> c in scopes
      modifies this
      ensures Valid()
      ensures State() == RemoveEach(old(State()), cs, s)
    {
      ghost var a := State();
      var i := 0;
      while i < |cs|
        invariant 0 <= i <= |cs|
        invariant forall c :: c in cs ==> c in a.scopes
        invariant Valid()
        invariant State() == RemoveEach(a, cs[..i], s)
      {
        RemoveEachSnoc(a, cs, i, s);
        Remove(cs[i], s);
        i := i + 1;
      }
      assert cs[..i] == cs;
    }

    /** FunctionScope::~FunctionScope: remove this scope from every container in its list. */
    method Destroy(s: ScopeId)
      requires Valid() && s in functions
      modifies this
      ensures Valid()
      ensures State() == DestroySpec(old(State()), s)
    {
      ghost var a := State();
      DestroyByRemoveEach(a, s);
      RemoveFromContainers(containers[s], s);
      ghost var r := State();
      functions := functions - {s};
      containers := containers - {s};
      assert State() == r.(functions := r.functions - {s}, containers := r.containers - {s});
    }

    /** ScopedFunctionContainer::triggerFunctions: the functions it calls, in call order; changes nothing. */
    method TriggerFunctions(c: ContainerId) returns (calls: seq<FnId>)
      requires Valid()
      ensures calls == Triggered(State(), c)
    {
      calls := [];
      if c in scopes {
        calls := CollectIn(functions, scopes[c], c);
      }
    }

    /** ScopedFunctionContainer::getNumFunctions */
    method GetNumFunctions(c: ContainerId) returns (num: nat)
      requires Valid()
      ensures num == NumFunctions(State(), c)
      ensures num >= |Triggered(State(), c)|
    {
      num := 0;
      if c in scopes {
        num := SumSizesIn(functions, scopes[c]);
      }
    }

    /** ScopedFunctionContainer::getNumScopes */
    function GetNumScopes(c: ContainerId): (n: nat)
      reads this
      requires Valid()
      ensures n == |ScopesOf(State(), c)|
      ensures n == 0 ==> Triggered(State(), c) == []
    {
      if c in scopes then |scopes[c]| else 0
    }
  }
}
