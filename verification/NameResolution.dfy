/** has_capabilities: how a name is resolved in the registry, and why a resolution stays what it is. */
module NameResolution {
  import opened Common
  import opened ImplicitExport
  import opened Registry
  import opened RegistryRuns

  /** `lower` is str.lower, `order` the iteration order of a set of names. */
  datatype Text = Text(lower: string -> string, order: set<Name> -> seq<Name>)
  {
    ghost predicate Valid() {
      forall s: set<Name> :: |order(s)| == |s| && forall n :: n in order(s) <==> n in s
    }
  }

  datatype Resolution = AsFlavor(cls: ClassId) | AsInterface(cls: ClassId) | AsCapability(cls: ClassId) | Unrecognized

  /** `sorted(names, key=...)[0]`: the first of the interfaces with the shortest method resolution order. */
  function Broadest(c: Classes, interfaces: Names, names: seq<Name>): (r: Name)
    requires names != [] && forall n | n in names :: n in interfaces
    ensures r in names
    ensures forall n | n in names :: |c.mro(interfaces[r])| <= |c.mro(interfaces[n])|
  {
    var k := |names| - 1;
    assert names == names[..k] + [names[k]];
    if k == 0 then names[0]
    else
      var best := Broadest(c, interfaces, names[..k]);
      if |c.mro(interfaces[names[k]])| < |c.mro(interfaces[best])| then names[k] else best
  }

  ghost predicate Resolvable(c: Classes, e: Extensions) {
    ListsInterfaces(c, e.interfaces, e.capabilities) && Inhabited(e.capabilities)
  }

  ghost function Resolve(t: Text, c: Classes, e: Extensions, name: Name): Resolution
    requires t.Valid() && Resolvable(c, e)
  {
    if name in e.flavors then AsFlavor(e.flavors[name])
    else if name in e.interfaces then AsInterface(e.interfaces[name])
    else if name in e.capabilities then
      AsCapability(e.interfaces[Broadest(c, e.interfaces, t.order(e.capabilities[name]))])
    else Unrecognized
  }

  /** Some supported flavor is a subclass of the class asked for. */
  predicate Supports(c: Classes, supported: set<ClassId>, cls: ClassId) {
    exists f | f in supported :: c.isSubclass(f, cls)
  }

  ghost predicate Has(t: Text, c: Classes, e: Extensions, supported: set<ClassId>, name: Name)
    requires t.Valid() && Resolvable(c, e)
  {
    var r := Resolve(t, c, e, t.lower(name));
    r != Unrecognized && Supports(c, supported, r.cls)
  }

  // ---------------------------------------------------------------------------------------------------------------
  // What a name means, and what a device class has
  // ---------------------------------------------------------------------------------------------------------------

  /** The first of the listed interfaces that have the shortest method resolution order. */
  ghost predicate IsBroadest(c: Classes, interfaces: Names, names: seq<Name>, k: nat) {
    && k < |names| && (forall n | n in names :: n in interfaces)
    && (forall j | 0 <= j < |names| :: |c.mro(interfaces[names[k]])| <= |c.mro(interfaces[names[j]])|)
    && forall j | 0 <= j < k :: |c.mro(interfaces[names[k]])| < |c.mro(interfaces[names[j]])|
  }

  lemma {:induction false} BroadestAt(c: Classes, interfaces: Names, names: seq<Name>) returns (k: nat)
    requires names != [] && forall n | n in names :: n in interfaces
    ensures IsBroadest(c, interfaces, names, k) && names[k] == Broadest(c, interfaces, names)
  {
    var m := |names| - 1;
    assert names == names[..m] + [names[m]];
    if m == 0 {
      k := 0;
    } else {
      k := BroadestAt(c, interfaces, names[..m]);
      assert names[..m][k] == names[k] && forall j | 0 <= j < m :: names[..m][j] == names[j];
      if |c.mro(interfaces[names[m]])| < |c.mro(interfaces[names[k]])| { k := m; }
    }
  }

  /** The class that a name stands for: the flavor of that name, else the interface, else the broadest interface of the
      capability. */
  ghost predicate Means(t: Text, c: Classes, e: Extensions, n: Name, cls: ClassId) {
    if n in e.flavors then cls == e.flavors[n]
    else if n in e.interfaces then cls == e.interfaces[n]
    else n in e.capabilities && BroadestOf(c, e, t.order(e.capabilities[n]), cls)
  }

  ghost predicate BroadestOf(c: Classes, e: Extensions, listed: seq<Name>, cls: ClassId) {
    exists k: nat :: IsBroadest(c, e.interfaces, listed, k) && cls == e.interfaces[listed[k]]
  }

  lemma BroadestOfMeans(c: Classes, e: Extensions, listed: seq<Name>)
    requires listed != [] && forall n | n in listed :: n in e.interfaces
    ensures forall cls :: BroadestOf(c, e, listed, cls) <==> cls == e.interfaces[Broadest(c, e.interfaces, listed)]
  {
    var k := BroadestAt(c, e.interfaces, listed);
    forall j: nat | IsBroadest(c, e.interfaces, listed, j) ensures j == k {}
  }

  lemma ResolveMeans(t: Text, c: Classes, e: Extensions, n: Name)
    requires t.Valid() && Resolvable(c, e)
    ensures Resolve(t, c, e, n) == Unrecognized
            <==> n !in e.flavors && n !in e.interfaces && n !in e.capabilities
    ensures forall cls :: Means(t, c, e, n, cls)
                          <==> Resolve(t, c, e, n) != Unrecognized && cls == Resolve(t, c, e, n).cls
  {
    if n !in e.flavors && n !in e.interfaces && n in e.capabilities {
      assert t.order(e.capabilities[n]) != [];
      BroadestOfMeans(c, e, t.order(e.capabilities[n]));
    }
  }

  /** A supported flavor is a subclass of the class that the name stands for. */
  ghost predicate HasNamed(t: Text, c: Classes, e: Extensions, supported: set<ClassId>, n: Name) {
    exists cls, f | f in supported :: Means(t, c, e, n, cls) && c.isSubclass(f, cls)
  }

  lemma HasMeans(t: Text, c: Classes, e: Extensions, supported: set<ClassId>, name: Name)
    requires t.Valid() && Resolvable(c, e)
    ensures Has(t, c, e, supported, name) <==> HasNamed(t, c, e, supported, t.lower(name))
  {
    ResolveMeans(t, c, e, t.lower(name));
    if Has(t, c, e, supported, name) {
      var cls := Resolve(t, c, e, t.lower(name)).cls;
      var f :| f in supported && c.isSubclass(f, cls);
      assert Means(t, c, e, t.lower(name), cls);
    }
  }

  /** A device class that supports a flavor has every interface above it, unless a flavor has the interface's name; and
      it has a capability when it supports a flavor of each of its interfaces. */
  lemma SupportedInterfaces(t: Text, c: Classes, e: Extensions, supported: set<ClassId>, f: ClassId, name: Name)
    requires t.Valid() && Resolvable(c, e) && f in supported && t.lower(name) !in e.flavors
    ensures t.lower(name) in e.interfaces && c.isSubclass(f, e.interfaces[t.lower(name)]) ==>
              Has(t, c, e, supported, name)
    ensures t.lower(name) !in e.interfaces && t.lower(name) in e.capabilities
            && (forall i | i in e.capabilities[t.lower(name)] ::
                  i in e.interfaces && exists g | g in supported :: c.isSubclass(g, e.interfaces[i])) ==>
              Has(t, c, e, supported, name)
  {
    var n := t.lower(name);
    if n !in e.interfaces && n in e.capabilities {
      assert t.order(e.capabilities[n]) != [];
      var i := Broadest(c, e.interfaces, t.order(e.capabilities[n]));
      assert i in e.capabilities[n];
    }
  }

  ghost predicate ResolvesTo(t: Text, c: Classes, e: Extensions, name: Name, cls: ClassId)
    requires t.Valid() && Resolvable(c, e)
  {
    var r := Resolve(t, c, e, t.lower(name));
    r != Unrecognized && cls == r.cls
  }

  predicate IsUnknown(t: Text, e: Extensions, name: Name) {
    t.lower(name) !in e.flavors && t.lower(name) !in e.interfaces && t.lower(name) !in e.capabilities
  }

  ghost predicate AreResolved(t: Text, c: Classes, e: Extensions, names: seq<Name>, classes: seq<ClassId>)
    requires t.Valid() && Resolvable(c, e)
  {
    |classes| <= |names| && forall j | 0 <= j < |classes| :: ResolvesTo(t, c, e, names[j], classes[j])
  }

  lemma ResolvedHave(t: Text, c: Classes, e: Extensions, supported: set<ClassId>, names: seq<Name>,
                     classes: seq<ClassId>)
    requires t.Valid() && Resolvable(c, e) && |classes| == |names| && AreResolved(t, c, e, names, classes)
    ensures forall i | 0 <= i < |names| ::
              Supports(c, supported, classes[i]) <==> HasNamed(t, c, e, supported, t.lower(names[i]))
  {
    forall i | 0 <= i < |names|
      ensures Supports(c, supported, classes[i]) <==> HasNamed(t, c, e, supported, t.lower(names[i]))
    {
      assert ResolvesTo(t, c, e, names[i], classes[i]);
      HasMeans(t, c, e, supported, names[i]);
    }
  }

  /** The first loop of has_capabilities: the classes of the names, or None at the first name that is unknown. */
  method ResolveAll(t: Text, c: Classes, e: Extensions, names: seq<Name>) returns (found: Option<seq<ClassId>>)
    requires t.Valid() && Resolvable(c, e)
    ensures found.Some? ==> |found.value| == |names| && AreResolved(t, c, e, names, found.value)
    ensures found.None? ==> exists i | 0 <= i < |names| :: IsUnknown(t, e, names[i])
  {
    var capabilities: seq<ClassId> := [];
    for i := 0 to |names|
      invariant |capabilities| == i && AreResolved(t, c, e, names, capabilities)
    {
      var name := t.lower(names[i]);
      var cls: ClassId;
      if name in e.flavors {
        cls := e.flavors[name];
      } else if name in e.interfaces {
        cls := e.interfaces[name];
      } else if name in e.capabilities {
        assert t.order(e.capabilities[name]) != [];
        cls := e.interfaces[Broadest(c, e.interfaces, t.order(e.capabilities[name]))];
      } else {
        return None;
      }
      assert ResolvesTo(t, c, e, names[i], cls);
      capabilities := capabilities + [cls];
    }
    found := Some(capabilities);
  }

  /** The second loop: each class asked for has a supported flavor below it. */
  method AllSupported(c: Classes, supported: set<ClassId>, classes: seq<ClassId>) returns (all: bool)
    ensures all <==> forall i | 0 <= i < |classes| :: Supports(c, supported, classes[i])
  {
    for i := 0 to |classes|
      invariant forall j | 0 <= j < i :: Supports(c, supported, classes[j])
    {
      if !Supports(c, supported, classes[i]) {
        return false;
      }
    }
    all := true;
  }

  /** has_capabilities, for a device class with these supported flavors. */
  method HasCapabilities(t: Text, c: Classes, e: Extensions, supported: set<ClassId>, names: seq<Name>)
    returns (all: bool)
    requires t.Valid() && Resolvable(c, e)
    ensures all <==> forall i | 0 <= i < |names| :: HasNamed(t, c, e, supported, t.lower(names[i]))
  {
    var found := ResolveAll(t, c, e, names);
    if found.None? {
      assert forall i | 0 <= i < |names| && IsUnknown(t, e, names[i]) ::
        !HasNamed(t, c, e, supported, t.lower(names[i]));
      return false;
    }
    ResolvedHave(t, c, e, supported, names, found.value);
    all := AllSupported(c, supported, found.value);
  }

  /** One resolution may later turn into another only in this way. */
  predicate Stable(c: Classes, before: Resolution, after: Resolution) {
    match before
    case AsFlavor(_) => after == before
    case AsInterface(_) => after == before
    case AsCapability(cls) => after.AsCapability? && |c.mro(after.cls)| <= |c.mro(cls)|
    case Unrecognized => true
  }

  /** More interfaces under a capability can only make its class broader. */
  lemma BroaderLater(t: Text, c: Classes, a: Names, b: Names, names: set<Name>, more: set<Name>)
    requires t.Valid() && Extends(a, b) && names != {} && names <= more
    requires (forall n | n in names :: n in a) && forall n | n in more :: n in b
    ensures t.order(names) != [] && t.order(more) != []
    ensures |c.mro(b[Broadest(c, b, t.order(more))])| <= |c.mro(a[Broadest(c, a, t.order(names))])|
  {
    var n := Broadest(c, a, t.order(names));
    assert n in t.order(more);
  }

  lemma Listed(c: Classes, e: Extensions, cap: Name)
    requires Resolvable(c, e) && cap in e.capabilities
    ensures e.capabilities[cap] != {} && forall n | n in e.capabilities[cap] :: n in e.interfaces
  {
  }

  lemma GrowingIsStable(t: Text, c: Classes, e: Extensions, f: Extensions, name: Name)
    requires t.Valid() && Resolvable(c, e) && Resolvable(c, f) && Grows(e, f)
    ensures Stable(c, Resolve(t, c, e, name), Resolve(t, c, f, name))
  {
    if name !in e.flavors && name !in e.interfaces && name in e.capabilities {
      assert name !in f.flavors && name !in f.interfaces;
      Listed(c, e, name);
      Listed(c, f, name);
      BroaderLater(t, c, e.interfaces, f.interfaces, e.capabilities[name], f.capabilities[name]);
    }
  }

  /** A name once resolved as a flavor or as an interface means the same class after every further run of
      registrations, successful or not; one resolved as a capability never becomes a flavor or an interface, and its
      class can only be replaced by a broader one. */
  lemma ResolutionIsStable(t: Text, c: Classes, k: Checks, past: seq<Package>, future: seq<Package>, name: Name)
    requires t.Valid()
    ensures var e := Run(c, k, EMPTY, past);
            var f := Run(c, k, e, future);
            && Inv(c, k, e) && Inv(c, k, f)
            && Stable(c, Resolve(t, c, e, name), Resolve(t, c, f, name))
  {
    EmptyInv(c, k);
    RunKeepsInv(c, k, EMPTY, past);
    var e := Run(c, k, EMPTY, past);
    RunKeepsInv(c, k, e, future);
    RunGrows(c, k, e, future);
    GrowingIsStable(t, c, e, Run(c, k, e, future), name);
  }

  /** So an answer of has_capabilities about flavor and interface names is final. */
  lemma AnswersAreFinal(t: Text, c: Classes, k: Checks, past: seq<Package>, future: seq<Package>,
                        supported: set<ClassId>, name: Name)
    requires t.Valid()
    requires var e := Run(c, k, EMPTY, past); t.lower(name) in e.flavors || t.lower(name) in e.interfaces
    ensures var e := Run(c, k, EMPTY, past);
            var f := Run(c, k, e, future);
            && Inv(c, k, e) && Inv(c, k, f)
            && (Has(t, c, f, supported, name) <==> Has(t, c, e, supported, name))
  {
    ResolutionIsStable(t, c, k, past, future, t.lower(name));
  }
}
