/** What every run of registrations keeps. */
module RegistryRuns {
  import opened Common
  import opened ImplicitExport
  import opened Registry

  // ---------------------------------------------------------------------------------------------------------------
  // The invariant of the registry
  // ---------------------------------------------------------------------------------------------------------------

  /** Each class is found under its own name. */
  ghost predicate NamedBy(name: ClassId -> Name, names: Names) {
    forall n | n in names :: name(names[n]) == n
  }

  ghost predicate DistinctTypes(c: Classes, devices: set<ClassId>) {
    forall a, b | a in devices && b in devices && a != b :: c.deviceType(a) != c.deviceType(b)
  }

  /** An interface is listed under a capability exactly when that is its capability name. */
  ghost predicate ListsInterfaces(c: Classes, interfaces: Names, capabilities: map<Name, set<Name>>) {
    && (forall cap, n | cap in capabilities && n in capabilities[cap] ::
          n in interfaces && c.capabilityName(interfaces[n]) == cap)
    && (forall n | n in interfaces ::
          c.capabilityName(interfaces[n]) in capabilities && n in capabilities[c.capabilityName(interfaces[n])])
  }

  /** No capability name lacks an interface. */
  ghost predicate Inhabited(capabilities: map<Name, set<Name>>) {
    forall cap | cap in capabilities :: capabilities[cap] != {}
  }

  ghost predicate Inv(c: Classes, k: Checks, e: Extensions) {
    && DistinctTypes(c, Devices(e))
    && NamedBy(c.generatedName, e.interfaces) && NamedBy(c.generatedName, e.flavors)
    && NamedBy(c.plainName, e.commTypes)
    && ListsInterfaces(c, e.interfaces, e.capabilities) && Inhabited(e.capabilities)
    && e.interfaces.Keys !! e.capabilities.Keys
    && e.detectCriteria.Keys <= e.commTypes.Keys
    && KeyPathsDistinct(k, e.keys.Keys)
  }

  lemma EmptyInv(c: Classes, k: Checks)
    ensures Inv(c, k, EMPTY)
  {
  }

  lemma MergedLists(c: Classes, e: Extensions, new_: Names)
    requires ListsInterfaces(c, e.interfaces, e.capabilities) && Agree(e.interfaces, new_)
    ensures ListsInterfaces(c, e.interfaces + new_, Merge(e.capabilities, NewCapabilities(c, new_), JOIN_NAMES))
  {
    var all := e.interfaces + new_;
    var caps := Merge(e.capabilities, NewCapabilities(c, new_), JOIN_NAMES);
    forall n | n in all
      ensures c.capabilityName(all[n]) in caps && n in caps[c.capabilityName(all[n])]
    {
      if n in new_ { assert c.capabilityName(new_[n]) in CapabilityNames(c, new_); }
    }
  }

  lemma MergedInhabited(c: Classes, old_: map<Name, set<Name>>, new_: Names)
    requires Inhabited(old_)
    ensures Inhabited(Merge(old_, NewCapabilities(c, new_), JOIN_NAMES))
  {
    var caps := Merge(old_, NewCapabilities(c, new_), JOIN_NAMES);
    forall cap | cap in caps ensures caps[cap] != {} {
      if cap in NewCapabilities(c, new_) {
        var n :| n in new_ && c.capabilityName(new_[n]) == cap;
        assert n in NewCapabilities(c, new_)[cap];
      }
    }
  }

  lemma UnionNamed(name: ClassId -> Name, a: Names, b: Names)
    requires NamedBy(name, a) && NamedBy(name, b)
    ensures NamedBy(name, a + b)
  {
  }

  /** After the interfaces are written the listing is exact, and the flavor name check keeps the name kinds apart. */
  lemma WithInterfacesInv(c: Classes, k: Checks, e: Extensions, x: Exports)
    requires Inv(c, k, e) && InterfacesOk(c, k, e, x) && FlavorNamesOk(c, k, WithInterfaces(c, e, x), x)
    ensures Inv(c, k, WithInterfaces(c, e, x))
  {
    MergedLists(c, e, NewInterfaces(c, x));
    MergedInhabited(c, e.capabilities, NewInterfaces(c, x));
    UnionNamed(c.generatedName, e.interfaces, NewInterfaces(c, x));
  }

  lemma WithFlavorsInv(c: Classes, k: Checks, e: Extensions, x: Exports)
    requires Inv(c, k, e)
    ensures Inv(c, k, WithFlavors(c, e, x))
  {
    UnionNamed(c.generatedName, e.flavors, NewFlavorNames(c, x));
  }

  lemma WithClassesInv(c: Classes, k: Checks, e: Extensions, x: Exports)
    requires Inv(c, k, e) && DeviceTypesOk(c, k, e, x) && RestVerdict(c, k, e, x) == Pass
    ensures Inv(c, k, WithClasses(c, e, x))
  {
    UnionNamed(c.plainName, e.commTypes, NewCommTypes(c, x));
    var after := WithClasses(c, e, x);
    assert Devices(after) == Devices(e) + Exported(x);
    forall a, b | a in Devices(after) && b in Devices(after) && a != b
      ensures c.deviceType(a) != c.deviceType(b)
    {
      if a in Devices(e) {
        if b !in Devices(e) { assert b in Exported(x) - Devices(e); }
      } else {
        assert a in Exported(x) - Devices(e);
      }
    }
  }

  /** Device types depend only on the device lists, which the first writes leave alone. */
  lemma SameDevices(c: Classes, k: Checks, e: Extensions, f: Extensions, x: Exports)
    requires Devices(e) == Devices(f) && DeviceTypesOk(c, k, e, x)
    ensures DeviceTypesOk(c, k, f, x)
  {
  }

  lemma PackageKeepsInv(c: Classes, k: Checks, e: Extensions, x: Exports, p: Package, version: string)
    requires Inv(c, k, e) && KeyPathsDistinct(k, e.keys.Keys + x.keys)
    ensures Inv(c, k, WithPackage(e, x, p, version))
  {
  }

  /** The registry that an outcome leaves behind, given the one before. */
  function Left(o: Outcome, before: Extensions): Extensions {
    match o
    case Registered(after) => after
    case Rejected => before
    case Crashed(partial) => partial
  }

  lemma DeviceStageKeepsInv(c: Classes, k: Checks, e: Extensions, x: Exports, p: Package)
    requires Inv(c, k, e) && DeviceTypesOk(c, k, e, x)
    ensures Inv(c, k, Left(DeviceStage(c, k, e, x, p), e))
  {
    if DeviceStage(c, k, e, x, p).Registered? {
      WithClassesInv(c, k, e, x);
      PackageKeepsInv(c, k, WithClasses(c, e, x), x, p, if p.version.Some? then p.version.value else "");
    }
  }

  lemma FlavorStageKeepsInv(c: Classes, k: Checks, e: Extensions, x: Exports, p: Package)
    requires Inv(c, k, e) && DeviceTypesOk(c, k, e, x)
    ensures Inv(c, k, Left(FlavorStage(c, k, e, x, p), e))
  {
    if k.flavorsConform(x.flavors) == Pass {
      WithFlavorsInv(c, k, e, x);
      SameDevices(c, k, e, WithFlavors(c, e, x), x);
      DeviceStageKeepsInv(c, k, WithFlavors(c, e, x), x, p);
    }
  }

  /** The invariant survives every registration, whatever its outcome: even an exception that is not a
      PackageRegistrationError, which leaves part of the writes in place. */
  lemma RegisterKeepsInv(c: Classes, k: Checks, e: Extensions, p: Package)
    requires Inv(c, k, e)
    ensures Inv(c, k, After(c, k, e, p))
  {
    if !Register(c, k, e, p).Rejected? {
      var x := Completed(c, p.exports.value);
      WithInterfacesInv(c, k, e, x);
      SameDevices(c, k, e, WithInterfaces(c, e, x), x);
      FlavorStageKeepsInv(c, k, WithInterfaces(c, e, x), x, p);
    }
  }

  // ---------------------------------------------------------------------------------------------------------------
  // Bindings only grow
  // ---------------------------------------------------------------------------------------------------------------

  /** Every name of `a` is bound to the same class in `b`. */
  ghost predicate Extends(a: Names, b: Names) {
    forall n | n in a :: n in b && b[n] == a[n]
  }

  ghost predicate Grows(e: Extensions, f: Extensions) {
    && Extends(e.interfaces, f.interfaces) && Extends(e.flavors, f.flavors) && Extends(e.commTypes, f.commTypes)
    && (forall cap | cap in e.capabilities :: cap in f.capabilities && e.capabilities[cap] <= f.capabilities[cap])
    && e.auxiliary <= f.auxiliary && e.primary <= f.primary && e.virtual <= f.virtual
    && (forall n | n in e.packageInfo :: n in f.packageInfo && f.packageInfo[n] == e.packageInfo[n])
    && e.keys.Keys <= f.keys.Keys && e.cliMixins <= f.cliMixins
    && (forall n | n in e.detectCriteria ::
          n in f.detectCriteria && e.detectCriteria[n].Keys <= f.detectCriteria[n].Keys)
    // later flavors stay clear of the names that already mean an interface or a capability, and later interfaces of
    // those that mean a capability
    && (forall n | n in f.flavors && n !in e.flavors :: n !in e.interfaces && n !in e.capabilities)
    && (forall n | n in f.interfaces && n !in e.interfaces :: n !in e.capabilities)
  }

  lemma WithInterfacesGrows(c: Classes, k: Checks, e: Extensions, x: Exports)
    requires Agree(e.interfaces, NewInterfaces(c, x)) && FlavorNamesOk(c, k, WithInterfaces(c, e, x), x)
    ensures Grows(e, WithInterfaces(c, e, x))
  {
  }

  lemma WithFlavorsGrows(c: Classes, k: Checks, e: Extensions, x: Exports)
    requires FlavorNamesOk(c, k, e, x)
    ensures Grows(e, WithFlavors(c, e, x))
  {
  }

  lemma WithRestGrows(c: Classes, k: Checks, e: Extensions, x: Exports, p: Package, version: string)
    requires RestVerdict(c, k, e, x) == Pass && p.name !in e.packageInfo
    ensures Grows(e, WithPackage(WithClasses(c, e, x), x, p, version))
  {
  }

  lemma GrowsTransitive(e: Extensions, f: Extensions, g: Extensions)
    requires Grows(e, f) && Grows(f, g)
    ensures Grows(e, g)
  {
  }

  lemma DeviceStageGrows(c: Classes, k: Checks, e: Extensions, x: Exports, p: Package)
    requires p.name !in e.packageInfo
    ensures Grows(e, Left(DeviceStage(c, k, e, x, p), e))
  {
    if DeviceStage(c, k, e, x, p).Registered? {
      WithRestGrows(c, k, e, x, p, if p.version.Some? then p.version.value else "");
    }
  }

  lemma FlavorStageGrows(c: Classes, k: Checks, e: Extensions, x: Exports, p: Package)
    requires p.name !in e.packageInfo && FlavorNamesOk(c, k, e, x)
    ensures Grows(e, Left(FlavorStage(c, k, e, x, p), e))
  {
    if k.flavorsConform(x.flavors) == Pass {
      var e2 := WithFlavors(c, e, x);
      WithFlavorsGrows(c, k, e, x);
      DeviceStageGrows(c, k, e2, x, p);
      GrowsTransitive(e, e2, Left(DeviceStage(c, k, e2, x, p), e2));
    }
  }

  /** Whatever the outcome, names keep their classes and nothing disappears. */
  lemma RegisterGrows(c: Classes, k: Checks, e: Extensions, p: Package)
    ensures Grows(e, After(c, k, e, p))
  {
    if !Register(c, k, e, p).Rejected? {
      var x := Completed(c, p.exports.value);
      var e1 := WithInterfaces(c, e, x);
      WithInterfacesGrows(c, k, e, x);
      FlavorStageGrows(c, k, e1, x, p);
      GrowsTransitive(e, e1, Left(FlavorStage(c, k, e1, x, p), e1));
    }
  }

  // ---------------------------------------------------------------------------------------------------------------
  // What a successful registration has registered
  // ---------------------------------------------------------------------------------------------------------------

  /** All the writes of one registration. */
  function Committed(c: Classes, e: Extensions, x: Exports, p: Package, version: string): Extensions {
    WithPackage(WithClasses(c, WithFlavors(c, WithInterfaces(c, e, x), x), x), x, p, version)
  }

  lemma RegisteredIsCommitted(c: Classes, k: Checks, e: Extensions, p: Package)
    requires Register(c, k, e, p).Registered?
    ensures PackageOk(e, p)
    ensures Register(c, k, e, p).after == Committed(c, e, Completed(c, p.exports.value), p, p.version.value)
  {
    var x := Completed(c, p.exports.value);
    FlavorStageCommits(c, k, WithInterfaces(c, e, x), x, p);
  }

  lemma FlavorStageCommits(c: Classes, k: Checks, e: Extensions, x: Exports, p: Package)
    requires FlavorStage(c, k, e, x, p).Registered? && p.version.Some?
    ensures FlavorStage(c, k, e, x, p).after
         == WithPackage(WithClasses(c, WithFlavors(c, e, x), x), x, p, p.version.value)
  {
  }

  /** The completed exports are all found in the registry afterwards. */
  ghost predicate Holds(c: Classes, e: Extensions, x: Exports) {
    && Exported(x) <= Devices(e) && x.keys <= e.keys.Keys
    && (forall f | f in x.flavors :: c.generatedName(f) in e.flavors)
    && (forall i | i in x.interfaces :: c.generatedName(i) in e.interfaces)
    && (forall t | t in x.commTypes :: c.plainName(t) in e.commTypes)
    && (forall n, q | n in x.detectCriteria && q in x.detectCriteria[n] ::
          n in e.detectCriteria && q in e.detectCriteria[n] && e.detectCriteria[n][q] == x.detectCriteria[n][q])
  }

  lemma CommittedHolds(c: Classes, e: Extensions, x: Exports, p: Package, version: string)
    requires c.Valid()
    ensures Holds(c, Committed(c, e, x, p, version), x)
  {
    BoundExactlyWhen(c, c.generatedName, x.flavors);
    BoundExactlyWhen(c, c.generatedName, x.interfaces);
    BoundExactlyWhen(c, c.plainName, x.commTypes);
  }

  /** The completed exports contain what is given, and whatever its device classes lead to. */
  lemma CompletedReaches(c: Classes, given: Exports)
    requires c.Valid() && Exported(given) <= c.universe
    ensures var x, roots := Completed(c, given), Exported(given);
            && Exported(given) <= Exported(x) && given.flavors <= x.flavors && given.interfaces <= x.interfaces
            && given.commTypes <= x.commTypes && given.keys == x.keys && given.detectCriteria == x.detectCriteria
            && (forall d | Reachable(c, roots, d) && (c.isAuxiliary(d) || c.isPrimary(d)) :: d in Exported(x))
            && (forall f | ReachableFlavor(c, roots, f) :: f in x.flavors)
            && (forall i | ReachableInterface(c, roots, given.interfaces, i) :: i in x.interfaces)
            && (forall t | ReachableCommType(c, roots, t) :: t in x.commTypes)
  {
    var x, roots := Completed(c, given), Exported(given);
    ClosureMeans(c, roots);
    FlavorsMean(c, roots);
    ExportMeans(c, roots, given.interfaces);
    forall d | Reachable(c, roots, d) && (c.isAuxiliary(d) || c.isPrimary(d)) && d !in roots ensures d in Exported(x) {
      assert d in Closure(c, roots) - roots;
    }
  }

  /** A successful registration registers everything the package exports, every auxiliary or primary device class its
      device classes lead to, and all their flavors, interfaces and communication types; and it is recorded. */
  lemma RegisteredIsComplete(c: Classes, k: Checks, e: Extensions, p: Package)
    requires c.Valid() && Register(c, k, e, p).Registered? && Exported(p.exports.value) <= c.universe
    ensures var given, after := p.exports.value, Register(c, k, e, p).after;
            var roots := Exported(given);
            && Holds(c, after, given)
            && (forall d | Reachable(c, roots, d) && (c.isAuxiliary(d) || c.isPrimary(d)) :: d in Devices(after))
            && (forall f | ReachableFlavor(c, roots, f) :: c.generatedName(f) in after.flavors)
            && (forall i | ReachableInterface(c, roots, given.interfaces, i) ::
                  c.generatedName(i) in after.interfaces)
            && (forall t | ReachableCommType(c, roots, t) :: c.plainName(t) in after.commTypes)
            && p.name in after.packageInfo && p.name !in e.packageInfo
  {
    RegisteredIsCommitted(c, k, e, p);
    CommittedHolds(c, e, Completed(c, p.exports.value), p, p.version.value);
    CompletedReaches(c, p.exports.value);
  }

  /** The names of the classes tell them apart. */
  ghost predicate NamesDiffer(name: ClassId -> Name, classes: set<ClassId>) {
    forall a, b | a in classes && b in classes && name(a) == name(b) :: a == b
  }

  /** Two exported flavors with one name are not rejected; one of them is silently lost. So every exported flavor can
      be found by its name exactly when the names differ. */
  lemma FlavorsFoundExactlyWhen(c: Classes, k: Checks, e: Extensions, p: Package)
    requires c.Valid() && Register(c, k, e, p).Registered?
    ensures var flavors, after := Completed(c, p.exports.value).flavors, Register(c, k, e, p).after;
            (forall f | f in flavors :: c.generatedName(f) in after.flavors && after.flavors[c.generatedName(f)] == f)
            <==> NamesDiffer(c.generatedName, flavors)
  {
    RegisteredIsCommitted(c, k, e, p);
    var x := Completed(c, p.exports.value);
    BoundExactlyWhen(c, c.generatedName, x.flavors);
    LaterWins(e.flavors, BindSet(c, c.generatedName, x.flavors));
  }

  lemma LaterWins(a: Names, b: Names)
    ensures forall n | n in b :: n in a + b && (a + b)[n] == b[n]
  {
  }

  lemma BoundExactlyWhen(c: Classes, name: ClassId -> Name, s: set<ClassId>)
    requires c.Valid()
    ensures forall x | x in s :: name(x) in BindSet(c, name, s)
    ensures (forall x | x in s :: BindSet(c, name, s)[name(x)] == x) <==> NamesDiffer(name, s)
  {
    forall x | x in s ensures name(x) in BindSet(c, name, s) { assert x in c.order(s); }
    forall x | x in s ensures BindSet(c, name, s)[name(x)] in s && name(BindSet(c, name, s)[name(x)]) == name(x) {}
  }

  // ---------------------------------------------------------------------------------------------------------------
  // Whole runs
  // ---------------------------------------------------------------------------------------------------------------

  /** The registry after registering the packages one after the other, some of them perhaps failing. */
  ghost function Run(c: Classes, k: Checks, e: Extensions, ps: seq<Package>): Extensions {
    if ps == [] then e else After(c, k, Run(c, k, e, ps[..|ps| - 1]), ps[|ps| - 1])
  }

  /** Every reachable registry satisfies the invariant. */
  lemma {:induction false} RunKeepsInv(c: Classes, k: Checks, e: Extensions, ps: seq<Package>)
    requires Inv(c, k, e)
    ensures Inv(c, k, Run(c, k, e, ps))
  {
    if ps != [] {
      RunKeepsInv(c, k, e, ps[..|ps| - 1]);
      RegisterKeepsInv(c, k, Run(c, k, e, ps[..|ps| - 1]), ps[|ps| - 1]);
    }
  }

  lemma {:induction false} RunGrows(c: Classes, k: Checks, e: Extensions, ps: seq<Package>)
    ensures Grows(e, Run(c, k, e, ps))
  {
    if ps != [] {
      var before := Run(c, k, e, ps[..|ps| - 1]);
      RunGrows(c, k, e, ps[..|ps| - 1]);
      RegisterGrows(c, k, before, ps[|ps| - 1]);
      GrowsTransitive(e, before, Run(c, k, e, ps));
    }
  }
}
