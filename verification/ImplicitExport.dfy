/** The classes of an extension package, as opaque ids, and the export of everything reachable from its device
    classes. */
module ImplicitExport {
  import opened Common

  type ClassId = nat

  /** What a conformance check does: nothing, raise PackageRegistrationError, or raise something else. */
  datatype Verdict = Pass | Reject | Crash

  /** The loaded classes with everything the registrar reads off them. The functions and checks are arbitrary. */
  datatype Classes = Classes(
    universe: set<ClassId>,
    order: set<ClassId> -> seq<ClassId>,             // iteration order of list(set(...))
    generatedName: ClassId -> string,                // common_utils.generate_name
    plainName: ClassId -> string,                    // __name__
    deviceType: ClassId -> string,
    capabilityName: ClassId -> string,
    flavorsOf: ClassId -> set<ClassId>,              // get_supported_capability_flavors
    subFlavorsOf: ClassId -> set<ClassId>,
    devicesUsedBy: ClassId -> set<ClassId>,
    commTypeOf: ClassId -> Option<ClassId>,
    mro: ClassId -> seq<ClassId>,                    // the class itself first
    isBase: ClassId -> bool,                         // object, abc.ABC, CapabilityBase
    looksLikeInterface: ClassId -> bool,             // abstract, or no public attributes
    isAuxiliary: ClassId -> bool,
    isPrimary: ClassId -> bool,
    isSubclass: (ClassId, ClassId) -> bool)
  {
    /** The universe is all classes there are, and `order` lists a set without repetition. */
    ghost predicate Valid() {
      && (forall d | d in universe :: Used(this, d) <= universe)
      && (forall s: set<ClassId> :: |order(s)| == |s| && forall x :: x in order(s) <==> x in s)
    }
  }

  /** All that `f` yields for the members of `s`. */
  function UnionOf(f: ClassId -> set<ClassId>, s: set<ClassId>): set<ClassId> {
    set x, y | x in s && y in f(x) :: y
  }

  lemma UnionOfMore(f: ClassId -> set<ClassId>, s: set<ClassId>, x: ClassId)
    ensures UnionOf(f, s + {x}) == UnionOf(f, s) + f(x)
  {
  }

  /** The flavors a device class brings in: its own and their sub-flavors. */
  function NewFlavors(c: Classes, d: ClassId): set<ClassId> {
    c.flavorsOf(d) + UnionOf(c.subFlavorsOf, c.flavorsOf(d))
  }

  /** The device classes used by those flavors. */
  function Used(c: Classes, d: ClassId): set<ClassId> {
    UnionOf(c.devicesUsedBy, NewFlavors(c, d))
  }

  function UsedByAll(c: Classes, devices: set<ClassId>): set<ClassId> {
    set d, e | d in devices && e in Used(c, d) :: e
  }

  function FlavorsOfAll(c: Classes, devices: set<ClassId>): set<ClassId> {
    set d, f | d in devices && f in NewFlavors(c, d) :: f
  }

  /** The parents of one flavor that count as interfaces. */
  function ParentInterfaces(c: Classes, additional: set<ClassId>, flavor: ClassId): set<ClassId> {
    set i | 1 <= i < |c.mro(flavor)| && IsExportedInterface(c, additional, c.mro(flavor)[i]) :: c.mro(flavor)[i]
  }

  function InterfacesOfAll(c: Classes, flavors: set<ClassId>, additional: set<ClassId>): set<ClassId> {
    set f, i | f in flavors && i in ParentInterfaces(c, additional, f) :: i
  }

  predicate IsExportedInterface(c: Classes, additional: set<ClassId>, parent: ClassId) {
    !c.isBase(parent) && (c.looksLikeInterface(parent) || parent in additional)
  }

  function CommTypesOfAll(c: Classes, devices: set<ClassId>): set<ClassId> {
    set d | d in devices && c.commTypeOf(d).Some? :: c.commTypeOf(d).value
  }

  function Only(keep: ClassId -> bool, s: set<ClassId>): set<ClassId> {
    set d | d in s && keep(d)
  }

  // ---------------------------------------------------------------------------------------------------------------
  // Reachability: the reference definition of the export
  // ---------------------------------------------------------------------------------------------------------------

  /** The device class supports the flavor, or a flavor of which it is a sub-flavor. */
  ghost predicate FlavorOf(c: Classes, d: ClassId, f: ClassId) {
    f in c.flavorsOf(d) || exists g | g in c.flavorsOf(d) :: f in c.subFlavorsOf(g)
  }

  ghost predicate Uses(c: Classes, d: ClassId, e: ClassId) {
    exists f | FlavorOf(c, d, f) :: e in c.devicesUsedBy(f)
  }

  lemma UsedMeans(c: Classes, d: ClassId)
    ensures forall f :: f in NewFlavors(c, d) <==> FlavorOf(c, d, f)
    ensures forall e :: e in Used(c, d) <==> Uses(c, d, e)
  {
    assert forall f :: f in NewFlavors(c, d) <==> FlavorOf(c, d, f);
  }

  /** A chain of device classes from a root, each used by a flavor or sub-flavor of the one before. */
  ghost predicate Chain(c: Classes, roots: set<ClassId>, p: seq<ClassId>) {
    && p != [] && p[0] in roots
    && forall i | 0 < i < |p| :: Uses(c, p[i - 1], p[i])
  }

  ghost predicate Reachable(c: Classes, roots: set<ClassId>, d: ClassId) {
    exists p :: Chain(c, roots, p) && p[|p| - 1] == d
  }

  ghost function Closure(c: Classes, roots: set<ClassId>): set<ClassId> {
    set d | d in c.universe && Reachable(c, roots, d)
  }

  ghost predicate Closed(c: Classes, s: set<ClassId>) {
    forall d | d in s :: Used(c, d) <= s
  }

  lemma ReachableRoot(c: Classes, roots: set<ClassId>, d: ClassId)
    requires d in roots
    ensures Reachable(c, roots, d)
  {
    assert Chain(c, roots, [d]);
    assert [d][|[d]| - 1] == d;
  }

  lemma ReachableStep(c: Classes, roots: set<ClassId>, d: ClassId, e: ClassId)
    requires Reachable(c, roots, d) && e in Used(c, d)
    ensures Reachable(c, roots, e)
  {
    var p :| Chain(c, roots, p) && p[|p| - 1] == d;
    UsedMeans(c, d);
    assert Chain(c, roots, p + [e]);
    assert (p + [e])[|p + [e]| - 1] == e;
  }

  /** A closed set that holds the roots holds everything reachable. */
  lemma ReachableInClosed(c: Classes, roots: set<ClassId>, s: set<ClassId>, d: ClassId)
    requires roots <= s && Closed(c, s) && Reachable(c, roots, d)
    ensures d in s
  {
    var p :| Chain(c, roots, p) && p[|p| - 1] == d;
    ChainInClosed(c, roots, s, p, |p| - 1);
  }

  lemma {:induction false} ChainInClosed(c: Classes, roots: set<ClassId>, s: set<ClassId>, p: seq<ClassId>, k: nat)
    requires roots <= s && Closed(c, s) && Chain(c, roots, p) && k < |p|
    ensures p[k] in s
  {
    if k > 0 {
      ChainInClosed(c, roots, s, p, k - 1);
      UsedMeans(c, p[k - 1]);
    }
  }

  /** The reachable classes are the least closed set above the roots. */
  lemma ClosureIsLeast(c: Classes, roots: set<ClassId>)
    requires c.Valid() && roots <= c.universe
    ensures roots <= Closure(c, roots) && Closed(c, Closure(c, roots))
    ensures forall s | roots <= s && Closed(c, s) :: Closure(c, roots) <= s
  {
    forall d | d in roots ensures d in Closure(c, roots) { ReachableRoot(c, roots, d); }
    forall d, e | d in Closure(c, roots) && e in Used(c, d) ensures e in Closure(c, roots) {
      ReachableStep(c, roots, d, e);
    }
    forall s, d | roots <= s && Closed(c, s) && d in Closure(c, roots) ensures d in s {
      ReachableInClosed(c, roots, s, d);
    }
  }

  lemma ClosureMeans(c: Classes, roots: set<ClassId>)
    requires c.Valid() && roots <= c.universe
    ensures forall d :: d in Closure(c, roots) <==> Reachable(c, roots, d)
  {
    forall d | Reachable(c, roots, d) ensures d in c.universe { ReachableInClosed(c, roots, c.universe, d); }
  }

  /** Exporting the result again adds nothing. */
  lemma ClosureIdempotent(c: Classes, roots: set<ClassId>)
    requires c.Valid() && roots <= c.universe
    ensures Closure(c, Closure(c, roots)) == Closure(c, roots)
  {
    ClosureIsLeast(c, roots);
    ClosureIsLeast(c, Closure(c, roots));
  }

  // ---------------------------------------------------------------------------------------------------------------
  // The worklist
  // ---------------------------------------------------------------------------------------------------------------

  lemma OneMoreDevice(c: Classes, devices: set<ClassId>, d: ClassId)
    ensures UsedByAll(c, devices + {d}) == UsedByAll(c, devices) + Used(c, d)
    ensures FlavorsOfAll(c, devices + {d}) == FlavorsOfAll(c, devices) + NewFlavors(c, d)
  {
  }

  lemma OneMoreFlavor(c: Classes, flavors: set<ClassId>, f: ClassId, additional: set<ClassId>)
    ensures InterfacesOfAll(c, flavors + {f}, additional)
            == InterfacesOfAll(c, flavors, additional) + ParentInterfaces(c, additional, f)
  {
  }

  lemma ExamineStep(c: Classes, before: set<ClassId>, done: set<ClassId>, d: ClassId)
    ensures UsedByAll(c, before + (done + {d})) == UsedByAll(c, before + done) + Used(c, d)
    ensures FlavorsOfAll(c, before + (done + {d})) == FlavorsOfAll(c, before + done) + NewFlavors(c, d)
  {
    OneMoreDevice(c, before + done, d);
    assert before + done + {d} == before + (done + {d});
  }

  /** `for x in s: r.update(f(x))` */
  method UpdateWithAll(f: ClassId -> set<ClassId>, s: set<ClassId>) returns (r: set<ClassId>)
    ensures r == UnionOf(f, s)
  {
    r := {};
    var done: set<ClassId> := {};
    while done != s
      invariant done <= s && r == UnionOf(f, done)
      decreases |s - done|
    {
      var x :| x in s - done;
      UnionOfMore(f, done, x);
      FewerLeft(s, done, x);
      done, r := done + {x}, r + f(x);
    }
  }

  /** The body of the inner loop: the flavors of one device class and the classes those use. */
  method ExamineDeviceClass(c: Classes, d: ClassId) returns (flavors: set<ClassId>, used: set<ClassId>)
    ensures flavors == NewFlavors(c, d) && used == Used(c, d)
  {
    var subFlavors := UpdateWithAll(c.subFlavorsOf, c.flavorsOf(d));
    flavors := c.flavorsOf(d) + subFlavors;
    used := UpdateWithAll(c.devicesUsedBy, flavors);
  }

  /** The for loop of _implicit_export: examines the unprocessed classes, one after the other. */
  method ExamineAll(c: Classes, unprocessed: set<ClassId>, ghost before: set<ClassId>,
                    flavors0: set<ClassId>, used0: set<ClassId>)
    returns (flavors: set<ClassId>, used: set<ClassId>)
    requires flavors0 == FlavorsOfAll(c, before) && used0 == UsedByAll(c, before)
    ensures flavors == FlavorsOfAll(c, before + unprocessed) && used == UsedByAll(c, before + unprocessed)
  {
    flavors, used := flavors0, used0;
    var done: set<ClassId> := {};
    assert before + done == before;
    while done != unprocessed
      invariant done <= unprocessed
      invariant flavors == FlavorsOfAll(c, before + done) && used == UsedByAll(c, before + done)
      decreases |unprocessed - done|
    {
      var d :| d in unprocessed - done;
      var newFlavors, newUsed := ExamineDeviceClass(c, d);
      ExamineStep(c, before, done, d);
      FewerLeft(unprocessed, done, d);
      done, flavors, used := done + {d}, flavors + newFlavors, used + newUsed;
    }
  }

  /** Where the worklist stands: everything found is reachable, and whatever the processed classes lead to is
      processed or waiting. */
  ghost predicate Frontier(c: Classes, roots: set<ClassId>, devices: set<ClassId>, unprocessed: set<ClassId>) {
    && devices + unprocessed <= Closure(c, roots) && unprocessed !! devices
    && roots + UsedByAll(c, devices) <= devices + unprocessed
  }

  lemma FrontierStart(c: Classes, roots: set<ClassId>)
    requires c.Valid() && roots <= c.universe
    ensures Frontier(c, roots, {}, roots)
  {
    ClosureIsLeast(c, roots);
  }

  /** What reachable classes use is reachable. */
  lemma UsedIsReachable(c: Classes, roots: set<ClassId>, s: set<ClassId>)
    requires c.Valid() && roots <= c.universe && s <= Closure(c, roots)
    ensures UsedByAll(c, s) <= Closure(c, roots) <= c.universe
  {
    ClosureIsLeast(c, roots);
    forall e | e in UsedByAll(c, s) ensures e in Closure(c, roots) {
      var d :| d in s && e in Used(c, d);
    }
  }

  lemma FewerUnseen(universe: set<ClassId>, devices: set<ClassId>, unprocessed: set<ClassId>)
    requires unprocessed <= universe && unprocessed !! devices && unprocessed != {}
    ensures |universe - (devices + unprocessed)| < |universe - devices|
  {
    assert universe - devices == (universe - (devices + unprocessed)) + unprocessed;
  }

  lemma FrontierStep(c: Classes, roots: set<ClassId>, devices: set<ClassId>, unprocessed: set<ClassId>)
    requires c.Valid() && roots <= c.universe && Frontier(c, roots, devices, unprocessed) && unprocessed != {}
    ensures var next := devices + unprocessed; Frontier(c, roots, next, UsedByAll(c, next) - next)
    ensures |c.universe - (devices + unprocessed)| < |c.universe - devices|
  {
    UsedIsReachable(c, roots, devices + unprocessed);
    FewerUnseen(c.universe, devices, unprocessed);
  }

  lemma FrontierEmpty(c: Classes, roots: set<ClassId>, devices: set<ClassId>)
    requires c.Valid() && roots <= c.universe && Frontier(c, roots, devices, {})
    ensures devices == Closure(c, roots)
  {
    forall d, e | d in devices && e in Used(c, d) ensures e in devices {
      assert e in UsedByAll(c, devices);
    }
    forall d | d in Closure(c, roots) ensures d in devices {
      ReachableInClosed(c, roots, devices, d);
    }
  }

  /** The while loop of _implicit_export. */
  method ExportDeviceClasses(c: Classes, roots: set<ClassId>) returns (devices: set<ClassId>, flavors: set<ClassId>)
    requires c.Valid() && roots <= c.universe
    ensures devices == Closure(c, roots)
    ensures flavors == FlavorsOfAll(c, Closure(c, roots))
  {
    devices, flavors := {}, {};
    var unprocessed, used: set<ClassId> := roots, {};
    FrontierStart(c, roots);
    while unprocessed != {}
      invariant Frontier(c, roots, devices, unprocessed)
      invariant used == UsedByAll(c, devices) && flavors == FlavorsOfAll(c, devices)
      decreases |c.universe - devices|
    {
      FrontierStep(c, roots, devices, unprocessed);
      flavors, used := ExamineAll(c, unprocessed, devices, flavors, used);
      devices := devices + unprocessed;
      unprocessed := used - devices;
    }
    FrontierEmpty(c, roots, devices);
  }

  /** The loop over the parents of a flavor. */
  method InterfacesOf(c: Classes, additional: set<ClassId>, flavor: ClassId) returns (r: set<ClassId>)
    ensures r == ParentInterfaces(c, additional, flavor)
  {
    r := {};
    var mro := c.mro(flavor);
    var i := 1;
    while i < |mro|
      invariant 1 <= i && (|mro| < i ==> r == {})
      invariant r == set k | 1 <= k < i && k < |mro| && IsExportedInterface(c, additional, mro[k]) :: mro[k]
    {
      if !c.isBase(mro[i]) && (c.looksLikeInterface(mro[i]) || mro[i] in additional) {
        r := r + {mro[i]};
      }
      i := i + 1;
    }
  }

  method InterfacesOfFlavors(c: Classes, flavors: set<ClassId>, additional: set<ClassId>) returns (r: set<ClassId>)
    ensures r == InterfacesOfAll(c, flavors, additional)
  {
    r := {};
    var done: set<ClassId> := {};
    while done != flavors
      invariant done <= flavors && r == InterfacesOfAll(c, done, additional)
      decreases |flavors - done|
    {
      var f :| f in flavors - done;
      var mine := InterfacesOf(c, additional, f);
      OneMoreFlavor(c, done, f, additional);
      FewerLeft(flavors, done, f);
      done, r := done + {f}, r + mine;
    }
  }

  // ---------------------------------------------------------------------------------------------------------------
  // What the reachable device classes bring in
  // ---------------------------------------------------------------------------------------------------------------

  ghost predicate ReachableFlavor(c: Classes, roots: set<ClassId>, f: ClassId) {
    exists d | Reachable(c, roots, d) :: FlavorOf(c, d, f)
  }

  ghost predicate IsParent(c: Classes, f: ClassId, i: ClassId) {
    exists j :: 1 <= j < |c.mro(f)| && c.mro(f)[j] == i
  }

  /** A proper parent of such a flavor, no base class, and abstract, empty or explicitly exported. */
  ghost predicate ReachableInterface(c: Classes, roots: set<ClassId>, additional: set<ClassId>, i: ClassId) {
    && !c.isBase(i) && (c.looksLikeInterface(i) || i in additional)
    && exists f | ReachableFlavor(c, roots, f) :: IsParent(c, f, i)
  }

  ghost predicate ReachableCommType(c: Classes, roots: set<ClassId>, t: ClassId) {
    exists d | Reachable(c, roots, d) :: c.commTypeOf(d) == Some(t)
  }

  lemma FlavorsMean(c: Classes, roots: set<ClassId>)
    requires c.Valid() && roots <= c.universe
    ensures forall f :: f in FlavorsOfAll(c, Closure(c, roots)) <==> ReachableFlavor(c, roots, f)
  {
    ClosureMeans(c, roots);
    forall f ensures f in FlavorsOfAll(c, Closure(c, roots)) <==> ReachableFlavor(c, roots, f) {
      if f in FlavorsOfAll(c, Closure(c, roots)) {
        var d :| d in Closure(c, roots) && f in NewFlavors(c, d);
        UsedMeans(c, d);
      }
      if ReachableFlavor(c, roots, f) {
        var d :| Reachable(c, roots, d) && FlavorOf(c, d, f);
        UsedMeans(c, d);
      }
    }
  }

  /** The interfaces and communication types of the export, without the functions that compute them. */
  lemma ExportMeans(c: Classes, roots: set<ClassId>, additional: set<ClassId>)
    requires c.Valid() && roots <= c.universe
    ensures forall i :: i in InterfacesOfAll(c, FlavorsOfAll(c, Closure(c, roots)), additional)
                        <==> ReachableInterface(c, roots, additional, i)
    ensures forall t :: t in CommTypesOfAll(c, Closure(c, roots)) <==> ReachableCommType(c, roots, t)
  {
    ClosureMeans(c, roots);
    FlavorsMean(c, roots);
    assert forall f, i :: i in ParentInterfaces(c, additional, f)
                          <==> IsParent(c, f, i) && IsExportedInterface(c, additional, i);
  }

  /** The rest of _implicit_export: interfaces and communication types, and the classes the package did not list. */
  method Export(c: Classes, roots: set<ClassId>, additional: set<ClassId>)
    returns (interfaces: set<ClassId>, flavors: set<ClassId>, commTypes: set<ClassId>,
             extraAuxiliary: set<ClassId>, extraPrimary: set<ClassId>)
    requires c.Valid() && roots <= c.universe
    ensures flavors == FlavorsOfAll(c, Closure(c, roots))
    ensures interfaces == InterfacesOfAll(c, FlavorsOfAll(c, Closure(c, roots)), additional)
    ensures commTypes == CommTypesOfAll(c, Closure(c, roots))
    ensures extraAuxiliary == Only(c.isAuxiliary, Closure(c, roots) - roots)
    ensures extraPrimary == Only(c.isPrimary, Closure(c, roots) - roots)
    ensures forall f :: f in flavors <==> ReachableFlavor(c, roots, f)
    ensures forall i :: i in interfaces <==> ReachableInterface(c, roots, additional, i)
    ensures forall t :: t in commTypes <==> ReachableCommType(c, roots, t)
    ensures forall d :: d in extraAuxiliary <==> Reachable(c, roots, d) && d !in roots && c.isAuxiliary(d)
    ensures forall d :: d in extraPrimary <==> Reachable(c, roots, d) && d !in roots && c.isPrimary(d)
  {
    ClosureMeans(c, roots);
    FlavorsMean(c, roots);
    ExportMeans(c, roots, additional);
    var devices;
    devices, flavors := ExportDeviceClasses(c, roots);
    interfaces := InterfacesOfFlavors(c, flavors, additional);
    commTypes := CommTypesOfAll(c, devices);
    extraAuxiliary := Only(c.isAuxiliary, devices - roots);
    extraPrimary := Only(c.isPrimary, devices - roots);
  }
}
