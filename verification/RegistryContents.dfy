/** Registering a package without the functions that compute it: which packages are accepted, and the whole registry
    after an accepted one, in terms of the classes alone. */
module RegistryContents {
  import opened Common
  import opened ImplicitExport
  import opened Registry
  import opened RegistryRuns

  // ---------------------------------------------------------------------------------------------------------------
  // The completed exports
  // ---------------------------------------------------------------------------------------------------------------

  ghost function Roots(given: Exports): set<ClassId> {
    given.auxiliary + given.primary + given.virtual
  }

  /** `x` is what the package lists, with everything its device classes lead to. */
  ghost predicate IsCompleted(c: Classes, given: Exports, x: Exports) {
    && (forall i :: i in x.interfaces
                    <==> i in given.interfaces || ReachableInterface(c, Roots(given), given.interfaces, i))
    && (forall f :: f in x.flavors <==> f in given.flavors || ReachableFlavor(c, Roots(given), f))
    && (forall t :: t in x.commTypes <==> t in given.commTypes || ReachableCommType(c, Roots(given), t))
    && (forall d :: d in x.auxiliary <==> d in given.auxiliary || LeadsTo(c, given, c.isAuxiliary, d))
    && (forall d :: d in x.primary <==> d in given.primary || LeadsTo(c, given, c.isPrimary, d))
    && x.virtual == given.virtual && x.detectCriteria == given.detectCriteria
    && x.keys == given.keys && x.cliMixin == given.cliMixin
  }

  /** A device class of this kind that the package does not list, but its device classes lead to. */
  ghost predicate LeadsTo(c: Classes, given: Exports, kind: ClassId -> bool, d: ClassId) {
    Reachable(c, Roots(given), d) && d !in Roots(given) && kind(d)
  }

  lemma CompletedMeans(c: Classes, given: Exports)
    requires c.Valid() && Roots(given) <= c.universe
    ensures IsCompleted(c, given, Completed(c, given))
  {
    FlavorsMean(c, Roots(given));
    ExportMeans(c, Roots(given), given.interfaces);
    ExtrasMean(c, given, c.isAuxiliary);
    ExtrasMean(c, given, c.isPrimary);
  }

  lemma ExtrasMean(c: Classes, given: Exports, kind: ClassId -> bool)
    requires c.Valid() && Roots(given) <= c.universe
    ensures Roots(given) == Exported(given)
    ensures forall d :: d in Only(kind, Closure(c, Roots(given)) - Roots(given)) <==> LeadsTo(c, given, kind, d)
  {
    ClosureMeans(c, Roots(given));
  }

  /** And nothing else is. */
  lemma CompletedIsUnique(c: Classes, given: Exports, x: Exports, y: Exports)
    requires IsCompleted(c, given, x) && IsCompleted(c, given, y)
    ensures x == y
  {
    assert x.interfaces == y.interfaces && x.flavors == y.flavors && x.commTypes == y.commTypes;
    assert x.auxiliary == y.auxiliary && x.primary == y.primary;
  }

  // ---------------------------------------------------------------------------------------------------------------
  // Dictionaries made of a set of classes
  // ---------------------------------------------------------------------------------------------------------------

  /** In the order in which the set is listed, the class is the last of its name. */
  ghost predicate Last(c: Classes, name: ClassId -> Name, s: set<ClassId>, x: ClassId) {
    exists k | 0 <= k < |c.order(s)| :: LastAt(name, c.order(s), k, x)
  }

  ghost predicate LastAt(name: ClassId -> Name, s: seq<ClassId>, k: nat, x: ClassId) {
    k < |s| && s[k] == x && forall j | k < j < |s| :: name(s[j]) != name(x)
  }

  lemma {:induction false} BoundToTheLast(name: ClassId -> Name, s: seq<ClassId>, n: Name) returns (k: nat)
    requires n in Bind(name, s)
    ensures LastAt(name, s, k, Bind(name, s)[n])
  {
    var m := |s| - 1;
    if n == name(s[m]) {
      k := m;
    } else {
      k := BoundToTheLast(name, s[..m], n);
      EarlierLast(name, s, k, Bind(name, s[..m])[n]);
    }
  }

  lemma EarlierLast(name: ClassId -> Name, s: seq<ClassId>, k: nat, x: ClassId)
    requires s != [] && LastAt(name, s[..|s| - 1], k, x) && name(s[|s| - 1]) != name(x)
    ensures LastAt(name, s, k, x)
  {
    assert forall j | 0 <= j < |s| - 1 :: s[..|s| - 1][j] == s[j];
  }

  /** The class that is bound to a name is the last one of the name. */
  lemma BindsTheLast(name: ClassId -> Name, s: seq<ClassId>)
    ensures forall k: nat, x | LastAt(name, s, k, x) :: name(x) in Bind(name, s) && Bind(name, s)[name(x)] == x
    ensures forall n | n in Bind(name, s) :: exists k: nat :: LastAt(name, s, k, Bind(name, s)[n])
  {
    forall n | n in Bind(name, s) ensures exists k: nat :: LastAt(name, s, k, Bind(name, s)[n]) {
      var k := BoundToTheLast(name, s, n);
    }
    forall k: nat, x | LastAt(name, s, k, x) ensures name(x) in Bind(name, s) && Bind(name, s)[name(x)] == x {
      assert x in s;
      var last := BoundToTheLast(name, s, name(x));
    }
  }

  /** The names are those of the classes, each bound to its last class. */
  ghost predicate IsDict(c: Classes, name: ClassId -> Name, s: set<ClassId>, names: Names) {
    && (forall x | x in s :: name(x) in names)
    && forall n | n in names :: names[n] in s && name(names[n]) == n && Last(c, name, s, names[n])
  }

  lemma BindSetIsDict(c: Classes, name: ClassId -> Name, s: set<ClassId>)
    requires c.Valid()
    ensures IsDict(c, name, s, BindSet(c, name, s))
    ensures forall x | Last(c, name, s, x) :: x in s && name(x) in BindSet(c, name, s)
                                              && BindSet(c, name, s)[name(x)] == x
  {
    BindsTheLast(name, c.order(s));
    forall x | x in s ensures name(x) in BindSet(c, name, s) { assert x in c.order(s); }
    forall x | Last(c, name, s, x)
      ensures x in s && name(x) in BindSet(c, name, s) && BindSet(c, name, s)[name(x)] == x
    {
      var k: nat :| LastAt(name, c.order(s), k, x);
      assert x in c.order(s);
    }
  }

  /** `after` is `before` with the classes under their names; of several with one name, the last. */
  ghost predicate Adds(c: Classes, name: ClassId -> Name, s: set<ClassId>, before: Names, after: Names) {
    && (forall n :: n in after <==> n in before || exists x | x in s :: name(x) == n)
    && (forall x | Last(c, name, s, x) :: name(x) in after && after[name(x)] == x)
    && (forall n | n in before && (forall x | x in s :: name(x) != n) :: n in after && after[n] == before[n])
  }

  lemma UnionAdds(c: Classes, name: ClassId -> Name, s: set<ClassId>, before: Names)
    requires c.Valid()
    ensures Adds(c, name, s, before, before + BindSet(c, name, s))
  {
    BindSetIsDict(c, name, s);
  }

  lemma AddsIsUnique(c: Classes, name: ClassId -> Name, s: set<ClassId>, before: Names, a: Names, b: Names)
    requires c.Valid() && Adds(c, name, s, before, a) && Adds(c, name, s, before, b)
    ensures a == b
  {
    BindSetIsDict(c, name, s);
    forall n | n in a ensures n in b && a[n] == b[n] {
      if exists x | x in s :: name(x) == n {
        assert Last(c, name, s, BindSet(c, name, s)[n]);
      }
    }
    assert a.Keys == b.Keys;
  }

  /** No name is bound to another class. */
  ghost predicate Keeps(c: Classes, name: ClassId -> Name, s: set<ClassId>, before: Names) {
    forall x | Last(c, name, s, x) && name(x) in before :: before[name(x)] == x
  }

  lemma AgreeKeeps(c: Classes, name: ClassId -> Name, s: set<ClassId>, before: Names)
    requires c.Valid()
    ensures Agree(before, BindSet(c, name, s)) <==> Keeps(c, name, s, before)
  {
    BindSetIsDict(c, name, s);
  }

  // ---------------------------------------------------------------------------------------------------------------
  // The registry after an accepted package
  // ---------------------------------------------------------------------------------------------------------------

  /** The interface named `n` is registered now and has this capability name. */
  ghost predicate NewUnder(c: Classes, x: Exports, cap: Name, n: Name) {
    exists i | Last(c, c.generatedName, x.interfaces, i) :: c.capabilityName(i) == cap && c.generatedName(i) == n
  }

  ghost predicate AddsCapabilities(c: Classes, x: Exports, before: map<Name, set<Name>>, after: map<Name, set<Name>>) {
    && (forall cap :: cap in after <==> cap in before || exists n :: NewUnder(c, x, cap, n))
    && forall cap, n | cap in after ::
         n in after[cap] <==> (cap in before && n in before[cap]) || NewUnder(c, x, cap, n)
  }

  ghost predicate AddsCriteria(x: Exports, before: map<Name, Queries>, after: map<Name, Queries>) {
    && after.Keys == before.Keys + x.detectCriteria.Keys
    && (forall t, q | t in after ::
          q in after[t] <==> (t in before && q in before[t]) || (t in x.detectCriteria && q in x.detectCriteria[t]))
    && forall t, q | t in after && q in after[t] ::
         after[t][q] == if t in x.detectCriteria && q in x.detectCriteria[t] then x.detectCriteria[t][q]
                        else before[t][q]
  }

  ghost predicate AddsKeys(x: Exports, download: Option<string>, before: map<nat, string>, after: map<nat, string>) {
    && (forall key :: key in after <==> key in before || key in x.keys)
    && (forall key | key in x.keys :: key in after && Some(after[key]) == download)
    && forall key | key in before && key !in x.keys :: key in after && after[key] == before[key]
  }

  /** `after` is `e` with the completed exports `x` of the package, and nothing else. */
  ghost predicate Wrote(c: Classes, e: Extensions, x: Exports, p: Package, after: Extensions) {
    && Adds(c, c.generatedName, x.interfaces, e.interfaces, after.interfaces)
    && AddsCapabilities(c, x, e.capabilities, after.capabilities)
    && Adds(c, c.generatedName, x.flavors, e.flavors, after.flavors)
    && Adds(c, c.plainName, x.commTypes, e.commTypes, after.commTypes)
    && after.auxiliary == e.auxiliary + x.auxiliary
    && after.primary == e.primary + x.primary
    && after.virtual == e.virtual + x.virtual
    && AddsCriteria(x, e.detectCriteria, after.detectCriteria)
    && AddsKeys(x, p.downloadKey, e.keys, after.keys)
    && after.cliMixins == (if x.cliMixin.None? then e.cliMixins else e.cliMixins + [x.cliMixin.value])
    && p.version.Some? && after.packageInfo == e.packageInfo[p.name := (p.version.value, p.importPath)]
  }

  lemma NewUnderMeans(c: Classes, x: Exports)
    requires c.Valid()
    ensures forall cap, n :: NewUnder(c, x, cap, n)
                             <==> n in NewInterfaces(c, x) && c.capabilityName(NewInterfaces(c, x)[n]) == cap
  {
    BindSetIsDict(c, c.generatedName, x.interfaces);
  }

  lemma MergeAddsCapabilities(c: Classes, x: Exports, before: map<Name, set<Name>>)
    requires c.Valid()
    ensures AddsCapabilities(c, x, before, Merge(before, NewCapabilities(c, NewInterfaces(c, x)), JOIN_NAMES))
  {
    NewUnderMeans(c, x);
    var new_ := NewCapabilities(c, NewInterfaces(c, x));
    forall cap ensures cap in new_ <==> exists n :: NewUnder(c, x, cap, n) {
      if cap in new_ {
        var n :| n in NewInterfaces(c, x) && c.capabilityName(NewInterfaces(c, x)[n]) == cap;
        assert NewUnder(c, x, cap, n);
      }
    }
    assert forall cap, n | cap in new_ :: n in new_[cap] <==> NewUnder(c, x, cap, n);
  }

  lemma MergeAddsCriteria(x: Exports, before: map<Name, Queries>)
    ensures AddsCriteria(x, before, Merge(before, x.detectCriteria, JOIN_QUERIES))
  {
  }

  lemma CommittedWrote(c: Classes, e: Extensions, x: Exports, p: Package)
    requires c.Valid() && p.version.Some? && (x.keys == {} || p.downloadKey.Some?)
    ensures Wrote(c, e, x, p, Committed(c, e, x, p, p.version.value))
  {
    UnionAdds(c, c.generatedName, x.interfaces, e.interfaces);
    MergeAddsCapabilities(c, x, e.capabilities);
    UnionAdds(c, c.generatedName, x.flavors, e.flavors);
    UnionAdds(c, c.plainName, x.commTypes, e.commTypes);
    MergeAddsCriteria(x, e.detectCriteria);
  }

  lemma CapabilitiesAreUnique(c: Classes, x: Exports, before: map<Name, set<Name>>, a: map<Name, set<Name>>,
                              b: map<Name, set<Name>>)
    requires AddsCapabilities(c, x, before, a) && AddsCapabilities(c, x, before, b)
    ensures a == b
  {
    assert a.Keys == b.Keys;
    forall cap | cap in a ensures a[cap] == b[cap] {
      forall n ensures n in a[cap] <==> n in b[cap] {}
    }
  }

  lemma CriteriaAreUnique(x: Exports, before: map<Name, Queries>, a: map<Name, Queries>, b: map<Name, Queries>)
    requires AddsCriteria(x, before, a) && AddsCriteria(x, before, b)
    ensures a == b
  {
    forall t | t in a ensures a[t] == b[t] {
      assert a[t].Keys == b[t].Keys;
    }
  }

  lemma KeysAreUnique(x: Exports, download: Option<string>, before: map<nat, string>, a: map<nat, string>,
                      b: map<nat, string>)
    requires AddsKeys(x, download, before, a) && AddsKeys(x, download, before, b)
    ensures a == b
  {
    assert a.Keys == b.Keys;
    forall key | key in a ensures a[key] == b[key] {
      if key in x.keys { assert Some(a[key]) == Some(b[key]); }
    }
  }

  /** The writes leave nothing open. */
  lemma WroteIsUnique(c: Classes, e: Extensions, x: Exports, p: Package, a: Extensions, b: Extensions)
    requires c.Valid() && Wrote(c, e, x, p, a) && Wrote(c, e, x, p, b)
    ensures a == b
  {
    AddsIsUnique(c, c.generatedName, x.interfaces, e.interfaces, a.interfaces, b.interfaces);
    CapabilitiesAreUnique(c, x, e.capabilities, a.capabilities, b.capabilities);
    AddsIsUnique(c, c.generatedName, x.flavors, e.flavors, a.flavors, b.flavors);
    AddsIsUnique(c, c.plainName, x.commTypes, e.commTypes, a.commTypes, b.commTypes);
    CriteriaAreUnique(x, e.detectCriteria, a.detectCriteria, b.detectCriteria);
    KeysAreUnique(x, p.downloadKey, e.keys, a.keys, b.keys);
  }

  /** After an accepted package the registry holds what the package lists and what its device classes lead to, all
      bound to their names, and beyond that only what it held before. */
  lemma RegisteredContents(c: Classes, k: Checks, e: Extensions, p: Package, x: Exports)
    requires c.Valid() && Register(c, k, e, p).Registered? && Roots(p.exports.value) <= c.universe
    requires IsCompleted(c, p.exports.value, x)
    ensures Wrote(c, e, x, p, Register(c, k, e, p).after)
  {
    CompletedMeans(c, p.exports.value);
    CompletedIsUnique(c, p.exports.value, x, Completed(c, p.exports.value));
    RegisteredIsCommitted(c, k, e, p);
    KeysComeWithDownload(c, k, e, p);
    CommittedWrote(c, e, x, p);
  }

  /** What an exception other than PackageRegistrationError leaves behind: the interfaces with their capabilities, the
      flavors too unless their own check raised it, and nothing else. */
  lemma CrashedContents(c: Classes, k: Checks, e: Extensions, p: Package, x: Exports)
    requires c.Valid() && Register(c, k, e, p).Crashed? && Roots(p.exports.value) <= c.universe
    requires IsCompleted(c, p.exports.value, x)
    ensures var partial := Register(c, k, e, p).partial;
            && Adds(c, c.generatedName, x.interfaces, e.interfaces, partial.interfaces)
            && AddsCapabilities(c, x, e.capabilities, partial.capabilities)
            && (if k.flavorsConform(x.flavors) == Crash then partial.flavors == e.flavors
                else Adds(c, c.generatedName, x.flavors, e.flavors, partial.flavors))
            && partial == e.(interfaces := partial.interfaces, capabilities := partial.capabilities,
                             flavors := partial.flavors)
  {
    CompletedMeans(c, p.exports.value);
    CompletedIsUnique(c, p.exports.value, x, Completed(c, p.exports.value));
    UnionAdds(c, c.generatedName, x.interfaces, e.interfaces);
    MergeAddsCapabilities(c, x, e.capabilities);
    UnionAdds(c, c.generatedName, x.flavors, e.flavors);
    CrashLeaves(c, k, e, p, x);
  }

  lemma CrashLeaves(c: Classes, k: Checks, e: Extensions, p: Package, x: Exports)
    requires p.exports.Some? && x == Completed(c, p.exports.value) && Register(c, k, e, p).Crashed?
    ensures var w := WithInterfaces(c, e, x);
            Register(c, k, e, p).partial == if k.flavorsConform(x.flavors) == Crash then w else WithFlavors(c, w, x)
  {
  }

  lemma KeysComeWithDownload(c: Classes, k: Checks, e: Extensions, p: Package)
    requires Register(c, k, e, p).Registered?
    ensures var x := Completed(c, p.exports.value); x.keys == {} || p.downloadKey.Some?
  {
  }

  // ---------------------------------------------------------------------------------------------------------------
  // Which packages are accepted
  // ---------------------------------------------------------------------------------------------------------------

  ghost predicate IsDevice(e: Extensions, d: ClassId) {
    d in e.auxiliary || d in e.primary || d in e.virtual
  }

  /** Each device class is of its kind, and no two device types clash. */
  ghost predicate DevicesFit(c: Classes, k: Checks, e: Extensions, x: Exports) {
    && (forall d | d in x.auxiliary :: k.deviceClassOk(d, Auxiliary))
    && (forall d | d in x.primary :: k.deviceClassOk(d, Primary))
    && (forall d | d in x.virtual :: k.deviceClassOk(d, Virtual))
    && forall a, b | a in Roots(x) && (b in Roots(x) || (IsDevice(e, b) && !IsDevice(e, a))) && a != b ::
         c.deviceType(a) != c.deviceType(b)
  }

  lemma DevicesFitExactlyWhen(c: Classes, k: Checks, e: Extensions, given: Exports, x: Exports)
    requires IsCompleted(c, given, x)
    ensures DeviceTypesOk(c, k, e, given) && DeviceTypesOk(c, k, e, x) <==> DevicesFit(c, k, e, x)
  {
    assert Exported(x) == Roots(x) && forall d :: d in Devices(e) <==> IsDevice(e, d);
    assert Exported(given) <= Exported(x);
  }

  /** The interfaces are concrete enough, keep the registered names, and share capability names as they may. */
  ghost predicate InterfacesFit(c: Classes, k: Checks, e: Extensions, x: Exports) {
    && (forall i | i in x.interfaces :: k.deviceClassOk(i, Interface))
    && Keeps(c, c.generatedName, x.interfaces, e.interfaces)
    && (forall i, j | i in x.interfaces && j in x.interfaces :: c.generatedName(i) != c.capabilityName(j))
    && forall cap, sharing | IsSharing(c, e, x, cap, sharing) && (sharing != {} || cap in e.capabilities) ::
         k.sharedInterface(sharing)
  }

  /** The interfaces under one capability name: the new ones that have it and the registered ones listed there. */
  ghost predicate IsSharing(c: Classes, e: Extensions, x: Exports, cap: Name, sharing: set<ClassId>) {
    forall i :: i in sharing
                <==> (i in x.interfaces && c.capabilityName(i) == cap)
                     || exists n | n in e.interfaces :: e.interfaces[n] == i && cap in e.capabilities
                                                        && n in e.capabilities[cap]
  }

  lemma SharingMeans(c: Classes, e: Extensions, x: Exports, cap: Name, sharing: set<ClassId>)
    ensures IsSharing(c, e, x, cap, sharing) <==> sharing == InterfacesFor(c, e, x, cap)
  {
    assert IsSharing(c, e, x, cap, InterfacesFor(c, e, x, cap));
    if IsSharing(c, e, x, cap, sharing) {
      forall i ensures i in sharing <==> i in InterfacesFor(c, e, x, cap) {}
    }
  }

  lemma InterfacesFitExactlyWhen(c: Classes, k: Checks, e: Extensions, x: Exports)
    requires c.Valid()
    ensures InterfacesOk(c, k, e, x) <==> InterfacesFit(c, k, e, x)
  {
    AgreeKeeps(c, c.generatedName, x.interfaces, e.interfaces);
    BindSetIsDict(c, c.generatedName, x.interfaces);
    SharedFitExactlyWhen(c, k, e, x);
    NamesApart(c, x);
  }

  lemma NamesApart(c: Classes, x: Exports)
    requires c.Valid()
    ensures (NewInterfaces(c, x).Keys !! set i | i in x.interfaces :: c.capabilityName(i))
            <==> forall i, j | i in x.interfaces && j in x.interfaces :: c.generatedName(i) != c.capabilityName(j)
  {
    BindSetIsDict(c, c.generatedName, x.interfaces);
  }

  lemma SharedFitExactlyWhen(c: Classes, k: Checks, e: Extensions, x: Exports)
    ensures (forall cap | cap in (set i | i in x.interfaces :: c.capabilityName(i)) + e.capabilities.Keys ::
               k.sharedInterface(InterfacesFor(c, e, x, cap)))
            <==> forall cap, sharing | IsSharing(c, e, x, cap, sharing) && (sharing != {} || cap in e.capabilities) ::
                   k.sharedInterface(sharing)
  {
    var caps := (set i | i in x.interfaces :: c.capabilityName(i)) + e.capabilities.Keys;
    forall cap, sharing ensures IsSharing(c, e, x, cap, sharing) <==> sharing == InterfacesFor(c, e, x, cap) {
      SharingMeans(c, e, x, cap, sharing);
    }
    forall cap ensures cap in caps <==> InterfacesFor(c, e, x, cap) != {} || cap in e.capabilities {
      if i :| i in x.interfaces && c.capabilityName(i) == cap {
        assert i in InterfacesFor(c, e, x, cap);
      }
    }
  }

  /** The flavors keep the registered names; names of flavors, interfaces and capabilities, old and new, differ. */
  ghost predicate FlavorsFit(c: Classes, k: Checks, e: Extensions, x: Exports, interfaces: Names,
                             capabilities: map<Name, set<Name>>)
  {
    && (forall f | f in x.flavors :: k.deviceClassOk(f, Flavor))
    && Keeps(c, c.generatedName, x.flavors, e.flavors)
    && (forall f | f in x.flavors :: c.generatedName(f) !in interfaces && c.generatedName(f) !in capabilities)
    && forall n | n in interfaces :: n !in capabilities
  }

  lemma FlavorsFitExactlyWhen(c: Classes, k: Checks, e: Extensions, x: Exports)
    requires c.Valid()
    ensures var w := WithInterfaces(c, e, x);
            FlavorNamesOk(c, k, w, x) <==> FlavorsFit(c, k, e, x, w.interfaces, w.capabilities)
  {
    AgreeKeeps(c, c.generatedName, x.flavors, e.flavors);
    BindSetIsDict(c, c.generatedName, x.flavors);
  }

  ghost predicate IsKnownType(c: Classes, e: Extensions, x: Exports, n: Name) {
    n in e.detectCriteria || exists t | t in x.commTypes :: c.plainName(t) == n
  }

  ghost predicate AreKnownTypes(c: Classes, e: Extensions, x: Exports, known: set<Name>) {
    forall n :: n in known <==> IsKnownType(c, e, x, n)
  }

  /** Communication types keep the registered names, queries are for known ones, and no two keys share a path. */
  ghost predicate RestFits(c: Classes, k: Checks, e: Extensions, x: Exports) {
    && (forall t | t in x.commTypes :: k.deviceClassOk(t, CommType))
    && Keeps(c, c.plainName, x.commTypes, e.commTypes)
    && (forall n | n in x.detectCriteria :: IsKnownType(c, e, x, n))
    && (forall known: set<Name> | AreKnownTypes(c, e, x, known) ::
          k.queriesConform(x.detectCriteria, known) == Pass)
    && (forall key | key in x.keys :: k.keyOk(key))
    && (forall key | key in x.keys || key in e.keys :: k.keyPath(key).Some?)
    && (forall a, b | (a in x.keys || a in e.keys) && (b in x.keys || b in e.keys) && a != b ::
          k.keyPath(a) != k.keyPath(b))
    && (x.cliMixin.Some? ==> k.mixinOk(x.cliMixin.value))
  }

  lemma KnownTypes(c: Classes, e: Extensions, x: Exports)
    requires c.Valid()
    ensures var types := e.detectCriteria.Keys + NewCommTypes(c, x).Keys;
            && AreKnownTypes(c, e, x, types)
            && forall known: set<Name> | AreKnownTypes(c, e, x, known) :: known == types
  {
    BindSetIsDict(c, c.plainName, x.commTypes);
    var types := e.detectCriteria.Keys + NewCommTypes(c, x).Keys;
    forall known: set<Name> | AreKnownTypes(c, e, x, known) ensures known == types {
      forall n ensures n in known <==> n in types {}
    }
  }

  lemma CriteriaFitExactlyWhen(c: Classes, k: Checks, e: Extensions, x: Exports)
    requires c.Valid()
    ensures CriteriaVerdict(c, k, e, x) == Pass
            <==> && (forall n | n in x.detectCriteria :: IsKnownType(c, e, x, n))
                 && (forall known: set<Name> | AreKnownTypes(c, e, x, known) ::
                       k.queriesConform(x.detectCriteria, known) == Pass)
  {
    KnownTypes(c, e, x);
  }

  lemma KeysFitExactlyWhen(k: Checks, e: Extensions, x: Exports)
    ensures KeysVerdict(k, e, x) == Pass
            <==> && (forall key | key in x.keys :: k.keyOk(key))
                 && (forall key | key in x.keys || key in e.keys :: k.keyPath(key).Some?)
                 && (forall a, b | (a in x.keys || a in e.keys) && (b in x.keys || b in e.keys) && a != b ::
                       k.keyPath(a) != k.keyPath(b))
  {
  }

  lemma RestFitsExactlyWhen(c: Classes, k: Checks, e: Extensions, x: Exports)
    requires c.Valid()
    ensures RestVerdict(c, k, e, x) == Pass <==> RestFits(c, k, e, x)
  {
    AgreeKeeps(c, c.plainName, x.commTypes, e.commTypes);
    CriteriaFitExactlyWhen(c, k, e, x);
    KeysFitExactlyWhen(k, e, x);
  }

  /** The package is new and complete, and its completed exports pass every check; the device classes against the
      registry that already holds its capabilities. */
  ghost predicate Acceptable(c: Classes, k: Checks, e: Extensions, p: Package, x: Exports, interfaces: Names,
                             capabilities: map<Name, set<Name>>, flavors: Names)
  {
    && p.name !in e.packageInfo && p.version.Some? && p.version.value != ""
    && DevicesFit(c, k, e, x) && InterfacesFit(c, k, e, x) && FlavorsFit(c, k, e, x, interfaces, capabilities)
    && k.flavorsConform(x.flavors) == Pass
    && k.devicesConform(interfaces, capabilities, flavors, Roots(x)) == Pass
    && RestFits(c, k, e, x) && (x.keys == {} || p.downloadKey.Some?)
  }

  /** A package is registered exactly when it is acceptable. */
  lemma RegisteredExactlyWhen(c: Classes, k: Checks, e: Extensions, p: Package, x: Exports, interfaces: Names,
                              capabilities: map<Name, set<Name>>, flavors: Names)
    requires c.Valid() && p.exports.Some? && Roots(p.exports.value) <= c.universe
    requires IsCompleted(c, p.exports.value, x)
    requires Adds(c, c.generatedName, x.interfaces, e.interfaces, interfaces)
    requires AddsCapabilities(c, x, e.capabilities, capabilities)
    requires Adds(c, c.generatedName, x.flavors, e.flavors, flavors)
    ensures Register(c, k, e, p).Registered?
            <==> Acceptable(c, k, e, p, x, interfaces, capabilities, flavors)
  {
    var given := p.exports.value;
    CompletedMeans(c, given);
    CompletedIsUnique(c, given, x, Completed(c, given));
    WrittenCapabilities(c, e, x, interfaces, capabilities, flavors);
    InterfacesAcceptedExactlyWhen(c, k, e, given, x);
    StagesPassExactlyWhen(c, k, e, p, x);
  }

  lemma WrittenCapabilities(c: Classes, e: Extensions, x: Exports, interfaces: Names,
                            capabilities: map<Name, set<Name>>, flavors: Names)
    requires c.Valid()
    requires Adds(c, c.generatedName, x.interfaces, e.interfaces, interfaces)
    requires AddsCapabilities(c, x, e.capabilities, capabilities)
    requires Adds(c, c.generatedName, x.flavors, e.flavors, flavors)
    ensures var w := WithInterfaces(c, e, x);
            interfaces == w.interfaces && capabilities == w.capabilities && flavors == e.flavors + NewFlavorNames(c, x)
  {
    UnionAdds(c, c.generatedName, x.interfaces, e.interfaces);
    AddsIsUnique(c, c.generatedName, x.interfaces, e.interfaces, interfaces, WithInterfaces(c, e, x).interfaces);
    MergeAddsCapabilities(c, x, e.capabilities);
    CapabilitiesAreUnique(c, x, e.capabilities, capabilities, WithInterfaces(c, e, x).capabilities);
    UnionAdds(c, c.generatedName, x.flavors, e.flavors);
    AddsIsUnique(c, c.generatedName, x.flavors, e.flavors, flavors, e.flavors + NewFlavorNames(c, x));
  }

  lemma InterfacesAcceptedExactlyWhen(c: Classes, k: Checks, e: Extensions, given: Exports, x: Exports)
    requires c.Valid() && IsCompleted(c, given, x)
    ensures var w := WithInterfaces(c, e, x);
            InterfacesAccepted(c, k, e, given, x)
            <==> && DevicesFit(c, k, e, x) && InterfacesFit(c, k, e, x)
                 && FlavorsFit(c, k, e, x, w.interfaces, w.capabilities)
  {
    DevicesFitExactlyWhen(c, k, e, given, x);
    InterfacesFitExactlyWhen(c, k, e, x);
    FlavorsFitExactlyWhen(c, k, e, x);
  }

  /** The later stages look at the parts of the registry that the first writes leave alone. */
  lemma StagesPassExactlyWhen(c: Classes, k: Checks, e: Extensions, p: Package, x: Exports)
    requires c.Valid()
    ensures var w := WithInterfaces(c, e, x);
            FlavorStage(c, k, w, x, p).Registered?
            <==> && k.flavorsConform(x.flavors) == Pass
                 && k.devicesConform(w.interfaces, w.capabilities, e.flavors + NewFlavorNames(c, x), Roots(x)) == Pass
                 && RestFits(c, k, e, x) && (x.keys == {} || p.downloadKey.Some?)
  {
    var w := WithFlavors(c, WithInterfaces(c, e, x), x);
    SameRest(c, k, e, w, x);
    RestFitsExactlyWhen(c, k, e, x);
    DeviceStagePassesExactlyWhen(c, k, w, x, p);
  }

  lemma DeviceStagePassesExactlyWhen(c: Classes, k: Checks, e: Extensions, x: Exports, p: Package)
    ensures DeviceStage(c, k, e, x, p).Registered?
            <==> && k.devicesConform(e.interfaces, e.capabilities, e.flavors, Roots(x)) == Pass
                 && RestVerdict(c, k, e, x) == Pass && (x.keys == {} || p.downloadKey.Some?)
  {
    assert Exported(x) == Roots(x);
  }

  lemma SameRest(c: Classes, k: Checks, e: Extensions, f: Extensions, x: Exports)
    requires e.commTypes == f.commTypes && e.detectCriteria == f.detectCriteria && e.keys == f.keys
    ensures RestVerdict(c, k, e, x) == RestVerdict(c, k, f, x)
  {
    assert KeysVerdict(k, e, x) == KeysVerdict(k, f, x);
  }
}
