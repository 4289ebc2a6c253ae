/** Where registration falls short of what is expected of it, and exactly when: exceptions that are not rolled back, and
    names that mean one thing to one package and another to the next. */
module RegistryLimits {
  import opened Common
  import opened ImplicitExport
  import opened Registry
  import opened RegistryRuns
  import opened NameResolution

  // ---------------------------------------------------------------------------------------------------------------
  // Exceptions that are not rolled back
  // ---------------------------------------------------------------------------------------------------------------

  /** Joining the interfaces of registered names to their capabilities adds nothing. */
  lemma NoNewCapabilities(c: Classes, e: Extensions, new_: Names)
    requires ListsInterfaces(c, e.interfaces, e.capabilities) && Agree(e.interfaces, new_)
        && new_.Keys <= e.interfaces.Keys
    ensures Merge(e.capabilities, NewCapabilities(c, new_), JOIN_NAMES) == e.capabilities
  {
    var caps := NewCapabilities(c, new_);
    forall cap | cap in caps
      ensures cap in e.capabilities && caps[cap] <= e.capabilities[cap]
    {
      var n :| n in new_ && c.capabilityName(new_[n]) == cap;
      assert e.interfaces[n] == new_[n];
      forall m | m in caps[cap] ensures m in e.capabilities[cap] {
        assert e.interfaces[m] == new_[m];
      }
    }
    assert e.capabilities.Keys + caps.Keys == e.capabilities.Keys;
    forall cap | cap in caps
      ensures JOIN_NAMES(e.capabilities[cap], caps[cap]) == e.capabilities[cap]
    {
    }
  }

  lemma InterfacesAddNothing(c: Classes, e: Extensions, x: Exports)
    requires ListsInterfaces(c, e.interfaces, e.capabilities) && Agree(e.interfaces, NewInterfaces(c, x))
    ensures WithInterfaces(c, e, x) == e <==> NewInterfaces(c, x).Keys <= e.interfaces.Keys
  {
    var new_ := NewInterfaces(c, x);
    if new_.Keys <= e.interfaces.Keys {
      NoNewCapabilities(c, e, new_);
      assert e.interfaces + new_ == e.interfaces;
    } else {
      var n :| n in new_ && n !in e.interfaces;
      assert n in WithInterfaces(c, e, x).interfaces;
    }
  }

  lemma FlavorsAddNothing(c: Classes, e: Extensions, x: Exports)
    requires Agree(e.flavors, NewFlavorNames(c, x))
    ensures WithFlavors(c, e, x) == e <==> NewFlavorNames(c, x).Keys <= e.flavors.Keys
  {
    var new_ := NewFlavorNames(c, x);
    if new_.Keys <= e.flavors.Keys {
      assert e.flavors + new_ == e.flavors;
    } else {
      var n :| n in new_ && n !in e.flavors;
      assert n in WithFlavors(c, e, x).flavors;
    }
  }

  /** What a crash leaves behind. */
  lemma CrashLeaves(c: Classes, k: Checks, e: Extensions, p: Package)
    requires Register(c, k, e, p).Crashed?
    ensures PackageOk(e, p)
    ensures var x := Completed(c, p.exports.value);
            && Agree(e.interfaces, NewInterfaces(c, x)) && Agree(e.flavors, NewFlavorNames(c, x))
            && After(c, k, e, p) == if k.flavorsConform(x.flavors) == Crash then WithInterfaces(c, e, x)
                                    else WithFlavors(c, WithInterfaces(c, e, x), x)
  {
    var x := Completed(c, p.exports.value);
    assert Register(c, k, e, p) == FlavorStage(c, k, WithInterfaces(c, e, x), x, p);
    FlavorStageCrash(c, k, WithInterfaces(c, e, x), x, p);
  }

  lemma FlavorStageCrash(c: Classes, k: Checks, e: Extensions, x: Exports, p: Package)
    requires FlavorStage(c, k, e, x, p).Crashed?
    ensures FlavorStage(c, k, e, x, p)
         == Crashed(if k.flavorsConform(x.flavors) == Crash then e else WithFlavors(c, e, x))
  {
  }

  /** After an exception other than PackageRegistrationError the registry is as before exactly when the package brings
      no interface name and, if the exception comes after the check of the flavors, no flavor name that is new. */
  lemma CrashUnchangedExactlyWhen(c: Classes, k: Checks, e: Extensions, p: Package)
    requires Inv(c, k, e) && Register(c, k, e, p).Crashed?
    ensures PackageOk(e, p)
    ensures var x := Completed(c, p.exports.value);
            After(c, k, e, p) == e
            <==> NewInterfaces(c, x).Keys <= e.interfaces.Keys
                 && (k.flavorsConform(x.flavors) == Crash || NewFlavorNames(c, x).Keys <= e.flavors.Keys)
  {
    CrashLeaves(c, k, e, p);
    var x := Completed(c, p.exports.value);
    InterfacesAddNothing(c, e, x);
    FlavorsAddNothing(c, e, x);
    var partial := WithFlavors(c, WithInterfaces(c, e, x), x);
    assert partial.interfaces == WithInterfaces(c, e, x).interfaces
        && partial.capabilities == WithInterfaces(c, e, x).capabilities;
    assert partial.flavors == WithFlavors(c, e, x).flavors;
  }

  // ---------------------------------------------------------------------------------------------------------------
  // Interfaces and older names
  // ---------------------------------------------------------------------------------------------------------------

  /** Every interface of an accepted package is what its name means exactly when no two of them share a name and no
      flavor registered earlier has it. */
  lemma InterfacesFoundExactlyWhen(t: Text, c: Classes, k: Checks, e: Extensions, p: Package)
    requires t.Valid() && c.Valid() && Inv(c, k, e) && Register(c, k, e, p).Registered?
    ensures Inv(c, k, After(c, k, e, p))
    ensures var interfaces := Completed(c, p.exports.value).interfaces;
            (forall i | i in interfaces :: Resolve(t, c, After(c, k, e, p), c.generatedName(i)) == AsInterface(i))
            <==> && NamesDiffer(c.generatedName, interfaces)
                 && forall i | i in interfaces :: c.generatedName(i) !in e.flavors
  {
    RegisterKeepsInv(c, k, e, p);
    RegisteredNames(c, k, e, p);
    var x := Completed(c, p.exports.value);
    BoundExactlyWhen(c, c.generatedName, x.interfaces);
  }

  /** The names after an accepted registration. */
  lemma RegisteredNames(c: Classes, k: Checks, e: Extensions, p: Package)
    requires c.Valid() && Register(c, k, e, p).Registered?
    ensures PackageOk(e, p)
    ensures var x, after := Completed(c, p.exports.value), After(c, k, e, p);
            && after.flavors.Keys == e.flavors.Keys + NewFlavorNames(c, x).Keys
            && NewFlavorNames(c, x).Keys !! NewInterfaces(c, x).Keys
            && forall i | i in x.interfaces ::
                 && c.generatedName(i) in NewInterfaces(c, x) && c.generatedName(i) in after.interfaces
                 && after.interfaces[c.generatedName(i)] == NewInterfaces(c, x)[c.generatedName(i)]
  {
    RegisteredIsCommitted(c, k, e, p);
    var x := Completed(c, p.exports.value);
    BoundExactlyWhen(c, c.generatedName, x.interfaces);
    LaterWins(e.interfaces, NewInterfaces(c, x));
  }

  lemma NameIsCapability(c: Classes, k: Checks, e: Extensions, x: Exports)
    requires NewInterfaces(c, x).Keys * e.capabilities.Keys != {}
    ensures !FlavorNamesOk(c, k, WithInterfaces(c, e, x), x)
  {
    var n :| n in NewInterfaces(c, x).Keys * e.capabilities.Keys;
    assert n in WithInterfaces(c, e, x).interfaces && n in WithInterfaces(c, e, x).capabilities;
  }

  /** An interface named like a registered capability is never accepted, and it is the check of the flavor names that
      stops it, whatever the flavors. */
  lemma InterfaceNamedLikeCapability(c: Classes, k: Checks, e: Extensions, p: Package)
    requires PackageOk(e, p)
    requires NewInterfaces(c, Completed(c, p.exports.value)).Keys * e.capabilities.Keys != {}
    ensures var x := Completed(c, p.exports.value); !FlavorNamesOk(c, k, WithInterfaces(c, e, x), x)
    ensures Register(c, k, e, p).Rejected?
  {
    var x := Completed(c, p.exports.value);
    NameIsCapability(c, k, e, x);
    assert !InterfacesAccepted(c, k, e, p.exports.value, x);
  }

  // ---------------------------------------------------------------------------------------------------------------
  // Packages for which it happens
  // ---------------------------------------------------------------------------------------------------------------

  /** A package without device classes exports nothing implicitly. */
  lemma NothingImplicit(c: Classes, x: Exports)
    requires c.Valid() && Exported(x) == {}
    ensures Completed(c, x) == x
  {
    ClosureIsLeast(c, {});
    assert Closed(c, {});
    assert Closure(c, {}) == {};
    assert x.flavors + FlavorsOfAll(c, {}) == x.flavors;
    assert FlavorsOfAll(c, {}) == {} && CommTypesOfAll(c, {}) == {} && InterfacesOfAll(c, {}, x.interfaces) == {};
    assert Only(c.isAuxiliary, {}) == {} && Only(c.isPrimary, {}) == {};
    assert x.interfaces + {} == x.interfaces && x.commTypes + {} == x.commTypes;
    assert x.auxiliary + {} == x.auxiliary && x.primary + {} == x.primary && {} - Exported(x) == {};
  }

  /** All checks pass, but the one of the flavors ends like this. */
  function Lenient(flavors: Verdict): Checks {
    Checks((x: ClassId, kind: ClassKind) => true, (s: set<ClassId>) => true, (s: set<ClassId>) => flavors,
           (i: Names, cap: map<Name, set<Name>>, f: Names, d: set<ClassId>) => Pass,
           (q: map<Name, Queries>, known: set<Name>) => Pass, (key: nat) => true, (key: nat) => Some(""),
           (x: ClassId) => true)
  }

  function Exporting(name: string, interfaces: set<ClassId>, flavors: set<ClassId>): Package {
    Package(name, name, Some("1.0"), Some(Exports({}, {}, {}, {}, map[], interfaces, flavors, {}, None)), None)
  }

  lemma BindOne(c: Classes, name: ClassId -> Name, x: ClassId)
    requires c.Valid()
    ensures BindSet(c, name, {x}) == map[name(x) := x] && BindSet(c, name, {}) == map[]
  {
    var s := c.order({x});
    assert |s| == |{x}| == 1 && s[0] in s;
    assert s == [x] && s[..0] == [];
    assert Bind(name, s[..0]) == map[];
    var none: set<ClassId> := {};
    assert |c.order(none)| == |none| == 0;
  }

  /** What these checks and a package of interfaces and flavors come to: the names decide. */
  lemma NamesDecide(c: Classes, flavors: Verdict, e: Extensions, x: Exports)
    requires Exported(x) == {}
    requires Agree(e.interfaces, NewInterfaces(c, x)) && Agree(e.flavors, NewFlavorNames(c, x))
    requires NewInterfaces(c, x).Keys !! (set i | i in x.interfaces :: c.capabilityName(i))
    ensures InterfacesOk(c, Lenient(flavors), e, x)
    ensures var all := WithInterfaces(c, e, x);
            InterfacesAccepted(c, Lenient(flavors), e, x, x)
            <==> NewFlavorNames(c, x).Keys !! all.interfaces.Keys !! all.capabilities.Keys
  {
  }

  lemma FlavorVerdictDecides(c: Classes, flavors: Verdict, e: Extensions, p: Package)
    requires c.Valid() && PackageOk(e, p) && Exported(p.exports.value) == {}
    requires InterfacesAccepted(c, Lenient(flavors), e, p.exports.value, p.exports.value)
    ensures flavors == Crash ==> Register(c, Lenient(flavors), e, p) == Crashed(WithInterfaces(c, e, p.exports.value))
  {
    NothingImplicit(c, p.exports.value);
  }

  lemma InterfaceAccepted(c: Classes, flavors: Verdict, i: ClassId)
    requires c.Valid() && c.generatedName(i) != c.capabilityName(i)
    ensures var x := Exporting("first", {i}, {}).exports.value;
            NewInterfaces(c, x) == map[c.generatedName(i) := i] && InterfacesAccepted(c, Lenient(flavors), EMPTY, x, x)
  {
    BindOne(c, c.generatedName, i);
    NamesDecide(c, flavors, EMPTY, Exporting("first", {i}, {}).exports.value);
  }

  /** For any interface that is not named like its capability: it stays registered although registering its package, as
      the first one, has failed. */
  lemma CrashLeavesInterface(c: Classes, i: ClassId)
    requires c.Valid() && c.generatedName(i) != c.capabilityName(i)
    ensures var k, p := Lenient(Crash), Exporting("first", {i}, {});
            Register(c, k, EMPTY, p).Crashed? && c.generatedName(i) in After(c, k, EMPTY, p).interfaces
  {
    var x := Exporting("first", {i}, {}).exports.value;
    InterfaceAccepted(c, Crash, i);
    FlavorVerdictDecides(c, Crash, EMPTY, Exporting("first", {i}, {}));
    AfterCrash(c, Lenient(Crash), EMPTY, Exporting("first", {i}, {}), WithInterfaces(c, EMPTY, x));
  }

  lemma AfterCrash(c: Classes, k: Checks, e: Extensions, p: Package, partial: Extensions)
    requires Register(c, k, e, p) == Crashed(partial)
    ensures After(c, k, e, p) == partial
  {
  }

  /** The exports consist of interfaces and flavors. */
  predicate Plain(x: Exports) {
    x == Exports({}, {}, {}, {}, map[], x.interfaces, x.flavors, {}, None)
  }

  /** The names in the registry, and what else a package of interfaces and flavors changes. */
  ghost predicate NamesAre(e: Extensions, interfaces: Registry.Names, flavors: Registry.Names,
                           capabilities: map<Name, set<Name>>, packages: set<string>)
  {
    && e.interfaces == interfaces && e.flavors == flavors && e.capabilities == capabilities
    && e.keys == map[] && e.packageInfo.Keys == packages
  }

  lemma CommittedNames(c: Classes, e: Extensions, x: Exports, p: Package, version: string)
    requires Plain(x) && e.keys == map[]
    ensures NamesAre(Committed(c, e, x, p, version),
                     e.interfaces + NewInterfaces(c, x), e.flavors + NewFlavorNames(c, x),
                     Merge(e.capabilities, NewCapabilities(c, NewInterfaces(c, x)), JOIN_NAMES),
                     e.packageInfo.Keys + {p.name})
  {
    assert DownloadKeys({}, if p.downloadKey.Some? then p.downloadKey.value else "") == map[];
  }

  lemma LenientRegisters(c: Classes, e: Extensions, p: Package)
    requires c.Valid() && PackageOk(e, p) && Plain(p.exports.value) && e.keys == map[]
    requires InterfacesAccepted(c, Lenient(Pass), e, p.exports.value, p.exports.value)
    ensures Register(c, Lenient(Pass), e, p).Registered?
  {
    NothingImplicit(c, p.exports.value);
    NothingElseToCheck(c, WithFlavors(c, WithInterfaces(c, e, p.exports.value), p.exports.value), p.exports.value);
  }

  lemma PassRegisters(c: Classes, e: Extensions, p: Package)
    requires c.Valid() && PackageOk(e, p) && Plain(p.exports.value) && e.keys == map[]
    requires InterfacesAccepted(c, Lenient(Pass), e, p.exports.value, p.exports.value)
    ensures Register(c, Lenient(Pass), e, p).Registered?
    ensures var x := p.exports.value;
            NamesAre(After(c, Lenient(Pass), e, p),
                     e.interfaces + NewInterfaces(c, x), e.flavors + NewFlavorNames(c, x),
                     Merge(e.capabilities, NewCapabilities(c, NewInterfaces(c, x)), JOIN_NAMES),
                     e.packageInfo.Keys + {p.name})
  {
    LenientRegisters(c, e, p);
    NothingImplicit(c, p.exports.value);
    RegisteredIsCommitted(c, Lenient(Pass), e, p);
    CommittedNames(c, e, p.exports.value, p, p.version.value);
  }

  lemma NothingElseToCheck(c: Classes, e: Extensions, x: Exports)
    requires c.Valid() && Plain(x) && e.keys == map[]
    ensures RestVerdict(c, Lenient(Pass), e, x) == Pass
  {
    BindOne(c, c.plainName, 0);
  }

  lemma NoCapabilities(c: Classes)
    ensures Merge(map[], NewCapabilities(c, map[]), JOIN_NAMES) == map[]
  {
  }

  lemma OneCapability(c: Classes, n: Name, i: ClassId)
    ensures NewCapabilities(c, map[n := i]).Keys == {c.capabilityName(i)}
  {
    assert (map[n := i])[n] == i;
  }

  lemma FlavorAccepted(c: Classes, f: ClassId)
    requires c.Valid()
    ensures var x := Exporting("first", {}, {f}).exports.value;
            && NewInterfaces(c, x) == map[] && NewFlavorNames(c, x) == map[c.generatedName(f) := f]
            && InterfacesAccepted(c, Lenient(Pass), EMPTY, x, x)
  {
    BindOne(c, c.generatedName, f);
    NoCapabilities(c);
    NamesDecide(c, Pass, EMPTY, Exporting("first", {}, {f}).exports.value);
  }

  lemma FlavorNames(c: Classes, e: Extensions, f: ClassId)
    requires var x := Exporting("first", {}, {f}).exports.value;
             && NewInterfaces(c, x) == map[] && NewFlavorNames(c, x) == map[c.generatedName(f) := f]
             && NamesAre(e, EMPTY.interfaces + NewInterfaces(c, x), EMPTY.flavors + NewFlavorNames(c, x),
                      Merge(EMPTY.capabilities, NewCapabilities(c, NewInterfaces(c, x)), JOIN_NAMES), {} + {"first"})
    ensures NamesAre(e, map[], map[c.generatedName(f) := f], map[], {"first"})
  {
    NoCapabilities(c);
    assert map[] + map[c.generatedName(f) := f] == map[c.generatedName(f) := f];
  }

  /** A package with one flavor, as the first one. */
  lemma FlavorFirst(c: Classes, f: ClassId) returns (e: Extensions)
    requires c.Valid()
    ensures Register(c, Lenient(Pass), EMPTY, Exporting("first", {}, {f})) == Registered(e)
    ensures NamesAre(e, map[], map[c.generatedName(f) := f], map[], {"first"})
  {
    e := After(c, Lenient(Pass), EMPTY, Exporting("first", {}, {f}));
    FlavorAccepted(c, f);
    PassRegisters(c, EMPTY, Exporting("first", {}, {f}));
    FlavorNames(c, e, f);
  }

  lemma SecondAccepted(c: Classes, e: Extensions, f: ClassId, i: ClassId)
    requires c.Valid() && c.generatedName(f) == c.generatedName(i) != c.capabilityName(i)
    requires NamesAre(e, map[], map[c.generatedName(f) := f], map[], {"first"})
    ensures var x := Exporting("second", {i}, {}).exports.value;
            && NewInterfaces(c, x) == map[c.generatedName(i) := i] && NewFlavorNames(c, x) == map[]
            && InterfacesAccepted(c, Lenient(Pass), e, x, x)
  {
    BindOne(c, c.generatedName, i);
    OneCapability(c, c.generatedName(i), i);
    NamesDecide(c, Pass, e, Exporting("second", {i}, {}).exports.value);
  }

  /** After it, a package with one interface of the same name. */
  lemma InterfaceSecond(c: Classes, e: Extensions, f: ClassId, i: ClassId) returns (after: Extensions)
    requires c.Valid() && c.generatedName(f) == c.generatedName(i) != c.capabilityName(i)
    requires NamesAre(e, map[], map[c.generatedName(f) := f], map[], {"first"})
    ensures Register(c, Lenient(Pass), e, Exporting("second", {i}, {})) == Registered(after)
    ensures after.flavors == map[c.generatedName(f) := f] && after.interfaces == map[c.generatedName(i) := i]
  {
    after := After(c, Lenient(Pass), e, Exporting("second", {i}, {}));
    SecondAccepted(c, e, f, i);
    PassRegisters(c, e, Exporting("second", {i}, {}));
    JoinedNames(e, after, c.generatedName(f), f, i);
  }

  lemma JoinedNames(e: Extensions, after: Extensions, n: Name, f: ClassId, i: ClassId)
    requires e.interfaces == map[] && e.flavors == map[n := f]
    requires after.interfaces == e.interfaces + map[n := i] && after.flavors == e.flavors + map[]
    ensures after.interfaces == map[n := i] && after.flavors == map[n := f]
  {
  }

  /** For any flavor f and interface i of one name: if f is registered first, both packages are accepted, and the name
      means f, although the interface is registered under it. */
  lemma FlavorHidesInterface(t: Text, c: Classes, f: ClassId, i: ClassId)
    requires t.Valid() && c.Valid() && c.generatedName(f) == c.generatedName(i) != c.capabilityName(i)
    ensures var k, ps := Lenient(Pass), [Exporting("first", {}, {f}), Exporting("second", {i}, {})];
            var e := Run(c, k, EMPTY, ps);
            && Inv(c, k, e) && c.generatedName(i) in e.interfaces && e.interfaces[c.generatedName(i)] == i
            && Resolve(t, c, e, c.generatedName(i)) == AsFlavor(f)
  {
    var k, p, q := Lenient(Pass), Exporting("first", {}, {f}), Exporting("second", {i}, {});
    EmptyInv(c, k);
    RunKeepsInv(c, k, EMPTY, [p, q]);
    TwoPackages(c, k, p, q);
    var e := FlavorFirst(c, f);
    var after := InterfaceSecond(c, e, f, i);
  }

  lemma TwoPackages(c: Classes, k: Checks, p: Package, q: Package)
    ensures Run(c, k, EMPTY, [p, q]) == After(c, k, After(c, k, EMPTY, p), q)
  {
    assert [p, q][..1] == [p] && [p][..0] == [];
    assert Run(c, k, EMPTY, []) == EMPTY;
    assert Run(c, k, EMPTY, [p]) == After(c, k, EMPTY, p);
  }

  /** And an interface i named like the capability of a registered one, j: its own checks pass. */
  lemma InterfaceChecksPass(c: Classes, e: Extensions, j: ClassId, i: ClassId)
    requires c.Valid() && c.generatedName(i) == c.capabilityName(j)
    requires c.generatedName(i) != c.generatedName(j) && c.generatedName(i) != c.capabilityName(i)
    requires e.interfaces == map[c.generatedName(j) := j]
    requires e.capabilities == map[c.capabilityName(j) := {c.generatedName(j)}]
    requires e.flavors == map[]
    ensures var x := Exporting("second", {i}, {}).exports.value;
            && InterfacesOk(c, Lenient(Pass), e, x)
            && NewInterfaces(c, x).Keys * e.capabilities.Keys != {}
  {
    var x := Exporting("second", {i}, {}).exports.value;
    BindOne(c, c.generatedName, i);
    NamesDecide(c, Pass, e, x);
    assert c.generatedName(i) in NewInterfaces(c, x).Keys * e.capabilities.Keys;
  }

  // ---------------------------------------------------------------------------------------------------------------
  // Two classes of one name in one package
  // ---------------------------------------------------------------------------------------------------------------

  /** Of two classes of one name a dictionary by names holds one. */
  lemma BindTwo(c: Classes, name: ClassId -> Name, a: ClassId, b: ClassId) returns (x: ClassId)
    requires c.Valid() && name(a) == name(b)
    ensures x in {a, b} && BindSet(c, name, {a, b}) == map[name(a) := x]
  {
    var r := BindSet(c, name, {a, b});
    assert a in c.order({a, b});
    x := r[name(a)];
    assert forall n | n in r :: r[n] in {a, b} && n == name(a);
  }

  lemma TwinFlavorsAccepted(c: Classes, f: ClassId, g: ClassId) returns (x: ClassId)
    requires c.Valid() && c.generatedName(f) == c.generatedName(g)
    ensures x in {f, g}
    ensures var exported := Exporting("first", {}, {f, g}).exports.value;
            && NewInterfaces(c, exported) == map[] && NewFlavorNames(c, exported) == map[c.generatedName(f) := x]
            && InterfacesAccepted(c, Lenient(Pass), EMPTY, exported, exported)
  {
    x := BindTwo(c, c.generatedName, f, g);
    BindOne(c, c.generatedName, f);
    NoCapabilities(c);
    NamesDecide(c, Pass, EMPTY, Exporting("first", {}, {f, g}).exports.value);
  }

  /** Any two flavors of one name are accepted in one package, and one of them is in the registry afterwards. */
  lemma TwinFlavorIsLost(c: Classes, f: ClassId, g: ClassId) returns (x: ClassId, e: Extensions)
    requires c.Valid() && f != g && c.generatedName(f) == c.generatedName(g)
    ensures Register(c, Lenient(Pass), EMPTY, Exporting("first", {}, {f, g})) == Registered(e)
    ensures x in {f, g} && e.flavors == map[c.generatedName(f) := x]
  {
    x := TwinFlavorsAccepted(c, f, g);
    e := After(c, Lenient(Pass), EMPTY, Exporting("first", {}, {f, g}));
    PassRegisters(c, EMPTY, Exporting("first", {}, {f, g}));
    OnlyNew(EMPTY.flavors, c.generatedName(f), x);
  }

  lemma OnlyNew(names: Registry.Names, n: Name, x: ClassId)
    requires names == map[]
    ensures names + map[n := x] == map[n := x]
  {
  }

  lemma TwinInterfaceNames(c: Classes, i: ClassId, j: ClassId) returns (x: ClassId)
    requires c.Valid() && c.generatedName(i) == c.generatedName(j)
    ensures x in {i, j}
    ensures var exported := Exporting("first", {i, j}, {}).exports.value;
            NewInterfaces(c, exported) == map[c.generatedName(i) := x] && NewFlavorNames(c, exported) == map[]
    ensures NewCapabilities(c, map[c.generatedName(i) := x]).Keys == {c.capabilityName(x)}
  {
    x := BindTwo(c, c.generatedName, i, j);
    BindOne(c, c.generatedName, i);
    OneCapability(c, c.generatedName(i), x);
  }

  lemma TwinInterfacesAccepted(c: Classes, i: ClassId, j: ClassId) returns (x: ClassId)
    requires c.Valid() && c.generatedName(i) == c.generatedName(j)
    requires c.generatedName(i) != c.capabilityName(i) && c.generatedName(i) != c.capabilityName(j)
    ensures x in {i, j}
    ensures NewInterfaces(c, Exporting("first", {i, j}, {}).exports.value) == map[c.generatedName(i) := x]
    ensures NewFlavorNames(c, Exporting("first", {i, j}, {}).exports.value) == map[]
    ensures var exported := Exporting("first", {i, j}, {}).exports.value;
            InterfacesAccepted(c, Lenient(Pass), EMPTY, exported, exported)
  {
    x := TwinInterfaceNames(c, i, j);
    NamesDecide(c, Pass, EMPTY, Exporting("first", {i, j}, {}).exports.value);
  }

  /** And so it is with any two interfaces of one name that is not their capabilities'. */
  lemma TwinInterfaceIsLost(c: Classes, i: ClassId, j: ClassId) returns (x: ClassId, e: Extensions)
    requires c.Valid() && i != j && c.generatedName(i) == c.generatedName(j)
    requires c.generatedName(i) != c.capabilityName(i) && c.generatedName(i) != c.capabilityName(j)
    ensures Register(c, Lenient(Pass), EMPTY, Exporting("first", {i, j}, {})) == Registered(e)
    ensures x in {i, j} && e.interfaces == map[c.generatedName(i) := x]
  {
    x := TwinInterfacesAccepted(c, i, j);
    e := After(c, Lenient(Pass), EMPTY, Exporting("first", {i, j}, {}));
    PassRegisters(c, EMPTY, Exporting("first", {i, j}, {}));
    OnlyNew(EMPTY.interfaces, c.generatedName(i), x);
  }
}
