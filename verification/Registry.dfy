/** The registry of extensions as a value: when a package is accepted, and what registering it then changes. */
module Registry {
  import opened Common
  import opened ImplicitExport

  type Name = string
  type Names = map<Name, ClassId>

  /** Detection queries by query name, for one communication type. */
  type Queries = map<string, string>

  /** gazoo_device.extensions. Keys are identified by object; lists built by list(set(...)) are sets. */
  datatype Extensions = Extensions(
    interfaces: Names,
    capabilities: map<Name, set<Name>>,
    flavors: Names,
    auxiliary: set<ClassId>,
    primary: set<ClassId>,
    virtual: set<ClassId>,
    commTypes: Names,
    detectCriteria: map<Name, Queries>,
    packageInfo: map<string, (string, string)>,
    keys: map<nat, string>,
    cliMixins: seq<ClassId>)

  const EMPTY := Extensions(map[], map[], map[], {}, {}, {}, map[], map[], map[], map[], [])

  /** What export_extensions returns, over the defaults. */
  datatype Exports = Exports(
    auxiliary: set<ClassId>,
    primary: set<ClassId>,
    virtual: set<ClassId>,
    commTypes: set<ClassId>,
    detectCriteria: map<Name, Queries>,
    interfaces: set<ClassId>,
    flavors: set<ClassId>,
    keys: set<nat>,
    cliMixin: Option<ClassId>)

  /** `version` is None unless it is a string, `exports` unless export_extensions is callable, `downloadKey` unless it
      is. */
  datatype Package = Package(name: string, importPath: string, version: Option<string>, exports: Option<Exports>,
                             downloadKey: Option<string>)

  /** The checks that look inside classes and functions; arbitrary. */
  datatype Checks = Checks(
    deviceClassOk: (ClassId, ClassKind) -> bool,     // concrete subclass of the base class of its kind
    sharedInterface: set<ClassId> -> bool,
    flavorsConform: set<ClassId> -> Verdict,
    devicesConform: (Names, map<Name, set<Name>>, Names, set<ClassId>) -> Verdict,
    queriesConform: (map<Name, Queries>, set<Name>) -> Verdict,    // the loop over the queries, given the known types
    keyOk: nat -> bool,
    keyPath: nat -> Option<string>,                  // None when get_key_path raises
    mixinOk: ClassId -> bool)

  datatype ClassKind = Auxiliary | Primary | Virtual | Interface | Flavor | CommType

  // ---------------------------------------------------------------------------------------------------------------
  // Dictionaries from names to classes
  // ---------------------------------------------------------------------------------------------------------------

  /** `{name(x): x for x in s}`: of several classes with one name the last one stays. */
  function Bind(name: ClassId -> Name, s: seq<ClassId>): (r: Names)
    ensures forall n | n in r :: r[n] in s && name(r[n]) == n
    ensures forall x | x in s :: name(x) in r
  {
    if s == [] then map[]
    else
      var k := |s| - 1;
      assert s == s[..k] + [s[k]];
      Bind(name, s[..k])[name(s[k]) := s[k]]
  }

  function BindSet(c: Classes, name: ClassId -> Name, s: set<ClassId>): Names {
    Bind(name, c.order(s))
  }

  /** _raise_if_redefined passes: common names keep their class. */
  predicate Agree(old_: Names, new_: Names) {
    forall n | n in old_ && n in new_ :: old_[n] == new_[n]
  }

  function CapabilityNames(c: Classes, interfaces: Names): set<Name> {
    set n | n in interfaces :: c.capabilityName(interfaces[n])
  }

  /** The capability names of the interfaces, with the interface names. */
  function NewCapabilities(c: Classes, interfaces: Names): (r: map<Name, set<Name>>)
    ensures r.Keys == CapabilityNames(c, interfaces)
  {
    map cap | cap in CapabilityNames(c, interfaces) ::
      set n | n in interfaces && c.capabilityName(interfaces[n]) == cap
  }

  /** Two dictionaries in one; where both have a name, `join` combines the old with the new value. */
  function Merge<V>(old_: map<Name, V>, new_: map<Name, V>, join: (V, V) -> V): (r: map<Name, V>)
    ensures r.Keys == old_.Keys + new_.Keys
  {
    map n | n in old_.Keys + new_.Keys ::
      if n !in new_ then old_[n] else if n !in old_ then new_[n] else join(old_[n], new_[n])
  }

  const JOIN_NAMES: (set<Name>, set<Name>) -> set<Name> := (a: set<Name>, b: set<Name>) => a + b
  const JOIN_QUERIES: (Queries, Queries) -> Queries := (a: Queries, b: Queries) => a + b

  // ---------------------------------------------------------------------------------------------------------------
  // The checks, in the order in which they run
  // ---------------------------------------------------------------------------------------------------------------

  function Devices(e: Extensions): set<ClassId> {
    e.auxiliary + e.primary + e.virtual
  }

  function Exported(x: Exports): set<ClassId> {
    x.auxiliary + x.primary + x.virtual
  }

  /** _validate_device_class_type_and_uniqueness passes. */
  predicate DeviceTypesOk(c: Classes, k: Checks, e: Extensions, x: Exports) {
    && (forall d | d in x.auxiliary :: k.deviceClassOk(d, Auxiliary))
    && (forall d | d in x.primary :: k.deviceClassOk(d, Primary))
    && (forall d | d in x.virtual :: k.deviceClassOk(d, Virtual))
    && (forall a, b | a in Exported(x) && b in Exported(x) && a != b :: c.deviceType(a) != c.deviceType(b))
    && (forall a, b | a in Exported(x) - Devices(e) && b in Devices(e) :: c.deviceType(a) != c.deviceType(b))
  }

  /** The exports together with everything exported implicitly. */
  ghost function Completed(c: Classes, x: Exports): Exports {
    var roots := Exported(x);
    var all := Closure(c, roots);
    var flavors := FlavorsOfAll(c, all);
    x.(interfaces := x.interfaces + InterfacesOfAll(c, flavors, x.interfaces),
       flavors := x.flavors + flavors,
       commTypes := x.commTypes + CommTypesOfAll(c, all),
       auxiliary := x.auxiliary + Only(c.isAuxiliary, all - roots),
       primary := x.primary + Only(c.isPrimary, all - roots))
  }

  function NewInterfaces(c: Classes, x: Exports): Names {
    BindSet(c, c.generatedName, x.interfaces)
  }

  function NewFlavorNames(c: Classes, x: Exports): Names {
    BindSet(c, c.generatedName, x.flavors)
  }

  function NewCommTypes(c: Classes, x: Exports): Names {
    BindSet(c, c.plainName, x.commTypes)
  }

  /** The interface classes that share a capability name, new and registered. */
  function InterfacesFor(c: Classes, e: Extensions, x: Exports, cap: Name): set<ClassId> {
    (set i | i in x.interfaces && c.capabilityName(i) == cap)
    + (if cap in e.capabilities then set n | n in e.capabilities[cap] && n in e.interfaces :: e.interfaces[n] else {})
  }

  /** _validate_capability_interfaces passes. Its first uniqueness check looks at the keys of a dictionary and cannot
      fail. */
  predicate InterfacesOk(c: Classes, k: Checks, e: Extensions, x: Exports) {
    var caps := set i | i in x.interfaces :: c.capabilityName(i);
    && (forall i | i in x.interfaces :: k.deviceClassOk(i, Interface))
    && Agree(e.interfaces, NewInterfaces(c, x))
    && NewInterfaces(c, x).Keys !! caps
    && forall cap | cap in caps + e.capabilities.Keys :: k.sharedInterface(InterfacesFor(c, e, x, cap))
  }

  /** The registry once the interfaces are in. */
  function WithInterfaces(c: Classes, e: Extensions, x: Exports): Extensions {
    e.(interfaces := e.interfaces + NewInterfaces(c, x),
       capabilities := Merge(e.capabilities, NewCapabilities(c, NewInterfaces(c, x)), JOIN_NAMES))
  }

  /** _validate_capability_flavors up to the conformance check, on the registry that holds the new interfaces. The three
      name lists together have no duplicates, so this is also what keeps interface names and capability names apart. */
  predicate FlavorNamesOk(c: Classes, k: Checks, e: Extensions, x: Exports) {
    && (forall f | f in x.flavors :: k.deviceClassOk(f, Flavor))
    && Agree(e.flavors, NewFlavorNames(c, x))
    && NewFlavorNames(c, x).Keys !! e.interfaces.Keys !! e.capabilities.Keys
  }

  function WithFlavors(c: Classes, e: Extensions, x: Exports): Extensions {
    e.(flavors := e.flavors + NewFlavorNames(c, x))
  }

  /** A check that raises PackageRegistrationError or nothing. */
  function Require(ok: bool): Verdict {
    if ok then Pass else Reject
  }

  /** One check and then, if it passes, the next. */
  function Then(a: Verdict, b: Verdict): Verdict {
    if a == Pass then b else a
  }

  /** _validate_comm_type_classes */
  predicate CommTypesOk(c: Classes, k: Checks, e: Extensions, x: Exports) {
    && (forall t | t in x.commTypes :: k.deviceClassOk(t, CommType))
    && Agree(e.commTypes, NewCommTypes(c, x))
  }

  /** _validate_detect_criteria: inspecting a callable that is no function raises TypeError. */
  function CriteriaVerdict(c: Classes, k: Checks, e: Extensions, x: Exports): Verdict {
    var known := e.detectCriteria.Keys + NewCommTypes(c, x).Keys;
    Then(k.queriesConform(x.detectCriteria, known), Require(x.detectCriteria.Keys <= known))
  }

  /** _validate_keys: joining a path from parts that are no strings raises TypeError. */
  function KeysVerdict(k: Checks, e: Extensions, x: Exports): Verdict {
    if exists key | key in x.keys :: !k.keyOk(key) then Reject
    else if exists key | key in e.keys.Keys + x.keys :: k.keyPath(key).None? then Crash
    else Require(KeyPathsDistinct(k, e.keys.Keys + x.keys))
  }

  /** The remaining validations: communication types, detection criteria, keys and the CLI mixin. */
  function RestVerdict(c: Classes, k: Checks, e: Extensions, x: Exports): Verdict {
    Then(Require(CommTypesOk(c, k, e, x)),
         Then(CriteriaVerdict(c, k, e, x),
              Then(KeysVerdict(k, e, x), Require(x.cliMixin.Some? ==> k.mixinOk(x.cliMixin.value)))))
  }

  predicate KeyPathsDistinct(k: Checks, keys: set<nat>) {
    forall a, b | a in keys && b in keys && a != b :: k.keyPath(a) != k.keyPath(b)
  }

  /** The writes after the last validation, up to the check for a download_key function. */
  function WithClasses(c: Classes, e: Extensions, x: Exports): Extensions {
    e.(auxiliary := e.auxiliary + x.auxiliary,
       primary := e.primary + x.primary,
       virtual := e.virtual + x.virtual,
       commTypes := e.commTypes + NewCommTypes(c, x),
       detectCriteria := Merge(e.detectCriteria, x.detectCriteria, JOIN_QUERIES))
  }

  function DownloadKeys(keys: set<nat>, f: string): map<nat, string> {
    map key | key in keys :: f
  }

  /** The final writes. */
  function WithPackage(e: Extensions, x: Exports, p: Package, version: string): Extensions {
    e.(keys := e.keys + DownloadKeys(x.keys, if p.downloadKey.Some? then p.downloadKey.value else ""),
       cliMixins := e.cliMixins + (if x.cliMixin.Some? then [x.cliMixin.value] else []),
       packageInfo := e.packageInfo[p.name := (version, p.importPath)])
  }

  // ---------------------------------------------------------------------------------------------------------------
  // register, declaratively
  // ---------------------------------------------------------------------------------------------------------------

  predicate PackageOk(e: Extensions, p: Package) {
    && p.name !in e.packageInfo
    && p.version.Some? && p.version.value != ""
    && p.exports.Some?
  }

  /** A registration ends in one of these ways; after a crash part of the writes are in. */
  datatype Outcome = Registered(after: Extensions) | Rejected | Crashed(partial: Extensions)

  /** What `register` does with package `p` in state `e`. */
  ghost function Register(c: Classes, k: Checks, e: Extensions, p: Package): Outcome {
    if !PackageOk(e, p) then Rejected
    else
      var given := p.exports.value;
      var x := Completed(c, given);
      if !InterfacesAccepted(c, k, e, given, x) then Rejected
      else FlavorStage(c, k, WithInterfaces(c, e, x), x, p)
  }

  predicate InterfacesAccepted(c: Classes, k: Checks, e: Extensions, given: Exports, x: Exports) {
    && DeviceTypesOk(c, k, e, given) && DeviceTypesOk(c, k, e, x)
    && InterfacesOk(c, k, e, x) && FlavorNamesOk(c, k, WithInterfaces(c, e, x), x)
  }

  /** From the conformance check of the flavors on, with the interfaces written. */
  ghost function FlavorStage(c: Classes, k: Checks, e: Extensions, x: Exports, p: Package): Outcome {
    match k.flavorsConform(x.flavors)
    case Crash => Crashed(e)
    case Reject => Rejected
    case Pass => DeviceStage(c, k, WithFlavors(c, e, x), x, p)
  }

  /** From the conformance check of the device classes on, with the flavors written. */
  ghost function DeviceStage(c: Classes, k: Checks, e: Extensions, x: Exports, p: Package): Outcome {
    match Then(k.devicesConform(e.interfaces, e.capabilities, e.flavors, Exported(x)), RestVerdict(c, k, e, x))
    case Crash => Crashed(e)
    case Reject => Rejected
    case Pass =>
      if x.keys != {} && p.downloadKey.None? then Rejected
      else Registered(WithPackage(WithClasses(c, e, x), x, p, if p.version.Some? then p.version.value else ""))
  }

  /** The registry after `register` has returned or raised. */
  ghost function After(c: Classes, k: Checks, e: Extensions, p: Package): Extensions {
    match Register(c, k, e, p)
    case Registered(after) => after
    case Rejected => e
    case Crashed(partial) => partial
  }
}
