/** package_registrar.register as it runs: staged writes into the global registry, checks in between, and a rollback
    from a copy. Detection queries live in dictionaries that are updated in place. */
module Registrar {
  import opened Common
  import opened ImplicitExport
  import opened Registry
  import opened RegistryRuns

  /** A mutable dictionary of detection queries. */
  class QueryDict {
    var queries: Queries

    constructor (queries: Queries)
      ensures this.queries == queries
    {
      this.queries := queries;
    }
  }

  /** How register ends: it returns, raises PackageRegistrationError, or raises another exception. */
  datatype Status = Done | RegistrationError | OtherError

  datatype Backup = Backup(interfaces: Names, capabilities: map<Name, set<Name>>, flavors: Names,
                           auxiliary: set<ClassId>, primary: set<ClassId>, virtual: set<ClassId>, commTypes: Names,
                           detectCriteria: map<Name, QueryDict>, packageInfo: map<string, (string, string)>,
                           keys: map<nat, string>)

  function Contents(criteria: map<Name, QueryDict>): map<Name, Queries>
    reads criteria.Values
  {
    map n | n in criteria :: criteria[n].queries
  }

  /** No dictionary is reachable under two names. */
  ghost predicate Separate(criteria: map<Name, QueryDict>) {
    forall a, b | a in criteria && b in criteria && a != b :: criteria[a] != criteria[b]
  }

  /** The module gazoo_device.extensions. */
  class Globals {
    var interfaces: Names
    var capabilities: map<Name, set<Name>>
    var flavors: Names
    var auxiliary: set<ClassId>
    var primary: set<ClassId>
    var virtual: set<ClassId>
    var commTypes: Names
    var detectCriteria: map<Name, QueryDict>
    var packageInfo: map<string, (string, string)>
    var keys: map<nat, string>
    var cliMixins: seq<ClassId>

    /** The registry as a value. */
    function View(): Extensions
      reads this, detectCriteria.Values
    {
      Extensions(interfaces, capabilities, flavors, auxiliary, primary, virtual, commTypes, Contents(detectCriteria),
                 packageInfo, keys, cliMixins)
    }

    constructor ()
      ensures View() == EMPTY && Separate(detectCriteria)
    {
      interfaces, capabilities, flavors := map[], map[], map[];
      auxiliary, primary, virtual := {}, {}, {};
      commTypes, detectCriteria, packageInfo, keys, cliMixins := map[], map[], map[], map[], [];
    }

    /** _copy_extensions: everything but the CLI mixins. */
    method CopyExtensions() returns (b: Backup)
      ensures Separate(b.detectCriteria) && forall n | n in b.detectCriteria :: fresh(b.detectCriteria[n])
      ensures Restored(b, Contents(b.detectCriteria), cliMixins) == View()
    {
      var criteria := DeepCopy(detectCriteria, detectCriteria.Keys);
      b := Backup(interfaces, capabilities, flavors, auxiliary, primary, virtual, commTypes, criteria,
                  packageInfo, keys);
    }

    method RestoreNames(b: Backup)
      modifies this`interfaces, this`capabilities, this`flavors, this`commTypes, this`detectCriteria
      ensures interfaces == b.interfaces && capabilities == b.capabilities && flavors == b.flavors
      ensures commTypes == b.commTypes && detectCriteria == b.detectCriteria
    {
      interfaces, capabilities, flavors := b.interfaces, b.capabilities, b.flavors;
      commTypes, detectCriteria := b.commTypes, b.detectCriteria;
    }

    method RestoreLists(b: Backup)
      modifies this`auxiliary, this`primary, this`virtual, this`packageInfo, this`keys
      ensures auxiliary == b.auxiliary && primary == b.primary && virtual == b.virtual
      ensures packageInfo == b.packageInfo && keys == b.keys
    {
      auxiliary, primary, virtual := b.auxiliary, b.primary, b.virtual;
      packageInfo, keys := b.packageInfo, b.keys;
    }

    /** _restore_extensions */
    method RestoreExtensions(b: Backup)
      modifies this
      ensures View() == Restored(b, old(Contents(b.detectCriteria)), old(cliMixins))
      ensures detectCriteria == b.detectCriteria
    {
      RestoreNames(b);
      RestoreLists(b);
      SameContentsAsBefore(b.detectCriteria);
    }

    /** The loop that adds the new interface names to the capabilities. */
    method UpdateCapabilities(new_: map<Name, set<Name>>)
      modifies this`capabilities
      ensures capabilities == Merge(old(capabilities), new_, JOIN_NAMES)
    {
      var done: set<Name> := {};
      while done != new_.Keys
        invariant done <= new_.Keys
        invariant capabilities == Merge(old(capabilities), Restrict(new_, done), JOIN_NAMES)
        decreases |new_.Keys - done|
      {
        var n :| n in new_.Keys - done;
        FewerLeft(new_.Keys, done, n);
        MergeStep(old(capabilities), new_, done, n, JOIN_NAMES);
        capabilities := capabilities[n := if n in capabilities then capabilities[n] + new_[n] else new_[n]];
        done := done + {n};
      }
      RestrictAll(new_);
    }

    /** Adds queries for one communication type, in place when the type has a dictionary. */
    method PutQueries(n: Name, queries: Queries)
      requires Separate(detectCriteria)
      modifies this`detectCriteria, detectCriteria.Values
      ensures Separate(detectCriteria) && fresh(detectCriteria.Values - old(detectCriteria.Values))
      ensures Contents(detectCriteria) == Put(old(Contents(detectCriteria)), n, queries, JOIN_QUERIES)
    {
      if n !in detectCriteria {
        var dict := new QueryDict(queries);
        detectCriteria := detectCriteria[n := dict];
      } else {
        detectCriteria[n].queries := detectCriteria[n].queries + queries;
      }
    }

    /** The loop that merges the detection queries. */
    method UpdateCriteria(new_: map<Name, Queries>)
      requires Separate(detectCriteria)
      modifies this`detectCriteria, detectCriteria.Values
      ensures Separate(detectCriteria) && fresh(detectCriteria.Values - old(detectCriteria.Values))
      ensures Contents(detectCriteria) == Merge(old(Contents(detectCriteria)), new_, JOIN_QUERIES)
    {
      var done: set<Name> := {};
      ghost var before := Contents(detectCriteria);
      while done != new_.Keys
        invariant done <= new_.Keys
        invariant Separate(detectCriteria) && fresh(detectCriteria.Values - old(detectCriteria.Values))
        invariant Contents(detectCriteria) == Merge(before, Restrict(new_, done), JOIN_QUERIES)
        decreases |new_.Keys - done|
      {
        var n :| n in new_.Keys - done;
        FewerLeft(new_.Keys, done, n);
        MergeStep(before, new_, done, n, JOIN_QUERIES);
        PutQueries(n, new_[n]);
        done := done + {n};
      }
      RestrictAll(new_);
    }

    /** The first writes of _register: the interfaces, and under which capabilities they go. */
    method WriteInterfaces(c: Classes, x: Exports)
      modifies this`interfaces, this`capabilities
      ensures View() == WithInterfaces(c, old(View()), x)
    {
      var newInterfaces := NewInterfaces(c, x);
      interfaces := interfaces + newInterfaces;
      UpdateCapabilities(NewCapabilities(c, newInterfaces));
    }

    method WriteFlavors(c: Classes, x: Exports)
      modifies this`flavors
      ensures View() == WithFlavors(c, old(View()), x)
    {
      flavors := flavors + NewFlavorNames(c, x);
    }

    method WriteCriteria(x: Exports)
      requires Separate(detectCriteria)
      modifies this`detectCriteria, detectCriteria.Values
      ensures Separate(detectCriteria) && fresh(detectCriteria.Values - old(detectCriteria.Values))
      ensures View()
           == old(View()).(detectCriteria := Merge(old(View()).detectCriteria, x.detectCriteria, JOIN_QUERIES))
    {
      UpdateCriteria(x.detectCriteria);
    }

    method WriteLists(c: Classes, x: Exports)
      modifies this`auxiliary, this`primary, this`virtual, this`commTypes
      ensures View() == old(View()).(auxiliary := old(auxiliary) + x.auxiliary, primary := old(primary) + x.primary,
                                     virtual := old(virtual) + x.virtual,
                                     commTypes := old(commTypes) + NewCommTypes(c, x))
    {
      auxiliary := auxiliary + x.auxiliary;
      primary := primary + x.primary;
      virtual := virtual + x.virtual;
      commTypes := commTypes + NewCommTypes(c, x);
    }

    /** The writes between the last validation and the check for download_key. */
    method WriteClasses(c: Classes, x: Exports)
      requires Separate(detectCriteria)
      modifies this`auxiliary, this`primary, this`virtual, this`commTypes, this`detectCriteria, detectCriteria.Values
      ensures Separate(detectCriteria) && fresh(detectCriteria.Values - old(detectCriteria.Values))
      ensures View() == WithClasses(c, old(View()), x)
    {
      WriteLists(c, x);
      WriteCriteria(x);
    }

    method WritePackage(x: Exports, p: Package, version: string)
      modifies this`keys, this`cliMixins, this`packageInfo
      ensures View() == WithPackage(old(View()), x, p, version)
    {
      keys := keys + DownloadKeys(x.keys, if p.downloadKey.Some? then p.downloadKey.value else "");
      if x.cliMixin.Some? {
        cliMixins := cliMixins + [x.cliMixin.value];
      }
      packageInfo := packageInfo[p.name := (version, p.importPath)];
    }

    /** _register up to the flavor names: validates, exports implicitly, and writes the interfaces. On success `x` is
        the completed export. */
    method StageInterfaces(c: Classes, k: Checks, given: Exports) returns (ok: bool, x: Exports)
      requires c.Valid() && Exported(given) <= c.universe
      modifies this`interfaces, this`capabilities
      ensures ok ==> x == Completed(c, given)
      ensures ok ==> View() == WithInterfaces(c, old(View()), x)
      ensures ok <==> InterfacesAccepted(c, k, old(View()), given, Completed(c, given))
    {
      x := given;
      if !DeviceTypesOk(c, k, View(), given) {
        return false, x;
      }
      var newInterfaces, newFlavors, newCommTypes, extraAuxiliary, extraPrimary :=
        Export(c, Exported(given), given.interfaces);
      x := x.(interfaces := x.interfaces + newInterfaces,
              flavors := x.flavors + newFlavors,
              commTypes := x.commTypes + newCommTypes,
              auxiliary := x.auxiliary + extraAuxiliary,
              primary := x.primary + extraPrimary);
      assert x == Completed(c, given);
      if !DeviceTypesOk(c, k, View(), x) || !InterfacesOk(c, k, View(), x) {
        return false, x;
      }
      WriteInterfaces(c, x);
      ok := FlavorNamesOk(c, k, View(), x);
    }

    /** _register from the conformance check of the device classes on. */
    method FinishRegistration(c: Classes, k: Checks, x: Exports, p: Package) returns (status: Status)
      requires Separate(detectCriteria) && p.version.Some?
      modifies this`auxiliary, this`primary, this`virtual, this`commTypes, this`keys, this`cliMixins, this`packageInfo,
               this`detectCriteria, detectCriteria.Values
      ensures Separate(detectCriteria)
      ensures Ends(status, DeviceStage(c, k, old(View()), x, p), View())
      ensures status == RegistrationError ==> cliMixins == old(cliMixins)
    {
      match k.devicesConform(interfaces, capabilities, flavors, Exported(x)) {
        case Crash => return OtherError;
        case Reject => return RegistrationError;
        case Pass =>
      }
      match RestVerdict(c, k, View(), x) {
        case Crash => return OtherError;
        case Reject => return RegistrationError;
        case Pass =>
      }
      WriteClasses(c, x);
      if x.keys != {} && p.downloadKey.None? {
        return RegistrationError;
      }
      WritePackage(x, p, p.version.value);
      status := Done;
    }

    /** _register from the conformance check of the flavors on. */
    method RegisterFlavors(c: Classes, k: Checks, x: Exports, p: Package) returns (status: Status)
      requires Separate(detectCriteria) && p.version.Some?
      modifies this, detectCriteria.Values
      ensures Separate(detectCriteria)
      ensures Ends(status, FlavorStage(c, k, old(View()), x, p), View())
      ensures status == RegistrationError ==> cliMixins == old(cliMixins)
    {
      match k.flavorsConform(x.flavors) {
        case Crash => return OtherError;
        case Reject => return RegistrationError;
        case Pass =>
      }
      WriteFlavors(c, x);
      status := FinishRegistration(c, k, x, p);
    }

    /** _register: may leave part of its writes behind when it does not finish. */
    method RegisterExtensions(c: Classes, k: Checks, p: Package) returns (status: Status)
      requires c.Valid() && Separate(detectCriteria)
      requires PackageOk(View(), p) && Exported(p.exports.value) <= c.universe
      modifies this, detectCriteria.Values
      ensures Separate(detectCriteria)
      ensures Ends(status, Register(c, k, old(View()), p), View())
      ensures status == RegistrationError ==> cliMixins == old(cliMixins)
    {
      var ok, x := StageInterfaces(c, k, p.exports.value);
      if !ok {
        return RegistrationError;
      }
      status := RegisterFlavors(c, k, x, p);
    }

    /** The call of _register inside the try block: the dictionaries of the backup are out of its reach. */
    method TryRegister(c: Classes, k: Checks, p: Package, ghost copies: set<QueryDict>) returns (status: Status)
      requires c.Valid() && Separate(detectCriteria)
      requires PackageOk(View(), p) && Exported(p.exports.value) <= c.universe
      requires copies !! detectCriteria.Values
      modifies this, detectCriteria.Values
      ensures Separate(detectCriteria)
      ensures Ends(status, Register(c, k, old(View()), p), View())
      ensures status == RegistrationError ==> cliMixins == old(cliMixins)
      ensures forall d | d in copies :: d.queries == old(d.queries)
    {
      status := RegisterExtensions(c, k, p);
    }

    /** register: all or nothing, unless something other than a PackageRegistrationError escapes from a check. */
    method RegisterPackage(c: Classes, k: Checks, p: Package) returns (status: Status)
      requires c.Valid() && Separate(detectCriteria)
      requires p.exports.Some? ==> Exported(p.exports.value) <= c.universe
      modifies this, detectCriteria.Values
      ensures Separate(detectCriteria)
      ensures Leaves(c, k, p, old(View()), status, View())
    {
      if !PackageOk(View(), p) {
        return RegistrationError;
      }
      var backup := CopyExtensions();
      ghost var before, copies := View(), backup.detectCriteria.Values;
      label Copied: {}
      status := TryRegister(c, k, p, copies);
      if status == RegistrationError {
        SameContentsAsBefore@Copied(backup.detectCriteria);
        assert Restored(backup, Contents(backup.detectCriteria), cliMixins) == before;
        RestoreExtensions(backup);
      }
    }
  }

  /** The way a call ended, and the registry it left, are those of the outcome. */
  ghost predicate Ends(status: Status, outcome: Outcome, view: Extensions) {
    match status
    case Done => outcome == Registered(view)
    case RegistrationError => outcome == Rejected
    case OtherError => outcome == Crashed(view)
  }

  /** What a call of register does: a registration error leaves everything as it was. */
  ghost predicate Leaves(c: Classes, k: Checks, p: Package, before: Extensions, status: Status, after: Extensions) {
    && Ends(status, Register(c, k, before, p), after)
    && (status == RegistrationError ==> after == before)
  }

  /** The registries that such calls leave, one after the other, are those of the runs in RegistryRuns. */
  lemma {:induction false} CallsAreRuns(c: Classes, k: Checks, ps: seq<Package>, statuses: seq<Status>,
                                        views: seq<Extensions>)
    requires |statuses| == |ps| && |views| == |ps| + 1
    requires forall i | 0 <= i < |ps| :: Leaves(c, k, ps[i], views[i], statuses[i], views[i + 1])
    ensures views[|ps|] == Run(c, k, views[0], ps)
  {
    if ps != [] {
      var n := |ps| - 1;
      CallsAreRuns(c, k, ps[..n], statuses[..n], views[..n + 1]);
      assert Leaves(c, k, ps[n], views[n], statuses[n], views[n + 1]);
      LeavesAfter(c, k, ps[n], views[n], statuses[n], views[n + 1]);
    }
  }

  lemma LeavesAfter(c: Classes, k: Checks, p: Package, before: Extensions, status: Status, after: Extensions)
    requires Leaves(c, k, p, before, status, after)
    ensures after == After(c, k, before, p)
  {
  }

  twostate lemma SameContentsAsBefore(a: map<Name, QueryDict>)
    requires forall n | n in a :: a[n].queries == old(a[n].queries)
    ensures Contents(a) == old(Contents(a))
  {
  }

  /** copy.deepcopy of the criteria with these names. */
  method DeepCopy(criteria: map<Name, QueryDict>, names: set<Name>) returns (copy: map<Name, QueryDict>)
    requires names <= criteria.Keys
    ensures copy.Keys == names && Separate(copy) && forall n | n in copy :: fresh(copy[n])
    ensures forall n | n in copy :: copy[n].queries == criteria[n].queries
    ensures names == criteria.Keys ==> Contents(copy) == Contents(criteria)
    decreases |names|
  {
    if names == {} {
      return map[];
    }
    var n :| n in names;
    var dict := new QueryDict(criteria[n].queries);
    var rest := DeepCopy(criteria, names - {n});
    copy := rest[n := dict];
  }

  function Restrict<V>(m: map<Name, V>, s: set<Name>): map<Name, V> {
    map n | n in m && n in s :: m[n]
  }

  lemma RestrictAll<V>(m: map<Name, V>)
    ensures Restrict(m, m.Keys) == m
  {
  }

  /** Merging one more entry of `new_`. */
  function Put<V>(m: map<Name, V>, n: Name, v: V, join: (V, V) -> V): map<Name, V> {
    m[n := if n in m then join(m[n], v) else v]
  }

  lemma MergeStep<V>(old_: map<Name, V>, new_: map<Name, V>, done: set<Name>, n: Name, join: (V, V) -> V)
    requires n in new_ && n !in done
    ensures Merge(old_, Restrict(new_, done + {n}), join)
        == Put(Merge(old_, Restrict(new_, done), join), n, new_[n], join)
  {
  }

  /** The registry that a backup describes, its criteria dictionaries having these contents. */
  function Restored(b: Backup, criteria: map<Name, Queries>, cliMixins: seq<ClassId>): Extensions {
    Extensions(b.interfaces, b.capabilities, b.flavors, b.auxiliary, b.primary, b.virtual, b.commTypes,
               criteria, b.packageInfo, b.keys, cliMixins)
  }
}
