/** DeviceDetector: the object that holds copies of the configurations and fills them, proved against the functions of
    module Detection. */
module DeviceDetector {
  import opened Common
  import opened Detection

  class Detector {
    const lab: Lab
    var devices: map<string, Props>
    var otherDevices: map<string, Props>
    var deviceOptions: map<string, Opts>
    var otherDeviceOptions: map<string, Opts>
    var knownConnections: set<string>

    function View(): Configs
      reads this
    {
      Configs(Table(devices, deviceOptions), Table(otherDevices, otherDeviceOptions))
    }

    constructor (lab: Lab, configs: Configs)
      ensures this.lab == lab && View() == configs && knownConnections == {}
    {
      this.lab := lab;
      devices, deviceOptions := configs.primary.persistent, configs.primary.options;
      otherDevices, otherDeviceOptions := configs.auxiliary.persistent, configs.auxiliary.options;
      knownConnections := {};
    }

    /** _create_known_connections; false stands for the KeyError of an entry without any address. */
    method CreateKnownConnections() returns (ok: bool)
      modifies this`knownConnections
      ensures ok <==> Usable(View())
      ensures ok ==> knownConnections == KnownConnections(View())
    {
      var primary := CollectIdentifiers(Primary, devices);
      var auxiliary := CollectIdentifiers(Auxiliary, otherDevices);
      ok := primary.Some? && auxiliary.Some?;
      if ok {
        knownConnections := primary.value + auxiliary.value;
      }
    }

    /** _add_to_configs; false stands for DetectionOvewriteConfigError. */
    method AddToConfigs(cls: DeviceClass, name: string, props: Props, opts: Opts) returns (ok: bool)
      modifies this`devices, this`deviceOptions, this`otherDevices, this`otherDeviceOptions
      ensures var k := CategoryOf(lab, cls);
              if name in old(View()).At(k).persistent then !ok && View() == old(View())
              else ok && View() == old(View()).With(k, Added(old(View()).At(k), k, name, props, opts))
    {
      if lab.isAuxiliary(cls) {
        if name in otherDevices {
          return false;
        }
        otherDevices := otherDevices[name := props];
        otherDeviceOptions := otherDeviceOptions[name := opts + map o | o in AUXILIARY_OPTIONS :: None];
      } else {
        if name in devices {
          return false;
        }
        devices := devices[name := props];
        deviceOptions := deviceOptions[name := opts + map o | o in PRIMARY_OPTIONS :: None];
      }
      ok := true;
    }

    /** _identify_connection_device_class: two loops, over the communication types and over their addresses. */
    method IdentifyConnections(cons: Connections) returns (todo: seq<Candidate>, notIdentified: seq<string>)
      requires ValidLab(lab)
      ensures var visits := Visits(lab, cons, lab.sortedKeys(cons.Keys));
              todo == Candidates(lab, visits) && notIdentified == Unidentified(lab, visits)
    {
      todo, notIdentified := [], [];
      var types := lab.sortedKeys(cons.Keys);
      var i := 0;
      assert types[..0] == [];
      while i < |types|
        invariant 0 <= i <= |types|
        invariant forall t | t in types[..i] :: t in cons
        invariant todo == Candidates(lab, Visits(lab, cons, types[..i]))
        invariant notIdentified == Unidentified(lab, Visits(lab, cons, types[..i]))
      {
        assert types[i] in types && types[..i + 1] == types[..i] + [types[i]];
        var addresses := lab.sorted(cons[types[i]]);
        var newTodo, newNot := IdentifyAddresses(lab, types[i], addresses);
        OneMoreType(lab, cons, types[..i], types[i]);
        todo, notIdentified := todo + newTodo, notIdentified + newNot;
        i := i + 1;
      }
      assert types[..i] == types;
    }

    /** The body of the loop in detect_new_devices, with its two exceptions. */
    method DetectCandidate(cls: DeviceClass, con: string) returns (added: bool)
      modifies this`devices, this`deviceOptions, this`otherDevices, this`otherDeviceOptions
      ensures View() == DetectOne(lab, old(View()), cls, con).0
      ensures added <==> DetectOne(lab, old(View()), cls, con).1.Some?
    {
      added := false;
      var info := GetInfo(lab, View().At(CategoryOf(lab, cls)).persistent, cls, con);
      if info.Some? {
        added := AddToConfigs(cls, info.value.0, info.value.1, info.value.2);
      }
    }

    /** detect_new_devices; the configurations are left in the object, `notDetected` is the list that is reported. */
    method DetectNewDevices(cons: Connections) returns (notDetected: seq<string>)
      requires ValidLab(lab) && knownConnections == KnownConnections(View())
      modifies this`devices, this`deviceOptions, this`otherDevices, this`otherDeviceOptions
      ensures View() == Detect(lab, old(View()), cons)
      ensures notDetected == NotDetected(lab, old(View()), cons)
    {
      var unknown := Unknown(knownConnections, cons);
      assert unknown.Keys == cons.Keys;
      var todo;
      todo, notDetected := IdentifyConnections(unknown);
      ghost var unidentified, start := notDetected, View();
      assert todo[0..] == todo;
      assert notDetected + Failed(lab, start, todo) == notDetected + Failed(lab, View(), todo[0..]);
      var i := 0;
      while i < |todo|
        invariant 0 <= i <= |todo|
        invariant DetectAll(lab, start, todo) == DetectAll(lab, View(), todo[i..])
        invariant unidentified + Failed(lab, start, todo) == notDetected + Failed(lab, View(), todo[i..])
      {
        NextCandidate(lab, View(), todo, i, notDetected);
        var (cls, con) := todo[i];
        var added := DetectCandidate(cls, con);
        if !added {
          notDetected := notDetected + [con];
        }
        i := i + 1;
      }
      assert todo[i..] == [] && notDetected + [] == notDetected;
    }
  }

  lemma NextCandidate(lab: Lab, c: Configs, todo: seq<Candidate>, i: nat, soFar: seq<string>)
    requires i < |todo|
    ensures var (next, name) := DetectOne(lab, c, todo[i].0, todo[i].1);
      && DetectAll(lab, c, todo[i..]) == DetectAll(lab, next, todo[i + 1..])
      && soFar + Failed(lab, c, todo[i..])
         == (if name.None? then soFar + [todo[i].1] else soFar) + Failed(lab, next, todo[i + 1..])
  {
    assert todo[i..][0] == todo[i] && todo[i..][1..] == todo[i + 1..];
    var (next, name) := DetectOne(lab, c, todo[i].0, todo[i].1);
    var rest := Failed(lab, next, todo[i + 1..]);
    assert soFar + ([todo[i].1] + rest) == soFar + [todo[i].1] + rest && [] + rest == rest;
  }

  /** The loop over one table of devices. */
  method CollectIdentifiers(k: Category, known: map<string, Props>) returns (r: Option<set<string>>)
    ensures r.Some? <==> Identified(k, known)
    ensures r.Some? ==> r.value == Identifiers(k, known)
  {
    var names, found: set<string> := {}, {};
    while names != known.Keys
      invariant names <= known.Keys
      invariant forall n | n in names :: Identifier(k, known[n]).Some?
      invariant found == IdentifiersOf(k, known, names)
      decreases |known.Keys - names|
    {
      var n :| n in known.Keys - names;
      var identifier := Identifier(k, known[n]);
      if identifier.None? {
        return None;
      }
      OneMoreIdentifier(k, known, names, n);
      names, found := names + {n}, found + {identifier.value};
    }
    r := Some(found);
  }

  function IdentifiersOf(k: Category, known: map<string, Props>, names: set<string>): set<string>
    requires names <= known.Keys
  {
    set n | n in names && Identifier(k, known[n]).Some? :: Identifier(k, known[n]).value
  }

  lemma OneMoreIdentifier(k: Category, known: map<string, Props>, names: set<string>, n: string)
    requires names <= known.Keys && n in known.Keys - names && Identifier(k, known[n]).Some?
    ensures IdentifiersOf(k, known, names + {n}) == IdentifiersOf(k, known, names) + {Identifier(k, known[n]).value}
    ensures |known.Keys - (names + {n})| < |known.Keys - names|
  {
    assert known.Keys - (names + {n}) == known.Keys - names - {n};
  }

  /** The inner loop of _identify_connection_device_class. */
  method IdentifyAddresses(lab: Lab, t: string, addresses: seq<string>)
    returns (todo: seq<Candidate>, notIdentified: seq<string>)
    ensures todo == Candidates(lab, Tagged(t, addresses)) && notIdentified == Unidentified(lab, Tagged(t, addresses))
  {
    todo, notIdentified := [], [];
    ghost var visits := Tagged(t, addresses);
    var i := 0;
    assert visits[..0] == [];
    while i < |addresses|
      invariant 0 <= i <= |addresses|
      invariant todo == Candidates(lab, visits[..i]) && notIdentified == Unidentified(lab, visits[..i])
    {
      assert visits[..i + 1] == visits[..i] + [(t, addresses[i])];
      SplitAppend(lab, visits[..i], [(t, addresses[i])]);
      OneVisit(lab, t, addresses[i]);
      var classes := lab.identify(t, addresses[i]);
      if classes != [] {
        todo := todo + [(classes[0], addresses[i])];
      } else {
        notIdentified := notIdentified + [addresses[i]];
      }
      i := i + 1;
    }
    assert visits[..i] == visits;
  }

  lemma OneVisit(lab: Lab, t: string, address: string)
    ensures var classes := lab.identify(t, address);
      && Candidates(lab, [(t, address)]) == (if classes == [] then [] else [(classes[0], address)])
      && Unidentified(lab, [(t, address)]) == if classes == [] then [address] else []
  {
    assert [(t, address)][1..] == [];
    assert Candidates(lab, []) == [] && Unidentified(lab, []) == [];
  }

  lemma OneMoreType(lab: Lab, cons: Connections, types: seq<string>, t: string)
    requires (forall u | u in types :: u in cons) && t in cons
    ensures forall u | u in types + [t] :: u in cons
    ensures var before, visits := Visits(lab, cons, types), Tagged(t, lab.sorted(cons[t]));
      && Candidates(lab, Visits(lab, cons, types + [t])) == Candidates(lab, before) + Candidates(lab, visits)
      && Unidentified(lab, Visits(lab, cons, types + [t])) == Unidentified(lab, before) + Unidentified(lab, visits)
  {
    VisitsAppend(lab, cons, types, t);
    SplitAppend(lab, Visits(lab, cons, types), Tagged(t, lab.sorted(cons[t])));
  }

  lemma {:induction false} VisitsAppend(lab: Lab, cons: Connections, types: seq<string>, t: string)
    requires (forall u | u in types :: u in cons) && t in cons
    ensures forall u | u in types + [t] :: u in cons
    ensures Visits(lab, cons, types + [t]) == Visits(lab, cons, types) + Tagged(t, lab.sorted(cons[t]))
  {
    var visits := Tagged(t, lab.sorted(cons[t]));
    if types == [] {
      assert [] + [t] == [t] && [t][1..] == [];
      assert visits + [] == visits && [] + visits == visits;
    } else {
      VisitsAppend(lab, cons, types[1..], t);
      HeadOfBoth(types, [t]);
      assert types[0] in types;
      Regroup(Tagged(types[0], lab.sorted(cons[types[0]])), Visits(lab, cons, types[1..]), visits);
    }
  }

  lemma SplitAppend(lab: Lab, a: seq<Visit>, b: seq<Visit>)
    ensures Candidates(lab, a + b) == Candidates(lab, a) + Candidates(lab, b)
    ensures Unidentified(lab, a + b) == Unidentified(lab, a) + Unidentified(lab, b)
  {
    CandidatesAppend(lab, a, b);
    UnidentifiedAppend(lab, a, b);
  }

  lemma {:induction false} CandidatesAppend(lab: Lab, a: seq<Visit>, b: seq<Visit>)
    ensures Candidates(lab, a + b) == Candidates(lab, a) + Candidates(lab, b)
  {
    if a == [] {
      assert a + b == b;
    } else {
      CandidatesAppend(lab, a[1..], b);
      HeadOfBoth(a, b);
    }
  }

  lemma {:induction false} UnidentifiedAppend(lab: Lab, a: seq<Visit>, b: seq<Visit>)
    ensures Unidentified(lab, a + b) == Unidentified(lab, a) + Unidentified(lab, b)
  {
    if a == [] {
      assert a + b == b;
    } else {
      UnidentifiedAppend(lab, a[1..], b);
      HeadOfBoth(a, b);
    }
  }
}
