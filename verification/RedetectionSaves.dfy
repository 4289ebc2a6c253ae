/** When redetect saves: what must be connected, and what the saved configurations then are. */
module RedetectionSaves {
  import opened Common
  import opened Detection
  import opened DetectionEntries
  import opened Redetection

  /** Of the configurations and the connections: the device is known, its entry usable, a detector can be made for the
      rest, and the detection finds the device in the category it was in, and only there. */
  lemma SavesExactlyWhen(lab: Lab, knows: Props -> bool, c: Configs, name: string, cons: Connections)
    requires ValidLab(lab) && Coupled(c)
    requires !(name in c.primary.persistent && name in c.auxiliary.persistent)
    ensures Redetect(lab, knows, c, name, cons).Some?
            <==> || (&& name in c.primary.persistent && knows(c.primary.persistent[name])
                     && FoundOnly(lab, c.(primary := DropFrom(c.primary, name)), cons, Primary, name))
                 || (&& name in c.auxiliary.persistent && knows(c.auxiliary.persistent[name])
                     && FoundOnly(lab, c.(auxiliary := DropFrom(c.auxiliary, name)), cons, Auxiliary, name))
  {
    if name in c.primary.persistent {
      PrimarySaves(lab, knows, c, name, cons);
    } else if name in c.auxiliary.persistent {
      AuxiliarySaves(lab, knows, c, name, cons);
    }
  }

  lemma PrimarySaves(lab: Lab, knows: Props -> bool, c: Configs, name: string, cons: Connections)
    requires ValidLab(lab) && Coupled(c) && name in c.primary.persistent && name !in c.auxiliary.persistent
    ensures Redetect(lab, knows, c, name, cons).Some?
            <==> && knows(c.primary.persistent[name])
                 && FoundOnly(lab, c.(primary := DropFrom(c.primary, name)), cons, Primary, name)
  {
    var deleted := c.(primary := DropFrom(c.primary, name));
    assert Delete(c, name) == Some(deleted);
    StaysCoupled(lab, c, name, deleted, cons);
  }

  lemma AuxiliarySaves(lab: Lab, knows: Props -> bool, c: Configs, name: string, cons: Connections)
    requires ValidLab(lab) && Coupled(c) && name in c.auxiliary.persistent && name !in c.primary.persistent
    ensures Redetect(lab, knows, c, name, cons).Some?
            <==> && knows(c.auxiliary.persistent[name])
                 && FoundOnly(lab, c.(auxiliary := DropFrom(c.auxiliary, name)), cons, Auxiliary, name)
  {
    var deleted := c.(auxiliary := DropFrom(c.auxiliary, name));
    assert Delete(c, name) == Some(deleted);
    StaysCoupled(lab, c, name, deleted, cons);
  }

  lemma StaysCoupled(lab: Lab, c: Configs, name: string, deleted: Configs, cons: Connections)
    requires ValidLab(lab) && Coupled(c) && Delete(c, name) == Some(deleted)
    ensures Coupled(Detect(lab, deleted, cons))
  {
    DeleteKeepsOthers(c, name);
    DetectionAccounts(lab, deleted, cons);
  }

  /** A detector can be made for these configurations and finds a device of this name, in this category only. */
  predicate FoundOnly(lab: Lab, c: Configs, cons: Connections, k: Category, name: string)
    requires forall t | t in lab.sortedKeys(cons.Keys) :: t in cons
  {
    && Usable(c)
    && var found := Detect(lab, c, cons);
       if k == Primary then name in found.primary.persistent && name !in found.auxiliary.persistent
       else name in found.auxiliary.persistent && name !in found.primary.persistent
  }

  lemma {:induction false} CandidatesAreVisits(lab: Lab, visits: seq<Visit>)
    ensures forall x | x in Candidates(lab, visits) ::
              exists v | v in visits :: lab.identify(v.0, v.1) != [] && x == (lab.identify(v.0, v.1)[0], v.1)
  {
    if visits != [] {
      CandidatesAreVisits(lab, visits[1..]);
      forall x | x in Candidates(lab, visits)
        ensures exists v | v in visits :: lab.identify(v.0, v.1) != [] && x == (lab.identify(v.0, v.1)[0], v.1)
      {
        if x in Candidates(lab, visits[1..]) {
          var v :| v in visits[1..] && lab.identify(v.0, v.1) != [] && x == (lab.identify(v.0, v.1)[0], v.1);
          assert v in visits;
        } else {
          assert visits[0] in visits;
        }
      }
    }
  }

  /** With one connection, which belongs to no configured device and is identified, a detection handles that device. */
  lemma OneConnection(lab: Lab, c: Configs, t: string, con: string)
    requires ValidLab(lab) && lab.identify(t, con) != [] && !IsKnownAddress(c, WithoutAdbPort(con))
    ensures Detect(lab, c, map[t := [con]]) == DetectOne(lab, c, lab.identify(t, con)[0], con).0
  {
    var cons: Connections := map[t := [con]];
    var visits := Considered(lab, c, cons);
    var todo := Candidates(lab, visits);
    var x := (lab.identify(t, con)[0], con);
    ConsideredMeans(lab, c, cons, (t, con));
    CandidateOf(lab, visits, (t, con));
    CandidatesAreVisits(lab, visits);
    forall i | 0 <= i < |todo| ensures todo[i] == x {
      assert todo[i] in todo;
      var v :| v in visits && lab.identify(v.0, v.1) != [] && todo[i] == (lab.identify(v.0, v.1)[0], v.1);
      ConsideredMeans(lab, c, cons, v);
    }
    HandledOnce(lab, c, todo, x);
  }

  /** Handling one candidate again and again is handling it once. */
  lemma HandledOnce(lab: Lab, c: Configs, todo: seq<Candidate>, x: Candidate)
    requires todo != [] && forall i | 0 <= i < |todo| :: todo[i] == x
    ensures DetectAll(lab, c, todo) == DetectOne(lab, c, x.0, x.1).0
  {
    var next := DetectOne(lab, c, x.0, x.1).0;
    HandledIsSettled(lab, c, x.0, x.1, next);
    SettledChangeNothing(lab, next, todo[1..]);
  }

  /** A primary device whose connection is identified and leads to its old name is saved: with the properties read from
      it now and the options it had, and everything else is as it was. */
  lemma ConnectedDeviceIsSaved(lab: Lab, knows: Props -> bool, c: Configs, name: string, t: string, con: string)
    requires ValidLab(lab) && Coupled(c)
    requires name in c.primary.persistent && name !in c.auxiliary.persistent && knows(c.primary.persistent[name])
    requires var deleted := c.(primary := DropFrom(c.primary, name));
             && Usable(deleted) && !IsKnownAddress(deleted, WithoutAdbPort(con))
             && lab.identify(t, con) != [] && !lab.isAuxiliary(lab.identify(t, con)[0])
             && Enters(lab, deleted, lab.identify(t, con)[0], con, name)
    ensures var props := lab.extract(lab.identify(t, con)[0], con).value.0;
            Redetect(lab, knows, c, name, map[t := [con]])
            == Some(c.(primary := Table(c.primary.persistent[name := props["name" := name]], c.primary.options)))
  {
    var deleted := Delete(c, name).value;
    var cls := lab.identify(t, con)[0];
    OneConnection(lab, deleted, t, con);
    PrimaryEnters(lab, deleted, cls, con, name);
    var (props, opts) := lab.extract(cls, con).value;
    EnteredAgain(c.primary, DetectOne(lab, deleted, cls, con).0.primary, name, props, opts);
  }

  lemma PrimaryEnters(lab: Lab, c: Configs, cls: DeviceClass, con: string, name: string)
    requires !lab.isAuxiliary(cls) && Enters(lab, c, cls, con, name)
    ensures var next, (props, opts) := DetectOne(lab, c, cls, con).0, lab.extract(cls, con).value;
            next.auxiliary == c.auxiliary && IsEntered(c.primary, next.primary, Primary, name, props, opts)
  {
    DetectOneMeans(lab, c, cls, con);
    var found := DetectOne(lab, c, cls, con).1;
    NameIsUnique(lab, c.primary.persistent, cls, lab.extract(cls, con).value.0["serial_number"], name, found.value);
  }

  lemma NameIsUnique(lab: Lab, known: map<string, Props>, cls: DeviceClass, serial: string, a: string, b: string)
    requires IsNewName(lab, known, cls, serial, a) && IsNewName(lab, known, cls, serial, b)
    ensures a == b
  {
    NewNameMeans(lab, known, cls, serial, a);
    NewNameMeans(lab, known, cls, serial, b);
  }

  lemma EnteredAgain(before: Table, after: Table, name: string, props: Props, opts: Opts)
    requires name in before.persistent && before.persistent.Keys == before.options.Keys
    requires IsEntered(DropFrom(before, name), after, Primary, name, props, opts)
    ensures RestoreOptions(after, before, name)
         == Some(Table(before.persistent[name := props["name" := name]], before.options))
  {
    assert after.persistent == before.persistent[name := props["name" := name]];
    assert after.options[name := before.options[name]] == before.options;
  }
}
