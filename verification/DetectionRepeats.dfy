/** Detecting again needs a detector for the configurations that the first detection left, and none can be made for an
    entry without an address. */
module DetectionRepeats {
  import opened Common
  import opened Detection

  /** If a device answers as it should, the entry it gets has an address. */
  predicate Addressed(lab: Lab, cls: DeviceClass, con: string) {
    match lab.extract(cls, con)
    case None => true
    case Some((props, opts)) =>
      "serial_number" in props && |props["serial_number"]| >= 4 ==> Identifier(CategoryOf(lab, cls), props).Some?
  }

  /** So it is for every connection that is identified. */
  ghost predicate AllAddressed(lab: Lab) {
    forall t, con | lab.identify(t, con) != [] :: Addressed(lab, lab.identify(t, con)[0], con)
  }

  /** After every detection a detector can be made again. */
  ghost predicate CanRepeat(lab: Lab)
    requires ValidLab(lab)
  {
    forall c, cons | Usable(c) :: Usable(Detect(lab, c, cons))
  }

  lemma DetectOneUsable(lab: Lab, c: Configs, cls: DeviceClass, con: string)
    requires Usable(c) && Addressed(lab, cls, con)
    ensures Usable(DetectOne(lab, c, cls, con).0)
  {
  }

  lemma {:induction false} DetectAllUsable(lab: Lab, c: Configs, todo: seq<Candidate>)
    requires Usable(c) && forall x | x in todo :: Addressed(lab, x.0, x.1)
    ensures Usable(DetectAll(lab, c, todo))
    decreases |todo|
  {
    if todo != [] {
      assert todo[0] in todo;
      DetectOneUsable(lab, c, todo[0].0, todo[0].1);
      DetectAllUsable(lab, DetectOne(lab, c, todo[0].0, todo[0].1).0, todo[1..]);
    }
  }

  lemma {:induction false} CandidatesAddressed(lab: Lab, visits: seq<Visit>)
    requires AllAddressed(lab)
    ensures forall x | x in Candidates(lab, visits) :: Addressed(lab, x.0, x.1)
  {
    if visits != [] {
      CandidatesAddressed(lab, visits[1..]);
    }
  }

  const NOTHING := Configs(Table(map[], map[]), Table(map[], map[]))

  /** A single connection is the first candidate. */
  lemma OnlyConnection(lab: Lab, t: string, con: string)
    requires ValidLab(lab) && lab.identify(t, con) != []
    ensures var candidates := Candidates(lab, Considered(lab, NOTHING, map[t := [con]]));
            candidates != [] && candidates[0] == (lab.identify(t, con)[0], con)
  {
    var cons: Connections := map[t := [con]];
    var types := lab.sortedKeys(cons.Keys);
    assert t in types && types[0] in types && types[0] == t;
    assert KnownConnections(NOTHING) == {};
    FilterOne(IsNew({}), con);
    assert multiset(lab.sorted([con])) == multiset([con]);
    assert |multiset(lab.sorted([con]))| == 1;
    assert lab.sorted([con]) == [con] by {
      assert lab.sorted([con])[0] in multiset([con]);
    }
    assert Considered(lab, NOTHING, cons)[0] == (t, con);
  }

  /** A device that gets an entry without an address stops the next detection. */
  lemma OneUnaddressed(lab: Lab, t: string, con: string)
    requires ValidLab(lab) && lab.identify(t, con) != [] && !Addressed(lab, lab.identify(t, con)[0], con)
    ensures Usable(NOTHING) && !Usable(Detect(lab, NOTHING, map[t := [con]]))
  {
    OnlyConnection(lab, t, con);
    var candidates := Candidates(lab, Considered(lab, NOTHING, map[t := [con]]));
    var (next, name) := DetectOne(lab, NOTHING, candidates[0].0, con);
    assert !Usable(next);
    DetectAllAdds(lab, next, candidates[1..]);
    StaysUnusable(next, DetectAll(lab, next, candidates[1..]));
  }

  lemma StaysUnusable(c: Configs, later: Configs)
    requires KeepsDevices(c, later) && !Usable(c)
    ensures !Usable(later)
  {
  }

  /** Detection can always be repeated exactly when no identified connection gives an entry without an address; and by
      DetectionIsIdempotent it then changes nothing. */
  lemma CanRepeatExactlyWhen(lab: Lab)
    requires ValidLab(lab)
    ensures CanRepeat(lab) <==> AllAddressed(lab)
  {
    if AllAddressed(lab) {
      forall c, cons | Usable(c) ensures Usable(Detect(lab, c, cons)) {
        CandidatesAddressed(lab, Considered(lab, c, cons));
        DetectAllUsable(lab, c, Candidates(lab, Considered(lab, c, cons)));
      }
    } else {
      var t, con :| lab.identify(t, con) != [] && !Addressed(lab, lab.identify(t, con)[0], con);
      OneUnaddressed(lab, t, con);
    }
  }
}
