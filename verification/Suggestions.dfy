/** Appointment suggestions: bounded enumeration of slots, ranking, and a short list without near duplicates. */
module Suggestions {
  import opened Ordering
  import opened Feasibility

  // ---------- Resource choices ----------

  datatype Choice = Choice(ids: seq<string>, purposes: seq<string>)

  predicate ByKindAndId(a: Resource, b: Resource) {
    if a.kind != b.kind then StringLe(a.kind, b.kind) else StringLe(a.id, b.id)
  }

  lemma ByKindAndIdOrder()
    ensures TotalPreorder(ByKindAndId)
  {
    StringLeOrder();
  }

  ghost function OfKind(resources: seq<Resource>, kind: string): seq<Resource> {
    if resources == [] then []
    else
      var front, last := OfKind(resources[..|resources| - 1], kind), resources[|resources| - 1];
      if last.kind == kind then front + [last] else front
  }

  lemma {:induction false} OfKindHolds(resources: seq<Resource>, kind: string)
    ensures forall r :: r in OfKind(resources, kind) <==> r in resources && r.kind == kind
  {
    if resources != [] {
      OfKindHolds(resources[..|resources| - 1], kind);
      assert resources == resources[..|resources| - 1] + [resources[|resources| - 1]];
    }
  }

  ghost function Alone(chipper: Resource): Choice {
    Choice([chipper.id], ["chipping"])
  }

  ghost function Together(chipper: Resource, vehicle: Resource): Choice {
    Choice([chipper.id, vehicle.id], ["chipping", "transport"])
  }

  ghost predicate OwnTransport(job: Job) {
    job.kind == "chipping_with_transport" && job.transportMode == "internal"
  }

  /** The job needs a chipper only: no transport, or transport by others who have confirmed it. */
  ghost predicate ChipperSuffices(job: Job) {
    job.kind != "chipping_with_transport" || (job.transportMode == "external" && job.externalConfirmed)
  }

  /** What a job may be given. */
  ghost predicate IsChoice(job: Job, resources: seq<Resource>, choice: Choice) {
    || (ChipperSuffices(job) && exists c :: c in resources && c.kind == "chipper" && choice == Alone(c))
    || (OwnTransport(job) && exists c, v :: c in resources && c.kind == "chipper" && v in resources
                                            && v.kind == "transport_vehicle" && choice == Together(c, v))
  }

  ghost function Singles(chippers: seq<Resource>): (choices: seq<Choice>)
    ensures |choices| == |chippers| && forall k :: 0 <= k < |chippers| ==> choices[k] == Alone(chippers[k])
  {
    seq(|chippers|, k requires 0 <= k < |chippers| => Alone(chippers[k]))
  }

  ghost function Row(chipper: Resource, vehicles: seq<Resource>): (choices: seq<Choice>)
    ensures |choices| == |vehicles| && forall k :: 0 <= k < |vehicles| ==> choices[k] == Together(chipper, vehicles[k])
  {
    seq(|vehicles|, k requires 0 <= k < |vehicles| => Together(chipper, vehicles[k]))
  }

  ghost function Pairs(chippers: seq<Resource>, vehicles: seq<Resource>): seq<Choice> {
    if chippers == [] then []
    else Pairs(chippers[..|chippers| - 1], vehicles) + Row(chippers[|chippers| - 1], vehicles)
  }

  /** The choices in the order they are tried, from resources in order of kind and identifier. */
  ghost function ChoicesOf(job: Job, active: seq<Resource>): seq<Choice> {
    if OwnTransport(job) then Pairs(OfKind(active, "chipper"), OfKind(active, "transport_vehicle"))
    else if ChipperSuffices(job) then Singles(OfKind(active, "chipper"))
    else []
  }

  lemma {:induction false} PairsHold(chippers: seq<Resource>, vehicles: seq<Resource>)
    ensures forall choice :: choice in Pairs(chippers, vehicles) <==>
      exists c, v :: c in chippers && v in vehicles && choice == Together(c, v)
  {
    if chippers != [] {
      var front, last := chippers[..|chippers| - 1], chippers[|chippers| - 1];
      PairsHold(front, vehicles);
      assert chippers == front + [last];
      forall v | v in vehicles ensures Together(last, v) in Row(last, vehicles) {
        var k :| 0 <= k < |vehicles| && vehicles[k] == v;
        assert Row(last, vehicles)[k] == Together(last, v);
      }
    }
  }

  lemma SinglesHold(chippers: seq<Resource>)
    ensures forall choice :: choice in Singles(chippers) <==> exists c :: c in chippers && choice == Alone(c)
  {
    forall c | c in chippers ensures Alone(c) in Singles(chippers) {
      var k :| 0 <= k < |chippers| && chippers[k] == c;
      assert Singles(chippers)[k] == Alone(c);
    }
  }

  /** Just the choices the job may be given are tried. */
  lemma ChoicesAreComplete(job: Job, active: seq<Resource>)
    ensures forall choice :: choice in ChoicesOf(job, active) <==> IsChoice(job, active, choice)
  {
    OfKindHolds(active, "chipper");
    OfKindHolds(active, "transport_vehicle");
    PairsHold(OfKind(active, "chipper"), OfKind(active, "transport_vehicle"));
    SinglesHold(OfKind(active, "chipper"));
  }

  lemma SameResourcesSameChoices(job: Job, a: seq<Resource>, b: seq<Resource>)
    requires forall r :: r in a <==> r in b
    ensures forall choice :: IsChoice(job, a, choice) <==> IsChoice(job, b, choice)
  {
  }

  /** The resources by kind, those of one kind by identifier. */
  ghost predicate IsSortedCopy(active: seq<Resource>, resources: seq<Resource>) {
    && multiset(active) == multiset(resources)
    && forall i, j :: 0 <= i < j < |active| ==>
         if active[i].kind != active[j].kind then StringLe(active[i].kind, active[j].kind) else StringLe(active[i].id, active[j].id)
  }

  method TakeAlone(chippers: seq<Resource>) returns (choices: seq<Choice>)
    ensures choices == Singles(chippers)
  {
    choices := [];
    for k := 0 to |chippers|
      invariant |choices| == k && forall j :: 0 <= j < k ==> choices[j] == Alone(chippers[j])
    {
      choices := choices + [Choice([chippers[k].id], ["chipping"])];
    }
  }

  method PairUp(chippers: seq<Resource>, vehicles: seq<Resource>) returns (choices: seq<Choice>)
    ensures choices == Pairs(chippers, vehicles)
  {
    choices := [];
    for k := 0 to |chippers|
      invariant choices == Pairs(chippers[..k], vehicles)
    {
      for l := 0 to |vehicles|
        invariant choices == Pairs(chippers[..k], vehicles) + Row(chippers[k], vehicles[..l])
      {
        assert Row(chippers[k], vehicles[..l + 1]) == Row(chippers[k], vehicles[..l]) + [Together(chippers[k], vehicles[l])];
        choices := choices + [Choice([chippers[k].id, vehicles[l].id], ["chipping", "transport"])];
      }
      assert vehicles[..|vehicles|] == vehicles && chippers[..k + 1][..k] == chippers[..k];
    }
    assert chippers[..|chippers|] == chippers;
  }

  method SelectResourceChoices(job: Job, resources: seq<Resource>) returns (choices: seq<Choice>)
    ensures exists active :: IsSortedCopy(active, resources) && choices == ChoicesOf(job, active)
    ensures forall choice :: choice in choices <==> IsChoice(job, resources, choice)
  {
    ByKindAndIdOrder();
    var active := Sort(resources, ByKindAndId);
    ChoicesAreComplete(job, active);
    SameResourcesSameChoices(job, active, resources);
    assert IsSortedCopy(active, resources);
    var chippers, vehicles: seq<Resource> := [], [];
    for k := 0 to |active|
      invariant chippers == OfKind(active[..k], "chipper") && vehicles == OfKind(active[..k], "transport_vehicle")
    {
      assert active[..k + 1][..k] == active[..k];
      if active[k].kind == "chipper" {
        chippers := chippers + [active[k]];
      }
      if active[k].kind == "transport_vehicle" {
        vehicles := vehicles + [active[k]];
      }
    }
    assert active[..|active|] == active;
    if job.kind == "chipping_with_transport" {
      if job.transportMode == "internal" {
        choices := PairUp(chippers, vehicles);
      } else if job.transportMode == "external" && job.externalConfirmed {
        choices := TakeAlone(chippers);
      } else {
        choices := [];
      }
    } else {
      choices := TakeAlone(chippers);
    }
  }
}
