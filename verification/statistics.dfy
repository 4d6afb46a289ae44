/**
 * The aggregates of StatisticsPanel.tsx over the attendees GET /api/guests
 * returns: gender, age-bucket and status counts. The confirmation rate
 * (a floating-point percentage) is not modelled.
 */
module Statistics {
  import opened Values
  import opened Records
  import opened Seqs

  /** One bar or slice of a chart. */
  datatype Entry = Entry(name: string, value: nat)

  datatype Stats = Stats(
    genderData: seq<Entry>,
    ageData: seq<Entry>,
    statusData: seq<Entry>,
    totalConfirmed: nat,
    totalTentative: nat)

  /** One of the fixed age groups. */
  datatype AgeGroup = AgeGroup(range: string, min: int, max: int)

  const AGE_GROUPS: seq<AgeGroup> := [
    AgeGroup("18-22", 18, 22), AgeGroup("23-26", 23, 26),
    AgeGroup("27-30", 27, 30), AgeGroup("31+", 31, 100)]

  /** The number `a.age` compares as: `null` compares as 0. */
  function AgeNumber(a: Age): int
  {
    if a.Years? then a.n else 0
  }

  predicate IsFemale(a: Guest) { a.gender == "Female" }
  predicate IsMale(a: Guest) { a.gender == "Male" }
  predicate IsConfirmed(a: Guest) { a.status == CONFIRMED }
  predicate IsTentative(a: Guest) { a.status == TENTATIVE }

  /** `a.age >= group.min && a.age <= group.max`. */
  predicate InGroup(a: Guest, g: AgeGroup)
  {
    g.min <= AgeNumber(a.age) <= g.max
  }

  /** The filter callback of one age bar. */
  function InGroupOf(g: AgeGroup): Guest -> bool
  {
    a => InGroup(a, g)
  }

  /** `attendees.filter(a => a.age >= min && a.age <= max).length`. */
  function GroupCount(attendees: seq<Guest>, g: AgeGroup): (r: nat)
    ensures r == CountWhere(attendees, InGroupOf(g))
    ensures r == |attendees| <==> forall i :: 0 <= i < |attendees| ==> InGroup(attendees[i], g)
  {
    FilterKeepsLength(attendees, InGroupOf(g));
    FilterCountWhere(attendees, InGroupOf(g));
    |Filter(attendees, InGroupOf(g))|
  }

  /** The eight counted values of the panel, in chart order: Female, Male, the
      four age bars, Confirmed, Tentative. */
  function Criterion(j: nat): Guest -> bool
    requires j < 8
  {
    if j == 0 then IsFemale
    else if j == 1 then IsMale
    else if j < 6 then InGroupOf(AGE_GROUPS[j - 2])
    else if j == 6 then IsConfirmed
    else IsTentative
  }

  /** The panel's charts have two gender entries, four age entries and two status entries. */
  predicate WellShaped(s: Stats)
  {
    |s.genderData| == 2 && |s.ageData| == 4 && |s.statusData| == 2
  }

  /** The eight values of the charts, in the order of `Criterion`. */
  function Counts(s: Stats): seq<nat>
    requires WellShaped(s)
  {
    [s.genderData[0].value, s.genderData[1].value,
     s.ageData[0].value, s.ageData[1].value, s.ageData[2].value, s.ageData[3].value,
     s.statusData[0].value, s.statusData[1].value]
  }

  /** The reference count: for each criterion, how many attendees it accepts. */
  function Tally(attendees: seq<Guest>): (r: seq<nat>)
    ensures |r| == 8
    ensures forall j :: 0 <= j < 8 ==> r[j] == CountWhere(attendees, Criterion(j))
  {
    [CountWhere(attendees, IsFemale), CountWhere(attendees, IsMale),
     CountWhere(attendees, InGroupOf(AGE_GROUPS[0])), CountWhere(attendees, InGroupOf(AGE_GROUPS[1])),
     CountWhere(attendees, InGroupOf(AGE_GROUPS[2])), CountWhere(attendees, InGroupOf(AGE_GROUPS[3])),
     CountWhere(attendees, IsConfirmed), CountWhere(attendees, IsTentative)]
  }

  /** The panel: the empty state for no attendees, otherwise the charts, each
      value the number of attendees its criterion accepts. */
  function Compute(attendees: seq<Guest>): (r: Option<Stats>)
    ensures r.None? <==> attendees == []
    ensures r.Some? ==> WellShaped(r.value)
    ensures r.Some? ==> r.value.genderData[0].name == "Female" && r.value.genderData[1].name == "Male"
    ensures r.Some? ==> forall i :: 0 <= i < 4 ==> r.value.ageData[i].name == AGE_GROUPS[i].range
    ensures r.Some? ==> r.value.statusData[0].name == CONFIRMED && r.value.statusData[1].name == TENTATIVE
    ensures r.Some? ==> Counts(r.value) == Tally(attendees)
    ensures r.Some? ==> r.value.totalConfirmed == r.value.statusData[0].value
    ensures r.Some? ==> r.value.totalTentative == r.value.statusData[1].value
  {
    if attendees == [] then None
    else
      FilterCountWhere(attendees, IsFemale);
      FilterCountWhere(attendees, IsMale);
      FilterCountWhere(attendees, IsConfirmed);
      FilterCountWhere(attendees, IsTentative);
      var confirmed := |Filter(attendees, IsConfirmed)|;
      var tentative := |Filter(attendees, IsTentative)|;
      Some(Stats(
        [Entry("Female", |Filter(attendees, IsFemale)|), Entry("Male", |Filter(attendees, IsMale)|)],
        seq(4, i requires 0 <= i < 4 => Entry(AGE_GROUPS[i].range, GroupCount(attendees, AGE_GROUPS[i]))),
        [Entry(CONFIRMED, confirmed), Entry(TENTATIVE, tentative)],
        confirmed, tentative))
  }

  /** Value `j` of the panel: zero while the empty state is shown. */
  function Shown(attendees: seq<Guest>, j: nat): (r: nat)
    requires j < 8
    ensures r == Tally(attendees)[j]
  {
    if attendees == [] then 0 else Counts(Compute(attendees).value)[j]
  }

  /** One more attendee adds one exactly to the entries whose criterion it
      meets (its gender, its age bar, its status) and changes no other entry. */
  lemma ComputeAppend(attendees: seq<Guest>, a: Guest)
    ensures Counts(Compute(attendees + [a]).value) ==
      seq(8, j requires 0 <= j < 8 => Shown(attendees, j) + (if Criterion(j)(a) then 1 else 0))
  {
    forall j | 0 <= j < 8
      ensures Tally(attendees + [a])[j] == Tally(attendees)[j] + (if Criterion(j)(a) then 1 else 0)
    {
      CountWhereAppend(attendees, a, Criterion(j));
    }
  }

  /** An entry is zero exactly when no attendee meets its criterion. */
  lemma ComputeZeroIff(attendees: seq<Guest>, j: nat)
    requires attendees != [] && j < 8
    ensures Counts(Compute(attendees).value)[j] == 0 <==>
      forall k :: 0 <= k < |attendees| ==> !Criterion(j)(attendees[k])
  {
    assert Counts(Compute(attendees).value)[j] == CountWhere(attendees, Criterion(j));
    CountWhereZeroIff(attendees, Criterion(j));
  }

  /** No attendee is counted twice: the two genders, the four age groups and
      the two statuses each sum to at most the number of attendees. */
  lemma CountsBounded(attendees: seq<Guest>)
    requires attendees != []
    ensures var s := Compute(attendees).value;
      && s.genderData[0].value + s.genderData[1].value <= |attendees|
      && s.ageData[0].value + s.ageData[1].value + s.ageData[2].value + s.ageData[3].value <= |attendees|
      && s.totalConfirmed + s.totalTentative <= |attendees|
  {
    DisjointCounts(attendees, IsFemale, IsMale);
    DisjointCounts(attendees, IsConfirmed, IsTentative);
    AgeGroupsDisjoint(attendees);
  }

  /** The four age groups never overlap, so the four age bars together count
      each attendee at most once. */
  lemma {:induction false} AgeGroupsDisjoint(attendees: seq<Guest>)
    ensures GroupCount(attendees, AGE_GROUPS[0]) + GroupCount(attendees, AGE_GROUPS[1])
      + GroupCount(attendees, AGE_GROUPS[2]) + GroupCount(attendees, AGE_GROUPS[3]) <= |attendees|
    ensures Shown(attendees, 2) + Shown(attendees, 3) + Shown(attendees, 4) + Shown(attendees, 5) <= |attendees|
  {
    if attendees != [] {
      AgeGroupsDisjoint(attendees[1..]);
    }
  }

  /** An attendee of neither gender leaves both gender entries as they were. */
  lemma UncountedGender(attendees: seq<Guest>, a: Guest)
    requires !IsFemale(a) && !IsMale(a)
    ensures forall j :: 0 <= j < 2 ==> Counts(Compute(attendees + [a]).value)[j] == Shown(attendees, j)
  {
    forall j | 0 <= j < 2
      ensures Counts(Compute(attendees + [a]).value)[j] == Shown(attendees, j)
    {
      UnmetUnchanged(attendees, a, j);
    }
  }

  /** An attendee whose age is outside 18 to 100 (a missing age compares as 0)
      leaves the four age entries as they were. */
  lemma UncountedAge(attendees: seq<Guest>, a: Guest)
    requires !(18 <= AgeNumber(a.age) <= 100) || a.age.NoAge?
    ensures forall j :: 2 <= j < 6 ==> Counts(Compute(attendees + [a]).value)[j] == Shown(attendees, j)
  {
    forall j | 2 <= j < 6
      ensures Counts(Compute(attendees + [a]).value)[j] == Shown(attendees, j)
    {
      assert !InGroup(a, AGE_GROUPS[j - 2]);
      UnmetUnchanged(attendees, a, j);
    }
  }

  /** An entry whose criterion the new attendee does not meet keeps its value. */
  lemma UnmetUnchanged(attendees: seq<Guest>, a: Guest, j: nat)
    requires j < 8 && !Criterion(j)(a)
    ensures Counts(Compute(attendees + [a]).value)[j] == Shown(attendees, j)
  {
    CountWhereAppend(attendees, a, Criterion(j));
  }
}
