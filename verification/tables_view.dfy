/**
 * The seat-list edits and table groupings of TablesSection.tsx. The view
 * computes the new `guests` list of a table and sends it with PATCH
 * /api/tables/:id; only the list it computes is modelled here.
 */
module TablesView {
  import opened Values
  import opened Records
  import opened Seqs
  import opened Seating

  /** `getAttendeeById`: the first attendee whose id stringifies like `id`. */
  function AttendeeById(attendees: seq<Guest>, id: Id): (r: Option<Guest>)
    ensures r.Some? ==> exists k :: 0 <= k < |attendees| && attendees[k] == r.value && FirstOfItsId(attendees, k)
    ensures r.Some? ==> LooseEq(r.value.id, id)
    ensures r.None? <==> forall k :: 0 <= k < |attendees| ==> !LooseEq(attendees[k].id, id)
  {
    match FindById(attendees, id)
    case None => None
    case Some(k) => Some(attendees[k])
  }

  /** A guest is found whether it is asked for by its number or by its decimal string. */
  lemma AttendeeByStringId(attendees: seq<Guest>, n: int)
    ensures AttendeeById(attendees, Num(n)) == AttendeeById(attendees, Str(IntToString(n)))
  {
    SameLookupKey(attendees, Num(n), Str(IntToString(n)));
  }

  lemma {:induction false} SameLookupKey(gs: seq<Guest>, x: Id, y: Id)
    requires ToStr(x) == ToStr(y)
    ensures FindById(gs, x) == FindById(gs, y)
  {
    if gs != [] {
      SameLookupKey(gs[1..], x, y);
    }
  }

  /** `tables.find(t => t.id === tableId)`: strict comparison. */
  function FindTableStrict(ts: seq<Table>, tableId: Id): (r: Option<nat>)
    ensures r.Some? ==> r.value < |ts| && ts[r.value].id == tableId
    ensures r.Some? ==> forall i :: 0 <= i < r.value ==> ts[i].id != tableId
    ensures r.None? ==> forall i :: 0 <= i < |ts| ==> ts[i].id != tableId
  {
    if ts == [] then None
    else if ts[0].id == tableId then Some(0)
    else
      match FindTableStrict(ts[1..], tableId)
      case None => None
      case Some(i) => assert ts[1..][i] == ts[i + 1]; Some(i + 1)
  }

  predicate OtherId(x: Id, guestId: Id) { x != guestId }

  /** The list `onRemovePersonFromTable` sends, or `None` when the table is
      not found and nothing is sent: `table.guests.filter(id => id !== guestId)`. */
  function RemovalList(ts: seq<Table>, tableId: Id, guestId: Id): (r: Option<seq<Id>>)
    ensures r.None? <==> FindTableStrict(ts, tableId).None?
  {
    match FindTableStrict(ts, tableId)
    case None => None
    case Some(i) => Some(Filter(ts[i].guests, x => OtherId(x, guestId)))
  }

  /** The list sent for a found table has every occurrence of the guest removed
      and every other id, with its multiplicity, in its old order. */
  lemma RemovalListSpec(ts: seq<Table>, tableId: Id, guestId: Id)
    requires FindTableStrict(ts, tableId).Some?
    ensures var before := ts[FindTableStrict(ts, tableId).value].guests;
      var r := RemovalList(ts, tableId, guestId).value;
      && guestId !in r
      && Subseq(r, before)
      && (forall x :: x != guestId ==> multiset(r)[x] == multiset(before)[x])
      && (|r| == |before| <==> guestId !in before)
  {
    var before := ts[FindTableStrict(ts, tableId).value].guests;
    var p := x => OtherId(x, guestId);
    FilterIsSubseq(before, p);
    FilterCounts(before, p);
    FilterKeepsLength(before, p);
    FilterMembership(before, p, guestId);
  }

  /** `currentGuests.includes(guest.id) ? currentGuests : [...currentGuests, guest.id]`,
      as written: `includes` compares strictly. */
  function AppendIfAbsent(current: seq<Id>, guestId: Id): (r: seq<Id>)
    ensures guestId in r
    ensures guestId in current ==> r == current
    ensures guestId !in current ==> r == current + [guestId]
  {
    if guestId in current then current else current + [guestId]
  }

  /** The list `handleAddGuestToTable` sends: the found table's list (or the
      empty list when the table is not found) with the guest added unless
      `includes` finds it, strictly. */
  function AdditionList(ts: seq<Table>, tableId: Id, guestId: Id): (r: seq<Id>)
    ensures guestId in r
    ensures FindTableStrict(ts, tableId).None? ==> r == [guestId]
    ensures FindTableStrict(ts, tableId).Some? ==>
      var before := ts[FindTableStrict(ts, tableId).value].guests;
      && (guestId in before ==> r == before)
      && (guestId !in before ==> r == before + [guestId])
  {
    match FindTableStrict(ts, tableId)
    case None => AppendIfAbsent([], guestId)
    case Some(i) => AppendIfAbsent(ts[i].guests, guestId)
  }

  /** Adding twice is adding once, and the added guest occurs once more at most. */
  lemma AppendIfAbsentIdempotent(current: seq<Id>, guestId: Id)
    ensures AppendIfAbsent(AppendIfAbsent(current, guestId), guestId) == AppendIfAbsent(current, guestId)
    ensures multiset(AppendIfAbsent(current, guestId))[guestId] ==
      if guestId in current then multiset(current)[guestId] else 1
    ensures forall x :: x != guestId ==>
      multiset(AppendIfAbsent(current, guestId))[x] == multiset(current)[x]
  {
  }

  /** `includes` compares strictly: a guest listed by its decimal string (as
      tables created by POST /api/tables list them) is appended a second
      time by its number, and then fills two seats. */
  lemma AddListedByStringDuplicates()
    ensures AppendIfAbsent([Str("7")], Num(7)) == [Str("7"), Num(7)]
    ensures LooseEq(Str("7"), Num(7))
    ensures AppendIfAbsentLoose([Str("7")], Num(7)) == [Str("7")]
  {
    assert IntToString(7) == "7";
    assert LooseEq([Str("7")][0], Num(7));
  }

  /** The addition with the comparison the rest of the view uses,
      `String(a) === String(b)`: a guest already listed in any representation
      is not added again. */
  function AppendIfAbsentLoose(current: seq<Id>, guestId: Id): (r: seq<Id>)
    ensures ListedLoosely(r, guestId)
    ensures ListedLoosely(current, guestId) ==> r == current
    ensures !ListedLoosely(current, guestId) ==> r == current + [guestId]
  {
    if ListedLoosely(current, guestId) then current
    else
      var r := current + [guestId];
      assert LooseEq(r[|current|], guestId);
      r
  }

  /** Adding the same guest again, by whatever representation, changes nothing,
      and the added id is the only new entry. */
  lemma AppendIfAbsentLooseIdempotent(current: seq<Id>, guestId: Id, again: Id)
    requires LooseEq(again, guestId)
    ensures AppendIfAbsentLoose(AppendIfAbsentLoose(current, guestId), again) == AppendIfAbsentLoose(current, guestId)
    ensures |AppendIfAbsentLoose(current, guestId)| <= |current| + 1
  {
    var r := AppendIfAbsentLoose(current, guestId);
    var j :| 0 <= j < |r| && LooseEq(r[j], guestId);
    assert LooseEq(r[j], again);
  }

  /** The Add Guest control: shown while the list is shorter than the seats. */
  predicate CanAddGuest(t: Table): (r: bool)
    ensures r ==> |t.guests| + 1 <= t.seats && t.seats >= 1
  {
    |t.guests| < t.seats
  }

  /** Adding through the control never takes a table past its seat count. */
  lemma AddKeepsWithinSeats(t: Table, guestId: Id)
    requires CanAddGuest(t)
    ensures |AppendIfAbsent(t.guests, guestId)| <= t.seats
    ensures |AppendIfAbsentLoose(t.guests, guestId)| <= t.seats
  {
  }

  predicate IsVip(t: Table) { t.tableType == VIP }
  predicate IsStandard(t: Table) { t.tableType == STANDARD }

  /** `tables.filter(table => table.type === 'VIP')`. */
  function VipTables(ts: seq<Table>): (r: seq<Table>)
    ensures |r| <= |ts|
    ensures forall i :: 0 <= i < |r| ==> r[i] in ts && r[i].tableType == VIP
  {
    Filter(ts, IsVip)
  }

  /** `tables.filter(table => table.type === 'Standard')`. */
  function StandardTables(ts: seq<Table>): (r: seq<Table>)
    ensures |r| <= |ts|
    ensures forall i :: 0 <= i < |r| ==> r[i] in ts && r[i].tableType == STANDARD
  {
    Filter(ts, IsStandard)
  }

  /** The two sections never share a table, a table of any other type shows
      in neither, and together they show at most every table once. */
  lemma SectionsPartition(ts: seq<Table>)
    ensures forall t :: t in VipTables(ts) ==> t !in StandardTables(ts)
    ensures forall t :: t in ts && t.tableType != VIP && t.tableType != STANDARD ==>
      t !in VipTables(ts) && t !in StandardTables(ts)
    ensures forall t :: t in ts && t.tableType == VIP ==> t in VipTables(ts)
    ensures forall t :: t in ts && t.tableType == STANDARD ==> t in StandardTables(ts)
    ensures |VipTables(ts)| + |StandardTables(ts)| <= |ts|
  {
    DisjointCounts(ts, IsVip, IsStandard);
    forall t ensures t in VipTables(ts) <==> t in ts && IsVip(t) {
      FilterMembership(ts, IsVip, t);
    }
    forall t ensures t in StandardTables(ts) <==> t in ts && IsStandard(t) {
      FilterMembership(ts, IsStandard, t);
    }
  }
}
