/**
 * The request handlers of my-backend/index.js over the in-memory store
 * `{ guests, tables, reminders }`. Each handler is a method of `Store` that
 * changes the collections in place, as the handlers change `db.data`; the
 * lowdb read and write around them are no-ops here, and every handler runs
 * atomically. `Date.now()` is the parameter `now`; URL ids are strings.
 */
module Backend {
  import opened Values
  import opened Records
  import opened Seqs
  import opened Dedup
  import opened Seating

  /** The HTTP outcome of a handler: 200, 201, 400 or 404. */
  datatype Status = Ok | Created | BadRequest | NotFound

  /** The body of POST /api/guests. Only the truthiness of the string fields
      matters to the handler, so "" stands for both a missing and an empty
      field. `confirmed` is the body's `confirmed` after `!!`. */
  datatype GuestBody = GuestBody(
    name: string, contactNumber: string, instagram: string,
    confirmed: bool, gender: string, age: Age)

  /** The body of PATCH /api/guests/:id: `None` is a field that is `undefined`. */
  datatype GuestPatch = GuestPatch(
    name: Option<string>, contactNumber: Option<string>, instagram: Option<string>,
    status: Option<string>, gender: Option<string>, age: Option<Age>)

  /** The body of POST /api/tables. `seats` 0, `tableType` "" and `spending` 0
      stand for missing (falsy) fields; `guests` is `None` when it is not an array. */
  datatype TableBody = TableBody(
    name: string, seats: int, tableType: string, spending: int,
    confirmed: bool, guests: Option<seq<Id>>)

  /** The body of PATCH /api/tables/:id: `None` is a field that is `undefined`. */
  datatype TablePatch = TablePatch(
    name: Option<string>, seats: Option<int>, tableType: Option<string>,
    spending: Option<int>, confirmed: Option<bool>, guests: Option<seq<Id>>)

  /** The three results of POST /api/guests: new guest list, status, body. */
  datatype Posted = Posted(guests: seq<Guest>, status: Status, guest: Option<Guest>)

  // ---------------------------------------------------------------------------
  // Lookups

  /** `tables.find(t => String(t.id) === String(id))`, as an index. */
  function FindTable(ts: seq<Table>, id: string): (r: Option<nat>)
    ensures r.Some? ==> r.value < |ts| && ToStr(ts[r.value].id) == id
    ensures r.Some? ==> forall i :: 0 <= i < r.value ==> ToStr(ts[i].id) != id
    ensures r.None? ==> forall i :: 0 <= i < |ts| ==> ToStr(ts[i].id) != id
  {
    if ts == [] then None
    else if ToStr(ts[0].id) == id then Some(0)
    else
      match FindTable(ts[1..], id)
      case None => None
      case Some(i) => assert ts[1..][i] == ts[i + 1]; Some(i + 1)
  }

  /** `guests.find(g => g.name === name)`, as an index. */
  function FindByName(gs: seq<Guest>, name: string): (r: Option<nat>)
    ensures r.Some? ==> r.value < |gs| && gs[r.value].name == name
    ensures r.Some? ==> forall k :: 0 <= k < r.value ==> gs[k].name != name
    ensures r.None? ==> forall k :: 0 <= k < |gs| ==> gs[k].name != name
  {
    if gs == [] then None
    else if gs[0].name == name then Some(0)
    else
      match FindByName(gs[1..], name)
      case None => None
      case Some(k) => assert gs[1..][k] == gs[k + 1]; Some(k + 1)
  }

  // ---------------------------------------------------------------------------
  // Record updates

  function StatusOf(confirmed: bool): string
  {
    if confirmed then CONFIRMED else TENTATIVE
  }

  /** The merge of POST /api/guests into an existing guest of the same name:
      contact, instagram, gender and age are overwritten only by truthy
      inputs; `confirmed` and `status` always follow the body. */
  function MergeInto(g: Guest, b: GuestBody): (r: Guest)
    ensures r.id == g.id && r.name == g.name && r.table == g.table
    ensures r.confirmed == b.confirmed && (r.status == CONFIRMED <==> b.confirmed)
    ensures r.status == CONFIRMED || r.status == TENTATIVE
    // a falsy input never erases what is stored
    ensures b.contactNumber == "" ==> r.contactNumber == g.contactNumber
    ensures b.instagram == "" ==> r.instagram == g.instagram
    ensures b.gender == "" ==> r.gender == g.gender
    ensures !AgeTruthy(b.age) ==> r.age == g.age
    // a truthy input always lands
    ensures b.contactNumber != "" ==> r.contactNumber == b.contactNumber
    ensures b.instagram != "" ==> r.instagram == b.instagram
    ensures b.gender != "" ==> r.gender == b.gender
    ensures AgeTruthy(b.age) ==> r.age == b.age
  {
    g.(contactNumber := if b.contactNumber != "" then b.contactNumber else g.contactNumber,
       instagram := if b.instagram != "" then b.instagram else g.instagram,
       confirmed := b.confirmed,
       status := StatusOf(b.confirmed),
       gender := if b.gender != "" then b.gender else g.gender,
       age := if AgeTruthy(b.age) then b.age else g.age)
  }

  /** The record POST /api/guests creates. */
  function NewGuest(b: GuestBody, now: int): (r: Guest)
    ensures r.id == Num(now) && r.name == b.name && r.table == None
    ensures r.contactNumber == b.contactNumber && r.instagram == b.instagram && r.gender == b.gender
    ensures r.age == (if AgeTruthy(b.age) then b.age else NoAge)
    ensures r.confirmed == b.confirmed && (r.status == CONFIRMED <==> b.confirmed)
  {
    Guest(Num(now), b.name, b.contactNumber, b.instagram, b.confirmed, StatusOf(b.confirmed),
          b.gender, if AgeTruthy(b.age) then b.age else NoAge, None)
  }

  /** What POST /api/guests does to the guest list: reject an empty name,
      merge into the first guest of the same name, or append a new guest. */
  function AddOrMerge(gs: seq<Guest>, b: GuestBody, now: int): (r: Posted)
    ensures r.status == BadRequest <==> b.name == ""
    ensures r.status == BadRequest ==> r.guests == gs && r.guest == None
    ensures r.status == Ok <==> b.name != "" && exists k :: 0 <= k < |gs| && gs[k].name == b.name
    ensures r.status == Ok ==> |r.guests| == |gs| && r.guest.Some? && r.guest.value.name == b.name
    // the first guest of that name, and only it, is merged with the body
    ensures r.status == Ok ==> exists k :: (0 <= k < |gs| && gs[k].name == b.name
      && (forall j :: 0 <= j < k ==> gs[j].name != b.name)
      && r.guest == Some(MergeInto(gs[k], b)) && r.guests == gs[k := MergeInto(gs[k], b)])
    ensures r.status == Created ==> r.guests == gs + [NewGuest(b, now)] && r.guest == Some(NewGuest(b, now))
    ensures r.status != BadRequest ==> r.guest.Some? && (r.guest.value.status == CONFIRMED <==> b.confirmed)
  {
    if b.name == "" then Posted(gs, BadRequest, None)
    else match FindByName(gs, b.name)
      case Some(k) => var m := MergeInto(gs[k], b); Posted(gs[k := m], Ok, Some(m))
      case None => Posted(gs + [NewGuest(b, now)], Created, Some(NewGuest(b, now)))
  }

  /** Submitting a guest twice under one name leaves one record, with the
      id the first submission gave it, and the second answer is a merge. */
  lemma AddTwiceKeepsOneRecord(gs: seq<Guest>, b1: GuestBody, b2: GuestBody, t1: int, t2: int)
    requires b1.name != "" && b2.name == b1.name
    ensures var r1 := AddOrMerge(gs, b1, t1);
      var r2 := AddOrMerge(r1.guests, b2, t2);
      && r2.status == Ok
      && |r2.guests| == |r1.guests|
      && r2.guest.value.id == r1.guest.value.id
      && (r2.guest.value.status == CONFIRMED <==> b2.confirmed)
  {
    var r1 := AddOrMerge(gs, b1, t1);
    match FindByName(gs, b1.name)
    case Some(k) =>
      assert r1.guests == gs[k := MergeInto(gs[k], b1)];
      assert FindByName(r1.guests, b1.name) == Some(k) by {
        assert forall j :: 0 <= j < |gs| ==> r1.guests[j].name == gs[j].name;
      }
    case None =>
      var n := |gs|;
      assert r1.guests[n] == NewGuest(b1, t1);
      assert forall j :: 0 <= j < n ==> r1.guests[j] == gs[j];
      assert FindByName(r1.guests, b1.name) == Some(n);
  }

  /** PATCH /api/tables/:id on the found table: each field present in the
      body is overwritten, every other field is kept. */
  function ApplyTablePatch(t: Table, p: TablePatch): (r: Table)
    ensures r.id == t.id
    ensures r.name == (if p.name.Some? then p.name.value else t.name)
    ensures r.seats == (if p.seats.Some? then p.seats.value else t.seats)
    ensures r.tableType == (if p.tableType.Some? then p.tableType.value else t.tableType)
    ensures r.spending == (if p.spending.Some? then p.spending.value else t.spending)
    ensures r.confirmed == (if p.confirmed.Some? then p.confirmed.value else t.confirmed)
    ensures r.guests == (if p.guests.Some? then p.guests.value else t.guests)
  {
    Table(t.id,
          if p.name.Some? then p.name.value else t.name,
          if p.seats.Some? then p.seats.value else t.seats,
          if p.tableType.Some? then p.tableType.value else t.tableType,
          if p.spending.Some? then p.spending.value else t.spending,
          if p.confirmed.Some? then p.confirmed.value else t.confirmed,
          if p.guests.Some? then p.guests.value else t.guests)
  }

  /** PATCH /api/guests/:id on the found guest: each field present in the
      body is overwritten; `id`, `table` and `confirmed` are never touched. */
  function ApplyGuestPatch(g: Guest, p: GuestPatch): (r: Guest)
    ensures r.id == g.id && r.table == g.table && r.confirmed == g.confirmed
    ensures r.name == (if p.name.Some? then p.name.value else g.name)
    ensures r.contactNumber == (if p.contactNumber.Some? then p.contactNumber.value else g.contactNumber)
    ensures r.instagram == (if p.instagram.Some? then p.instagram.value else g.instagram)
    ensures r.status == (if p.status.Some? then p.status.value else g.status)
    ensures r.gender == (if p.gender.Some? then p.gender.value else g.gender)
    ensures r.age == (if p.age.Some? then p.age.value else g.age)
  {
    g.(name := if p.name.Some? then p.name.value else g.name,
       contactNumber := if p.contactNumber.Some? then p.contactNumber.value else g.contactNumber,
       instagram := if p.instagram.Some? then p.instagram.value else g.instagram,
       status := if p.status.Some? then p.status.value else g.status,
       gender := if p.gender.Some? then p.gender.value else g.gender,
       age := if p.age.Some? then p.age.value else g.age)
  }

  /** The record POST /api/tables creates: seats default to 6 (also for 0),
      the type to Standard, and the listed ids are stored as strings. */
  function NewTable(b: TableBody, now: int): (r: Table)
    ensures r.id == Num(now) && r.name == b.name && r.confirmed == b.confirmed
    ensures r.seats == (if b.seats == 0 then 6 else b.seats) && r.seats != 0
    ensures r.tableType == (if b.tableType == "" then STANDARD else b.tableType)
    ensures r.spending == b.spending
    ensures b.guests.None? ==> r.guests == []
    ensures b.guests.Some? ==> (|r.guests| == |b.guests.value| &&
      forall j :: 0 <= j < |r.guests| ==> r.guests[j].Str? && LooseEq(r.guests[j], b.guests.value[j]))
  {
    Table(Num(now), b.name,
          if b.seats != 0 then b.seats else 6,
          if b.tableType != "" then b.tableType else STANDARD,
          b.spending, b.confirmed,
          if b.guests.Some? then StringIds(b.guests.value) else [])
  }

  /** The key of the `reduce` in GET /api/guests: object keys are `String(id)`. */
  function IdKey(g: Guest): string
  {
    ToStr(g.id)
  }

  /** GET /api/guests: one entry per stringified id, preferring an entry with a table. */
  function DedupById(gs: seq<Guest>): (r: seq<Guest>)
    ensures |r| <= |gs|
    ensures forall i :: 0 <= i < |r| ==> r[i] in gs
  {
    KeepAssignedIsDedup(gs, IdKey);
    KeepAssigned(gs, IdKey)
  }

  /** GET /api/guests returns at most one entry per id, and an entry for every id. */
  lemma DedupByIdKeys(gs: seq<Guest>)
    ensures |DedupById(gs)| <= |gs|
    ensures forall i, j :: 0 <= i < j < |DedupById(gs)| ==> IdKey(DedupById(gs)[i]) != IdKey(DedupById(gs)[j])
    ensures forall k :: 0 <= k < |gs| ==> exists i :: 0 <= i < |DedupById(gs)| && IdKey(DedupById(gs)[i]) == IdKey(gs[k])
  {
    KeepAssignedIsDedup(gs, IdKey);
    var r := DedupById(gs);
    forall k | 0 <= k < |gs| ensures exists i :: 0 <= i < |r| && IdKey(r[i]) == IdKey(gs[k]) {
      assert KeyKept(r, IdKey, IdKey(gs[k]));
    }
  }

  /** Each entry GET /api/guests returns is a stored guest, and it has a table
      exactly when some stored guest with its id has one. */
  lemma DedupByIdEntries(gs: seq<Guest>, i: nat)
    requires i < |DedupById(gs)|
    ensures DedupById(gs)[i] in gs
    ensures HasTable(DedupById(gs)[i]) <==>
      exists k :: 0 <= k < |gs| && IdKey(gs[k]) == IdKey(DedupById(gs)[i]) && HasTable(gs[k])
  {
    KeepAssignedIsDedup(gs, IdKey);
    assert IsRepresentative(gs, IdKey, DedupById(gs)[i]);
    KeptHasTableIff(gs, IdKey, i);
  }

  // ---------------------------------------------------------------------------
  // The store

  class Store {
    var guests: seq<Guest>
    var tables: seq<Table>
    var reminders: seq<Reminder>

    /** `defaultData`: three empty collections. */
    constructor ()
      ensures guests == [] && tables == [] && reminders == []
    {
      guests, tables, reminders := [], [], [];
    }

    /** GET /api/guests. */
    function ListGuests(): (r: seq<Guest>)
      reads this
      ensures |r| <= |guests|
      ensures forall i, j :: 0 <= i < j < |r| ==> !LooseEq(r[i].id, r[j].id)
      ensures forall k :: 0 <= k < |guests| ==> exists i :: 0 <= i < |r| && LooseEq(r[i].id, guests[k].id)
    {
      DedupByIdKeys(guests);
      DedupById(guests)
    }

    /** The stamping loop shared by PATCH and POST /api/tables: each listed id
        gives the guest it finds the table's name. */
    method StampListed(ids: seq<Id>, name: string)
      modifies this
      ensures guests == Stamped(old(guests), ids, name)
      ensures tables == old(tables) && reminders == old(reminders)
    {
      ghost var g0 := guests;
      var j := 0;
      while j < |ids|
        invariant 0 <= j <= |ids|
        invariant guests == Stamped(g0, ids[..j], name)
        invariant tables == old(tables) && reminders == old(reminders)
      {
        SameIdsSameFind(g0, guests, ids[j]);
        var found := FindById(guests, ids[j]);
        if found.Some? {
          var k := found.value;
          guests := guests[k := guests[k].(table := Some(name))];
        }
        StampedStep(g0, ids, j, name, found);
        j := j + 1;
      }
      assert ids[..|ids|] == ids;
    }

    /** The unassigning loop of PATCH /api/tables/:id: `includes` compares
        strictly (see Seating.ListedByStringLosesSeat for what that costs). */
    method UnassignUnlisted(ids: seq<Id>, name: string)
      modifies this
      ensures guests == UnassignedStrict(old(guests), ids, name)
      ensures tables == old(tables) && reminders == old(reminders)
    {
      ghost var g0 := guests;
      var k := 0;
      while k < |guests|
        invariant 0 <= k <= |guests| == |g0|
        invariant forall m :: 0 <= m < k ==> guests[m] == UnassignedStrict(g0, ids, name)[m]
        invariant forall m :: k <= m < |g0| ==> guests[m] == g0[m]
        invariant tables == old(tables) && reminders == old(reminders)
      {
        if guests[k].table == Some(name) && guests[k].id !in ids {
          guests := guests[k := guests[k].(table := None)];
        }
        k := k + 1;
      }
      assert guests == UnassignedStrict(g0, ids, name);
    }

    /** PATCH /api/tables/:id: the found table takes the fields present in
        the body; with a guest list, its guests are stamped with the table's
        new name and the unlisted ones that carry it lose it. */
    method PatchTable(id: string, p: TablePatch) returns (status: Status, result: Option<Table>)
      modifies this
      ensures reminders == old(reminders)
      ensures FindTable(old(tables), id).None? ==>
        status == NotFound && result == None && tables == old(tables) && guests == old(guests)
      ensures FindTable(old(tables), id).Some? ==>
        var i := FindTable(old(tables), id).value;
        var t := ApplyTablePatch(old(tables)[i], p);
        && status == Ok && result == Some(t)
        && tables == old(tables)[i := t]
        && guests == (if p.guests.Some? then Reassign(old(guests), p.guests.value, t.name) else old(guests))
    {
      var found := FindTable(tables, id);
      if found.None? {
        return NotFound, None;
      }
      var i := found.value;
      var t := tables[i];
      if p.name.Some? { t := t.(name := p.name.value); }
      if p.seats.Some? { t := t.(seats := p.seats.value); }
      if p.tableType.Some? { t := t.(tableType := p.tableType.value); }
      if p.spending.Some? { t := t.(spending := p.spending.value); }
      if p.confirmed.Some? { t := t.(confirmed := p.confirmed.value); }
      if p.guests.Some? {
        t := t.(guests := p.guests.value);
        tables := tables[i := t];
        StampListed(p.guests.value, t.name);
        UnassignUnlisted(p.guests.value, t.name);
      } else {
        tables := tables[i := t];
      }
      return Ok, Some(t);
    }

    /** DELETE /api/tables/:id: guests that named the table keep the name. */
    method DeleteTable(id: string) returns (status: Status)
      modifies this
      ensures tables == TablesWithout(old(tables), id)
      ensures guests == old(guests) && reminders == old(reminders)
      ensures status == (if |tables| < |old(tables)| then Ok else NotFound)
      ensures forall t :: t in tables ==> ToStr(t.id) != id
      ensures status == Ok <==> exists i :: 0 <= i < |old(tables)| && ToStr(old(tables)[i].id) == id
    {
      TableDeleteShrinksIff(tables, id);
      var before := |tables|;
      tables := TablesWithout(tables, id);
      status := if |tables| < before then Ok else NotFound;
    }

    /** POST /api/guests. */
    method PostGuest(b: GuestBody, now: int) returns (status: Status, result: Option<Guest>)
      modifies this
      ensures Posted(guests, status, result) == AddOrMerge(old(guests), b, now)
      ensures tables == old(tables) && reminders == old(reminders)
    {
      if b.name == "" {
        return BadRequest, None;
      }
      var found := FindByName(guests, b.name);
      if found.Some? {
        var k := found.value;
        var g := guests[k];
        g := g.(contactNumber := if b.contactNumber != "" then b.contactNumber else g.contactNumber);
        g := g.(instagram := if b.instagram != "" then b.instagram else g.instagram);
        g := g.(confirmed := b.confirmed);
        g := g.(status := if b.confirmed then CONFIRMED else TENTATIVE);
        g := g.(gender := if b.gender != "" then b.gender else g.gender);
        g := g.(age := if AgeTruthy(b.age) then b.age else g.age);
        guests := guests[k := g];
        return Ok, Some(g);
      }
      var created := Guest(Num(now), b.name, b.contactNumber, b.instagram, b.confirmed,
                         if b.confirmed then CONFIRMED else TENTATIVE, b.gender,
                         if AgeTruthy(b.age) then b.age else NoAge, None);
      guests := guests + [created];
      return Created, Some(created);
    }

    /** DELETE /api/guests/:id: the guest goes, and so does its id from every
        table's list, whether or not a guest was found. */
    method DeleteGuest(id: string) returns (status: Status)
      modifies this
      ensures guests == GuestsWithout(old(guests), id)
      ensures tables == CascadeRemoval(old(tables), id)
      ensures reminders == old(reminders)
      ensures status == (if |guests| < |old(guests)| then Ok else NotFound)
      // no stored record, guest or seat entry, still carries the id
      ensures forall g :: g in guests ==> ToStr(g.id) != id
      ensures forall t, x :: t in tables && x in t.guests ==> ToStr(x) != id
      ensures status == Ok <==> exists k :: 0 <= k < |old(guests)| && ToStr(old(guests)[k].id) == id
    {
      GuestDeleteLeavesNoTrace(guests, tables, id);
      var before := |guests|;
      guests := GuestsWithout(guests, id);
      ghost var t0 := tables;
      var i := 0;
      while i < |tables|
        invariant 0 <= i <= |tables| == |t0|
        invariant forall m :: 0 <= m < i ==> tables[m] == CascadeRemoval(t0, id)[m]
        invariant forall m :: i <= m < |t0| ==> tables[m] == t0[m]
        invariant guests == GuestsWithout(old(guests), id) && reminders == old(reminders)
      {
        tables := tables[i := tables[i].(guests := IdsWithout(tables[i].guests, id))];
        i := i + 1;
      }
      assert tables == CascadeRemoval(t0, id);
      status := if |guests| < before then Ok else NotFound;
    }

    /** POST /api/tables. */
    method PostTable(b: TableBody, now: int) returns (status: Status, result: Option<Table>)
      modifies this
      ensures reminders == old(reminders)
      ensures b.name == "" ==>
        status == BadRequest && result == None && tables == old(tables) && guests == old(guests)
      ensures b.name != "" ==>
        && status == Created && result == Some(NewTable(b, now))
        && tables == old(tables) + [NewTable(b, now)]
        && guests == Stamped(old(guests), NewTable(b, now).guests, b.name)
        // stamping by the stored strings is stamping by the ids as sent
        && (b.guests.Some? ==> guests == Stamped(old(guests), b.guests.value, b.name))
    {
      if b.name == "" {
        return BadRequest, None;
      }
      var guestIds := if b.guests.Some? then StringIds(b.guests.value) else [];
      var t := Table(Num(now), b.name,
                     if b.seats != 0 then b.seats else 6,
                     if b.tableType != "" then b.tableType else STANDARD,
                     b.spending, b.confirmed, guestIds);
      tables := tables + [t];
      if b.guests.Some? {
        StampedStringIds(guests, b.guests.value, b.name);
      }
      StampListed(guestIds, b.name);
      return Created, Some(t);
    }

    /** POST /api/reminders. */
    method PostReminder(message: string, date: Option<string>, now: int)
      returns (status: Status, result: Option<Reminder>)
      modifies this
      ensures guests == old(guests) && tables == old(tables)
      ensures message == "" ==> status == BadRequest && result == None && reminders == old(reminders)
      ensures message != "" ==> (status == Created && result == Some(Reminder(Num(now), message, date))
        && reminders == old(reminders) + [Reminder(Num(now), message, date)])
    {
      if message == "" {
        return BadRequest, None;
      }
      var r := Reminder(Num(now), message, date);
      reminders := reminders + [r];
      return Created, Some(r);
    }

    /** PATCH /api/guests/:id. */
    method PatchGuest(id: string, p: GuestPatch) returns (status: Status, result: Option<Guest>)
      modifies this
      ensures tables == old(tables) && reminders == old(reminders)
      ensures FindById(old(guests), Str(id)).None? ==>
        status == NotFound && result == None && guests == old(guests)
      ensures FindById(old(guests), Str(id)).Some? ==>
        var k := FindById(old(guests), Str(id)).value;
        && status == Ok && result == Some(ApplyGuestPatch(old(guests)[k], p))
        && guests == old(guests)[k := ApplyGuestPatch(old(guests)[k], p)]
    {
      var found := FindById(guests, Str(id));
      if found.None? {
        return NotFound, None;
      }
      var k := found.value;
      var g := guests[k];
      if p.name.Some? { g := g.(name := p.name.value); }
      if p.contactNumber.Some? { g := g.(contactNumber := p.contactNumber.value); }
      if p.instagram.Some? { g := g.(instagram := p.instagram.value); }
      if p.status.Some? { g := g.(status := p.status.value); }
      if p.gender.Some? { g := g.(gender := p.gender.value); }
      if p.age.Some? { g := g.(age := p.age.value); }
      guests := guests[k := g];
      return Ok, Some(g);
    }

    /** DELETE /api/reminders/:id. */
    method DeleteReminder(id: string) returns (status: Status)
      modifies this
      ensures reminders == RemindersWithout(old(reminders), id)
      ensures guests == old(guests) && tables == old(tables)
      ensures status == (if |reminders| < |old(reminders)| then Ok else NotFound)
      ensures status == Ok <==> exists i :: 0 <= i < |old(reminders)| && ToStr(old(reminders)[i].id) == id
    {
      FilterKeepsLength(reminders, r => KeepReminder(r, id));
      var before := |reminders|;
      reminders := RemindersWithout(reminders, id);
      status := if |reminders| < before then Ok else NotFound;
    }
  }

  predicate KeepReminder(r: Reminder, id: string) { ToStr(r.id) != id }

  /** `reminders.filter(r => String(r.id) !== String(id))`. */
  function RemindersWithout(rs: seq<Reminder>, id: string): seq<Reminder>
  {
    Filter(rs, r => KeepReminder(r, id))
  }

  /** The lookup of the stamping loop sees only ids, which stamping keeps. */
  lemma SameIdsSameFind(a: seq<Guest>, b: seq<Guest>, x: Id)
    requires |a| == |b| && forall k :: 0 <= k < |a| ==> a[k].id == b[k].id
    ensures FindById(a, x) == FindById(b, x)
  {
    // both lookups stop at the first index whose id stringifies like `x`
    var ra := FindById(a, x);
    var rb := FindById(b, x);
    if ra.Some? {
      assert LooseEq(b[ra.value].id, x);
      assert rb.Some? && rb.value <= ra.value;
    }
    if rb.Some? {
      assert LooseEq(a[rb.value].id, x);
      assert ra.Some? && ra.value <= rb.value;
    }
    assert ra == rb;
  }

  /** One turn of the stamping loop extends the stamped prefix of the id list by one. */
  lemma StampedStep(g0: seq<Guest>, ids: seq<Id>, j: nat, name: string, found: Option<nat>)
    requires j < |ids|
    requires found == FindById(g0, ids[j])
    ensures var s := Stamped(g0, ids[..j], name);
      Stamped(g0, ids[..j + 1], name) ==
        if found.Some? then s[found.value := s[found.value].(table := Some(name))] else s
  {
    var s := Stamped(g0, ids[..j], name);
    var s' := Stamped(g0, ids[..j + 1], name);
    var expected := if found.Some? then s[found.value := s[found.value].(table := Some(name))] else s;
    forall m | 0 <= m < |g0| ensures s'[m] == expected[m] {
      var x := g0[m].id;
      ListedPrefixStep(ids, j, x);
      if found.Some? && LooseEq(ids[j], x) && FirstOfItsId(g0, m) {
        var k := found.value;
        assert ToStr(g0[k].id) == ToStr(g0[m].id);
        assert k == m;
      }
    }
  }

  /** An id is listed in the first `j + 1` ids iff it is listed in the first `j` or is the `j`-th. */
  lemma ListedPrefixStep(ids: seq<Id>, j: nat, x: Id)
    requires j < |ids|
    ensures ListedLoosely(ids[..j + 1], x) <==> ListedLoosely(ids[..j], x) || LooseEq(ids[j], x)
  {
    if ListedLoosely(ids[..j + 1], x) {
      var i :| 0 <= i < j + 1 && LooseEq(ids[..j + 1][i], x);
      if i < j { assert ids[..j][i] == ids[..j + 1][i]; }
    }
    if ListedLoosely(ids[..j], x) {
      var i :| 0 <= i < j && LooseEq(ids[..j][i], x);
      assert ids[..j + 1][i] == ids[..j][i];
    }
    if LooseEq(ids[j], x) {
      assert ids[..j + 1][j] == ids[j];
    }
  }
}
