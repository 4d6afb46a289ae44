/**
 * The guest/table back-reference protocol of my-backend/index.js, on plain
 * sequences of guests: the lookup the handlers use, the stamping loop (each
 * listed id gives the guest it finds the table's name), the unassigning loop
 * of PATCH /api/tables/:id, and the cascades of the two delete handlers.
 * The Store class in module Backend runs these loops in place and is proved
 * to end in the states defined here.
 */
module Seating {
  import opened Values
  import opened Records
  import opened Seqs

  /** Index `k` is the first guest carrying its own id, compared as strings:
      `guests.find(g => String(g.id) === String(x))` can stop only at such an index. */
  predicate FirstOfItsId(gs: seq<Guest>, k: nat)
    requires k < |gs|
  {
    forall k' :: 0 <= k' < k ==> ToStr(gs[k'].id) != ToStr(gs[k].id)
  }

  /** `guests.find(g => String(g.id) === String(x))`, as an index. */
  function FindById(gs: seq<Guest>, x: Id): (r: Option<nat>)
    ensures r.Some? ==> r.value < |gs| && LooseEq(gs[r.value].id, x) && FirstOfItsId(gs, r.value)
    ensures r.None? ==> forall k :: 0 <= k < |gs| ==> !LooseEq(gs[k].id, x)
  {
    if gs == [] then None
    else if LooseEq(gs[0].id, x) then Some(0)
    else
      match FindById(gs[1..], x)
      case None => None
      case Some(k) => assert gs[1..][k] == gs[k + 1]; Some(k + 1)
  }

  /** Some entry of `ids` equals `x` once both are stringified. */
  predicate ListedLoosely(ids: seq<Id>, x: Id)
  {
    exists j :: 0 <= j < |ids| && LooseEq(ids[j], x)
  }

  /** Two guest lists that differ at most in the `table` field. */
  ghost predicate OnlyTablesDiffer(gs: seq<Guest>, r: seq<Guest>)
  {
    |r| == |gs| && forall k :: 0 <= k < |gs| ==> r[k] == gs[k].(table := r[k].table)
  }

  /** The guests after `for (const guestId of ids) { find(...); guest.table = name }`:
      exactly the first guest of each listed id is stamped with `name`. */
  function Stamped(gs: seq<Guest>, ids: seq<Id>, name: string): (r: seq<Guest>)
    ensures OnlyTablesDiffer(gs, r)
    ensures forall k :: 0 <= k < |gs| && ListedLoosely(ids, gs[k].id) && FirstOfItsId(gs, k) ==>
      r[k].table == Some(name)
    ensures forall k :: 0 <= k < |gs| && r[k] != gs[k] ==> ListedLoosely(ids, gs[k].id)
  {
    seq(|gs|, k requires 0 <= k < |gs| =>
      if ListedLoosely(ids, gs[k].id) && FirstOfItsId(gs, k) then gs[k].(table := Some(name)) else gs[k])
  }

  /** The guests after the unassigning loop as written:
      `if (guest.table === name && !ids.includes(guest.id)) delete guest.table`.
      `includes` compares strictly, so a number id is not found among strings. */
  function UnassignedStrict(gs: seq<Guest>, ids: seq<Id>, name: string): (r: seq<Guest>)
    ensures OnlyTablesDiffer(gs, r)
    ensures forall k :: 0 <= k < |r| ==> (r[k].table == Some(name) ==> gs[k].id in ids)
    ensures forall k :: 0 <= k < |r| && gs[k].id in ids ==> r[k] == gs[k]
    ensures forall k :: 0 <= k < |r| && gs[k].table != Some(name) ==> r[k] == gs[k]
    // `delete guest.table`: an unlisted guest that carried the name ends with no table
    ensures forall k :: 0 <= k < |gs| && gs[k].table == Some(name) && gs[k].id !in ids ==> r[k].table == None
    ensures forall k :: 0 <= k < |gs| && r[k].table != gs[k].table ==> r[k].table == None
  {
    seq(|gs|, k requires 0 <= k < |gs| =>
      if gs[k].table == Some(name) && gs[k].id !in ids then gs[k].(table := None) else gs[k])
  }

  /** The reassignment protocol of PATCH /api/tables/:id as written: stamp,
      then unassign, both against the table's post-update `name`. */
  function Reassign(gs: seq<Guest>, ids: seq<Id>, name: string): (r: seq<Guest>)
    ensures OnlyTablesDiffer(gs, r)
    // every listed guest (found by its own id) now points back to the table
    ensures forall k :: 0 <= k < |gs| && gs[k].id in ids && FirstOfItsId(gs, k) ==>
      r[k].table == Some(name)
    // nobody whose id is not (strictly) listed still points to the table
    ensures forall k :: 0 <= k < |gs| && r[k].table == Some(name) ==> gs[k].id in ids
    // a guest the loops did not touch keeps its assignment
    ensures forall k :: (0 <= k < |gs| && !(ListedLoosely(ids, gs[k].id) && FirstOfItsId(gs, k))
      && gs[k].table != Some(name)) ==> r[k] == gs[k]
    // a guest that carried the name, or was stamped, but is not strictly listed ends with no table
    ensures forall k :: 0 <= k < |gs| && gs[k].table == Some(name) && gs[k].id !in ids ==> r[k].table == None
    ensures forall k :: (0 <= k < |gs| && ListedLoosely(ids, gs[k].id) && FirstOfItsId(gs, k)
      && gs[k].id !in ids) ==> r[k].table == None
    // a changed assignment is either this table or none
    ensures forall k :: 0 <= k < |gs| && r[k].table != gs[k].table && r[k].table != Some(name) ==> r[k].table == None
    // a later guest sharing a listed id is neither stamped nor unassigned
    ensures forall k :: 0 <= k < |gs| && gs[k].id in ids && !FirstOfItsId(gs, k) ==> r[k] == gs[k]
  {
    var s := Stamped(gs, ids, name);
    assert forall k :: 0 <= k < |gs| && gs[k].id in ids ==> ListedLoosely(ids, gs[k].id) by {
      forall k | 0 <= k < |gs| && gs[k].id in ids ensures ListedLoosely(ids, gs[k].id) {
        var j :| 0 <= j < |ids| && ids[j] == gs[k].id;
        assert LooseEq(ids[j], gs[k].id);
      }
    }
    UnassignedStrict(s, ids, name)
  }

  /** The unassigning loop with the comparison the other lookups of the
      handler use, `String(a) === String(b)`. */
  function UnassignedLoose(gs: seq<Guest>, ids: seq<Id>, name: string): (r: seq<Guest>)
    ensures OnlyTablesDiffer(gs, r)
    ensures forall k :: 0 <= k < |r| ==> (r[k].table == Some(name) ==> ListedLoosely(ids, gs[k].id))
    ensures forall k :: 0 <= k < |r| && ListedLoosely(ids, gs[k].id) ==> r[k] == gs[k]
    ensures forall k :: 0 <= k < |r| && gs[k].table != Some(name) ==> r[k] == gs[k]
    ensures forall k :: (0 <= k < |gs| && gs[k].table == Some(name)
      && !ListedLoosely(ids, gs[k].id)) ==> r[k].table == None
    ensures forall k :: 0 <= k < |gs| && r[k].table != gs[k].table ==> r[k].table == None
  {
    seq(|gs|, k requires 0 <= k < |gs| =>
      if gs[k].table == Some(name) && !ListedLoosely(ids, gs[k].id) then gs[k].(table := None) else gs[k])
  }

  /** The reassignment protocol as evidently intended: every guest a listed
      id finds points back to the table, whatever representation the id has,
      and nobody else does. */
  function ReassignLoose(gs: seq<Guest>, ids: seq<Id>, name: string): (r: seq<Guest>)
    ensures OnlyTablesDiffer(gs, r)
    ensures forall k :: 0 <= k < |gs| && ListedLoosely(ids, gs[k].id) && FirstOfItsId(gs, k) ==>
      r[k].table == Some(name)
    ensures forall k :: 0 <= k < |gs| && r[k].table == Some(name) ==> ListedLoosely(ids, gs[k].id)
    ensures forall k :: (0 <= k < |gs| && !(ListedLoosely(ids, gs[k].id) && FirstOfItsId(gs, k))
      && gs[k].table != Some(name)) ==> r[k] == gs[k]
    ensures forall k :: (0 <= k < |gs| && gs[k].table == Some(name)
      && !ListedLoosely(ids, gs[k].id)) ==> r[k].table == None
    ensures forall k :: 0 <= k < |gs| && r[k].table != gs[k].table && r[k].table != Some(name) ==> r[k].table == None
    ensures forall k :: 0 <= k < |gs| && ListedLoosely(ids, gs[k].id) && !FirstOfItsId(gs, k) ==> r[k] == gs[k]
  {
    UnassignedLoose(Stamped(gs, ids, name), ids, name)
  }

  /** A guest whose numeric id is listed as its decimal string (as POST
      /api/tables stores ids) is stamped and then immediately unassigned. */
  lemma ListedByStringLosesSeat()
    ensures var gs := [Guest(Num(7), "Ana", "", "", true, CONFIRMED, "", NoAge, None)];
      && ListedLoosely([Str("7")], gs[0].id)
      && FirstOfItsId(gs, 0)
      && Reassign(gs, [Str("7")], "VIP-1")[0].table == None
      && ReassignLoose(gs, [Str("7")], "VIP-1")[0].table == Some("VIP-1")
  {
    var gs := [Guest(Num(7), "Ana", "", "", true, CONFIRMED, "", NoAge, None)];
    assert IntToString(7) == "7";
    var ids := [Str("7")];
    assert LooseEq(ids[0], gs[0].id);
    assert ListedLoosely(ids, gs[0].id);
    assert Stamped(gs, [Str("7")], "VIP-1")[0].table == Some("VIP-1");
  }

  /** Stamping with the stringified ids POST /api/tables stores is stamping
      with the ids as sent. */
  lemma StampedStringIds(gs: seq<Guest>, ids: seq<Id>, name: string)
    ensures Stamped(gs, StringIds(ids), name) == Stamped(gs, ids, name)
  {
    var sids := StringIds(ids);
    forall x ensures ListedLoosely(sids, x) <==> ListedLoosely(ids, x) {
      if ListedLoosely(ids, x) {
        var j :| 0 <= j < |ids| && LooseEq(ids[j], x);
        assert LooseEq(sids[j], x);
      }
      if ListedLoosely(sids, x) {
        var j :| 0 <= j < |sids| && LooseEq(sids[j], x);
        assert LooseEq(ids[j], x);
      }
    }
  }

  /** `guests.map(id => String(id))`. */
  function StringIds(ids: seq<Id>): (r: seq<Id>)
    ensures |r| == |ids|
    ensures forall j :: 0 <= j < |ids| ==> r[j].Str? && LooseEq(r[j], ids[j])
  {
    seq(|ids|, j requires 0 <= j < |ids| => Str(ToStr(ids[j])))
  }

  // ---------------------------------------------------------------------------
  // The delete cascades.

  predicate KeepGuest(g: Guest, id: string) { ToStr(g.id) != id }
  predicate KeepTable(t: Table, id: string) { ToStr(t.id) != id }
  predicate KeepId(x: Id, id: string) { ToStr(x) != id }

  /** `guests.filter(g => String(g.id) !== String(id))`. */
  function GuestsWithout(gs: seq<Guest>, id: string): seq<Guest>
  {
    Filter(gs, g => KeepGuest(g, id))
  }

  /** `tables.filter(t => String(t.id) !== String(id))`. */
  function TablesWithout(ts: seq<Table>, id: string): seq<Table>
  {
    Filter(ts, t => KeepTable(t, id))
  }

  /** `table.guests.filter(gid => String(gid) !== String(id))`. */
  function IdsWithout(ids: seq<Id>, id: string): seq<Id>
  {
    Filter(ids, x => KeepId(x, id))
  }

  /** Every table after the guest-delete loop: only its `guests` list changes,
      and it loses exactly the entries that stringify to `id`. */
  function CascadeRemoval(ts: seq<Table>, id: string): (r: seq<Table>)
    ensures |r| == |ts|
    ensures forall i :: 0 <= i < |ts| ==> r[i] == ts[i].(guests := r[i].guests)
    ensures forall i, x :: 0 <= i < |ts| && x in r[i].guests ==> ToStr(x) != id
    ensures forall i, x :: 0 <= i < |ts| && x in ts[i].guests && ToStr(x) != id ==> x in r[i].guests
  {
    seq(|ts|, i requires 0 <= i < |ts| => ts[i].(guests := IdsWithout(ts[i].guests, id)))
  }

  /** After a guest delete no stored record, guest or table entry, carries the id. */
  lemma GuestDeleteLeavesNoTrace(gs: seq<Guest>, ts: seq<Table>, id: string)
    ensures forall g :: g in GuestsWithout(gs, id) ==> ToStr(g.id) != id
    ensures forall t, x :: t in CascadeRemoval(ts, id) && x in t.guests ==> ToStr(x) != id
    ensures |GuestsWithout(gs, id)| < |gs| <==> exists k :: 0 <= k < |gs| && ToStr(gs[k].id) == id
  {
    FilterKeepsLength(gs, g => KeepGuest(g, id));
    var r := GuestsWithout(gs, id);
    forall g | g in r ensures ToStr(g.id) != id {
      var i :| 0 <= i < |r| && r[i] == g;
    }
  }

  /** A table delete shrinks the table list exactly when some table has that id. */
  lemma TableDeleteShrinksIff(ts: seq<Table>, id: string)
    ensures |TablesWithout(ts, id)| < |ts| <==> exists i :: 0 <= i < |ts| && ToStr(ts[i].id) == id
    ensures forall t :: t in TablesWithout(ts, id) ==> ToStr(t.id) != id
  {
    FilterKeepsLength(ts, t => KeepTable(t, id));
    var r := TablesWithout(ts, id);
    forall t | t in r ensures ToStr(t.id) != id {
      var i :| 0 <= i < |r| && r[i] == t;
    }
  }
}
