/**
 * The overview of OverviewPanel.tsx: the three stat cards (counts and their
 * captions) and the notification feed that creating a table or setting a
 * reminder extends. The feed's localStorage copy and the rendered markup are
 * not modelled; a message is its text.
 */
module Overview {
  import opened Values
  import opened Records
  import opened Seqs

  predicate IsConfirmed(a: Guest) { a.status == CONFIRMED }
  predicate IsTentative(a: Guest) { a.status == TENTATIVE }
  predicate IsReserved(t: Table) { t.confirmed }

  /** The three counts of the stat cards. */
  datatype Counts = Counts(confirmed: nat, tentative: nat, reservedTables: nat)

  function CountsOf(attendees: seq<Guest>, tables: seq<Table>): (r: Counts)
    ensures r.confirmed <= |attendees| && r.tentative <= |attendees| && r.reservedTables <= |tables|
    ensures r.confirmed == |attendees| ==> forall i :: 0 <= i < |attendees| ==> attendees[i].status == CONFIRMED
  {
    FilterKeepsLength(attendees, IsConfirmed);
    Counts(|Filter(attendees, IsConfirmed)|, |Filter(attendees, IsTentative)|, |Filter(tables, IsReserved)|)
  }

  /** The guest counts never exceed the guests, the reserved count never
      exceeds the tables, and each count is zero exactly when nothing matches. */
  lemma CountsBounded(attendees: seq<Guest>, tables: seq<Table>)
    ensures var c := CountsOf(attendees, tables);
      && c.confirmed + c.tentative <= |attendees|
      && c.reservedTables <= |tables|
      && (c.confirmed == 0 <==> forall a :: a in attendees ==> a.status != CONFIRMED)
      && (c.reservedTables == |tables| <==> forall i :: 0 <= i < |tables| ==> tables[i].confirmed)
  {
    DisjointCounts(attendees, IsConfirmed, IsTentative);
    FilterKeepsLength(tables, IsReserved);
    var f := Filter(attendees, IsConfirmed);
    forall a ensures a in f <==> a in attendees && IsConfirmed(a) {
      FilterMembership(attendees, IsConfirmed, a);
    }
    if |f| > 0 {
      assert f[0] in f;
    }
  }

  /** The caption under a count: a fixed phrase for zero, otherwise the count
      followed by `suffix`. */
  function Caption(count: nat, none: string, suffix: string): (r: string)
    ensures count == 0 ==> r == none
    ensures count != 0 ==> NatToString(count) <= r && r[|NatToString(count)|..] == suffix
  {
    if count == 0 then none else NatToString(count) + suffix
  }

  function ConfirmedCaption(c: Counts): string { Caption(c.confirmed, "No guests yet", " confirmed") }
  function TentativeCaption(c: Counts): string { Caption(c.tentative, "No pending", " pending response") }
  function ReservedCaption(c: Counts): string { Caption(c.reservedTables, "No tables yet", " confirmed") }

  /** Different non-zero counts give different captions: the caption shows the count. */
  lemma CaptionShowsCount(m: nat, n: nat, suffix: string)
    requires m != 0 && n != 0 && m != n
    ensures Caption(m, "", suffix) != Caption(n, "", suffix)
  {
    if Caption(m, "", suffix) == Caption(n, "", suffix) {
      var x, y := NatToString(m), NatToString(n);
      assert x + suffix == y + suffix;
      assert |x| == |y|;
      assert x == (x + suffix)[..|x|];
      assert y == (y + suffix)[..|y|];
      NatToStringInjective(m, n);
    }
  }

  /** One entry of the feed; `time` is the formatted local time, given. */
  datatype Notification = Notification(id: int, message: string, time: string)

  /** The text of the create-table notification. */
  function TableCreatedMessage(tableName: string): (r: string)
    ensures tableName == "" ==> r == "Table created successfully."
    ensures tableName != "" ==> Contains(r, tableName)
  {
    if tableName == "" then "Table created successfully."
    else
      var r := "Table " + tableName + " created successfully.";
      assert OccursAt(r, tableName, 6) by {
        assert r[6..6 + |tableName|] == tableName;
      }
      ContainsAt(r, tableName, 6);
      r
  }

  /** The text of the reminder notification. */
  function ReminderSetMessage(reminder: string): (r: string)
    ensures reminder == "" ==> r == "Reminder set successfully."
    ensures reminder != "" ==> Contains(r, reminder)
  {
    if reminder == "" then "Reminder set successfully."
    else
      var r := "Reminder set: " + reminder;
      assert OccursAt(r, reminder, 14) by {
        assert r[14..14 + |reminder|] == reminder;
      }
      ContainsAt(r, reminder, 14);
      r
  }

  class NotificationFeed {
    var notifications: seq<Notification>

    constructor ()
      ensures notifications == []
    {
      notifications := [];
    }

    /** `handleCreateTable`: the new notification goes first. */
    method CreateTable(tableName: string, now: int, time: string)
      modifies this
      ensures notifications == [Notification(now, TableCreatedMessage(tableName), time)] + old(notifications)
    {
      notifications := [Notification(now, TableCreatedMessage(tableName), time)] + notifications;
    }

    /** `handleSendReminder`: the new notification goes first. */
    method SendReminder(reminder: string, now: int, time: string)
      modifies this
      ensures notifications == [Notification(now, ReminderSetMessage(reminder), time)] + old(notifications)
    {
      notifications := [Notification(now, ReminderSetMessage(reminder), time)] + notifications;
    }
  }
}
