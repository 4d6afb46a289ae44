/**
 * The attendee list of AttendeesSection.tsx: the `Map` loop that keeps one
 * attendee per lower-cased name and instagram pair, the search and status
 * filter, the set of guests one delete click removes, and the CSV export.
 * Attendees are the guests GET /api/guests returns; their `name` and
 * `instagram` are always strings there.
 */
module Attendees {
  import opened Values
  import opened Records
  import opened Seqs
  import opened Dedup

  // ---------------------------------------------------------------------------
  // One attendee per key

  /** `(name?.toLowerCase() || '') + '|' + (instagram?.toLowerCase() || '')`. */
  function AttendeeKey(a: Guest): (r: string)
    ensures |r| == |a.name| + 1 + |a.instagram| && r[|a.name|] == '|'
  {
    Lower(a.name) + "|" + Lower(a.instagram)
  }

  /** The key splits at the name's length into the lower-cased name and the
      lower-cased instagram, so it ignores letter case in both. */
  lemma AttendeeKeyParts(a: Guest)
    ensures AttendeeKey(a)[..|a.name|] == Lower(a.name)
    ensures AttendeeKey(a)[|a.name| + 1..] == Lower(a.instagram)
  {
  }

  /** The `Map` and its insertion order hold exactly the records `kept`, in order. */
  ghost predicate Agrees(byKey: map<string, Guest>, order: seq<string>, kept: seq<Guest>)
  {
    && |order| == |kept|
    && (forall i :: 0 <= i < |order| ==> order[i] == AttendeeKey(kept[i]))
    && (forall i :: 0 <= i < |order| ==> order[i] in byKey && byKey[order[i]] == kept[i])
    && (forall k :: k in byKey ==> k in order)
    && (forall i, j :: 0 <= i < j < |order| ==> order[i] != order[j])
  }

  /** The `for` loop over the attendees and `Array.from(map.values())`. */
  method UniqueAttendees(attendees: seq<Guest>) returns (unique: seq<Guest>)
    ensures unique == KeepAssigned(attendees, AttendeeKey)
    ensures DedupOf(attendees, unique, AttendeeKey)
  {
    var byKey: map<string, Guest> := map[];
    var order: seq<string> := [];
    for n := 0 to |attendees|
      invariant Agrees(byKey, order, KeepAssigned(attendees[..n], AttendeeKey))
    {
      var a := attendees[n];
      var key := AttendeeKey(a);
      PrefixStep(attendees, n);
      if key !in byKey {
        AgreesNewKey(byKey, order, KeepAssigned(attendees[..n], AttendeeKey), a);
        byKey := byKey[key := a];
        order := order + [key];
      } else {
        var existing := byKey[key];
        AgreesKnownKey(byKey, order, KeepAssigned(attendees[..n], AttendeeKey), a);
        if !HasTable(existing) && HasTable(a) {
          byKey := byKey[key := a];
        }
      }
    }
    assert attendees[..|attendees|] == attendees;
    AgreesValues(byKey, order, KeepAssigned(attendees, AttendeeKey));
    unique := ValuesInOrder(byKey, order);
    KeepAssignedIsDedup(attendees, AttendeeKey);
  }

  /** Reading the map in insertion order gives back the records it agrees with. */
  lemma AgreesValues(byKey: map<string, Guest>, order: seq<string>, kept: seq<Guest>)
    requires Agrees(byKey, order, kept)
    ensures ValuesInOrder(byKey, order) == kept
  {
  }

  /** `Array.from(map.values())`: the values in key insertion order. */
  function ValuesInOrder(byKey: map<string, Guest>, order: seq<string>): (r: seq<Guest>)
    requires forall i :: 0 <= i < |order| ==> order[i] in byKey
    ensures |r| == |order| && forall i :: 0 <= i < |order| ==> r[i] == byKey[order[i]]
  {
    seq(|order|, i requires 0 <= i < |order| => byKey[order[i]])
  }

  lemma PrefixStep(attendees: seq<Guest>, n: nat)
    requires n < |attendees|
    ensures KeepAssigned(attendees[..n + 1], AttendeeKey) ==
      Step(KeepAssigned(attendees[..n], AttendeeKey), AttendeeKey, attendees[n])
  {
    assert attendees[..n + 1][..n] == attendees[..n];
  }

  lemma AgreesNewKey(byKey: map<string, Guest>, order: seq<string>, kept: seq<Guest>, a: Guest)
    requires Agrees(byKey, order, kept) && AttendeeKey(a) !in byKey
    ensures Agrees(byKey[AttendeeKey(a) := a], order + [AttendeeKey(a)], Step(kept, AttendeeKey, a))
  {
    var key := AttendeeKey(a);
    assert forall i :: 0 <= i < |kept| ==> AttendeeKey(kept[i]) != key by {
      forall i | 0 <= i < |kept| ensures AttendeeKey(kept[i]) != key {
        assert order[i] in byKey;
      }
    }
    assert IndexOfKey(kept, AttendeeKey, key).None?;
    assert Step(kept, AttendeeKey, a) == kept + [a];
  }

  lemma AgreesKnownKey(byKey: map<string, Guest>, order: seq<string>, kept: seq<Guest>, a: Guest)
    requires Agrees(byKey, order, kept) && AttendeeKey(a) in byKey
    ensures var key := AttendeeKey(a);
      Agrees(if !HasTable(byKey[key]) && HasTable(a) then byKey[key := a] else byKey,
             order, Step(kept, AttendeeKey, a))
  {
    var key := AttendeeKey(a);
    var r := IndexOfKey(kept, AttendeeKey, key);
    assert r.Some? by {
      var i :| 0 <= i < |order| && order[i] == key;
      assert AttendeeKey(kept[i]) == key;
    }
    var i := r.value;
    assert order[i] == key && byKey[key] == kept[i];
    if !HasTable(kept[i]) && HasTable(a) {
      assert Step(kept, AttendeeKey, a) == kept[i := a];
    } else {
      assert Step(kept, AttendeeKey, a) == kept;
    }
  }

  /** A pipe inside a name can make two different name and instagram pairs
      share a key, so the loop keeps only one of them. */
  lemma PipeInNameSharesKey()
    ensures AttendeeKey(Guest(Num(1), "a|b", "", "", false, TENTATIVE, "", NoAge, None)) ==
            AttendeeKey(Guest(Num(2), "a", "", "b|", false, TENTATIVE, "", NoAge, None))
  {
    assert Lower("a|b") == "a|b";
    assert Lower("b|") == "b|";
    assert Lower("a") == "a";
  }

  // ---------------------------------------------------------------------------
  // Search and status filter

  predicate MatchesSearch(a: Guest, term: string)
  {
    var t := Lower(term);
    Contains(Lower(a.name), t) || Contains(Lower(a.instagram), t)
      || (HasTable(a) && Contains(Lower(a.table.value), t))
  }

  predicate MatchesStatus(a: Guest, statusFilter: string)
  {
    statusFilter == "All" || a.status == statusFilter
  }

  /** `!searchTerm || !attendee.table || attendee.table.toLowerCase().includes(...)`. */
  predicate ShownForTableSearch(a: Guest, term: string)
  {
    term == "" || !HasTable(a) || Contains(Lower(a.table.value), Lower(term))
  }

  predicate Visible(a: Guest, term: string, statusFilter: string)
  {
    MatchesSearch(a, term) && MatchesStatus(a, statusFilter) && ShownForTableSearch(a, term)
  }

  /** `uniqueAttendees.filter(...)`. */
  function FilterAttendees(unique: seq<Guest>, term: string, statusFilter: string): (r: seq<Guest>)
    ensures |r| <= |unique|
    ensures forall i :: 0 <= i < |r| ==> r[i] in unique && Visible(r[i], term, statusFilter)
  {
    Filter(unique, a => Visible(a, term, statusFilter))
  }

  /** The filtered list keeps the order of the deduplicated one, keeps every
      visible attendee, and honours the status filter unless it is 'All'. */
  lemma FilterAttendeesSpec(unique: seq<Guest>, term: string, statusFilter: string)
    ensures Subseq(FilterAttendees(unique, term, statusFilter), unique)
    ensures forall a :: a in FilterAttendees(unique, term, statusFilter) <==>
      a in unique && Visible(a, term, statusFilter)
    ensures statusFilter != "All" ==>
      forall a :: a in FilterAttendees(unique, term, statusFilter) ==> a.status == statusFilter
    ensures forall a ::
      multiset(FilterAttendees(unique, term, statusFilter))[a] == if Visible(a, term, statusFilter) then multiset(unique)[a] else 0
  {
    var visible := a => Visible(a, term, statusFilter);
    FilterIsSubseq(unique, visible);
    FilterCounts(unique, visible);
    forall a ensures a in FilterAttendees(unique, term, statusFilter) <==> a in unique && Visible(a, term, statusFilter) {
      FilterMembership(unique, visible, a);
    }
  }

  /** A seated attendee is visible exactly when the search term occurs in its
      table name (case-insensitively) and the status matches: a name or
      instagram match does not help when the table does not match. */
  lemma SeatedVisibleIff(a: Guest, term: string, statusFilter: string)
    requires HasTable(a)
    ensures Visible(a, term, statusFilter) <==>
      Contains(Lower(a.table.value), Lower(term)) && MatchesStatus(a, statusFilter)
  {
    if term == "" {
      assert Lower(term) == "";
      EmptyContained(Lower(a.table.value));
    }
  }

  /** An unseated attendee is visible exactly when the term occurs in its name
      or instagram and the status matches. */
  lemma UnseatedVisibleIff(a: Guest, term: string, statusFilter: string)
    requires !HasTable(a)
    ensures Visible(a, term, statusFilter) <==>
      (Contains(Lower(a.name), Lower(term)) || Contains(Lower(a.instagram), Lower(term)))
      && MatchesStatus(a, statusFilter)
  {
  }

  /** With an empty search box only the status filter applies. */
  lemma EmptySearchFiltersByStatus(a: Guest, statusFilter: string)
    ensures Visible(a, "", statusFilter) <==> MatchesStatus(a, statusFilter)
  {
    assert Lower("") == "";
    EmptyContained(Lower(a.name));
  }

  // ---------------------------------------------------------------------------
  // What one delete click removes

  /** Same lower-cased name, or same lower-cased instagram when both are non-empty. */
  predicate SameAttendee(g: Guest, clicked: Guest)
  {
    Lower(g.name) == Lower(clicked.name)
      || (g.instagram != "" && clicked.instagram != "" && Lower(g.instagram) == Lower(clicked.instagram))
  }

  /** `attendees.filter(...)` of the delete button: the raw guests to delete. */
  function DeleteSelection(attendees: seq<Guest>, clicked: Guest): (r: seq<Guest>)
    ensures |r| <= |attendees|
    ensures forall i :: 0 <= i < |r| ==> r[i] in attendees && SameAttendee(r[i], clicked)
    ensures clicked in attendees ==> clicked in r
  {
    Filter(attendees, g => SameAttendee(g, clicked))
  }

  /** The selection is exactly the raw guests that match the clicked one. */
  lemma DeleteSelectionSpec(attendees: seq<Guest>, clicked: Guest)
    ensures forall g :: g in DeleteSelection(attendees, clicked) <==> g in attendees && SameAttendee(g, clicked)
    ensures forall g :: g in attendees && Lower(g.name) == Lower(clicked.name) ==> g in DeleteSelection(attendees, clicked)
    // so the whole deduplication group of the clicked row, when names hold no pipe
    ensures forall g :: (g in attendees && AttendeeKey(g) == AttendeeKey(clicked)
      && '|' !in Lower(g.name) && '|' !in Lower(clicked.name)) ==> g in DeleteSelection(attendees, clicked)
  {
    forall g ensures g in DeleteSelection(attendees, clicked) <==> g in attendees && SameAttendee(g, clicked) {
      FilterMembership(attendees, g => SameAttendee(g, clicked), g);
    }
    forall g | g in attendees && AttendeeKey(g) == AttendeeKey(clicked)
      ensures Lower(g.name) == Lower(clicked.name) || '|' in Lower(g.name) || '|' in Lower(clicked.name)
    {
      SameKeySameName(g, clicked);
    }
  }

  /** Two attendees with the same key have the same lower-cased name when
      neither lower-cased name contains a pipe. */
  lemma SameKeySameName(g: Guest, h: Guest)
    requires AttendeeKey(g) == AttendeeKey(h)
    ensures Lower(g.name) == Lower(h.name) || '|' in Lower(g.name) || '|' in Lower(h.name)
  {
    var x, y := Lower(g.name), Lower(h.name);
    var kg, kh := x + "|" + Lower(g.instagram), y + "|" + Lower(h.instagram);
    assert kg == kh;
    if '|' !in x && '|' !in y {
      PipeAfterPrefix(x, Lower(g.instagram));
      PipeAfterPrefix(y, Lower(h.instagram));
      assert x == kg[..|x|];
      assert y == kh[..|y|];
    }
  }

  /** Position of the first pipe in `s`, or `|s|` when there is none. */
  function FirstPipe(s: string): (r: nat)
    ensures r <= |s|
  {
    if s == [] || s[0] == '|' then 0 else 1 + FirstPipe(s[1..])
  }

  lemma {:induction false} PipeAfterPrefix(x: string, rest: string)
    requires '|' !in x
    ensures FirstPipe(x + "|" + rest) == |x|
  {
    if x != [] {
      assert (x + "|" + rest)[1..] == x[1..] + "|" + rest;
      PipeAfterPrefix(x[1..], rest);
    }
  }

  /** Clicking delete on a row of the deduplicated list selects that row's own record. */
  lemma ClickedRowIsSelected(attendees: seq<Guest>, i: nat)
    requires i < |KeepAssigned(attendees, AttendeeKey)|
    ensures KeepAssigned(attendees, AttendeeKey)[i] in
      DeleteSelection(attendees, KeepAssigned(attendees, AttendeeKey)[i])
  {
    var clicked := KeepAssigned(attendees, AttendeeKey)[i];
    KeepAssignedIsDedup(attendees, AttendeeKey);
    assert IsRepresentative(attendees, AttendeeKey, clicked);
    FilterMembership(attendees, g => SameAttendee(g, clicked), clicked);
  }

  // ---------------------------------------------------------------------------
  // CSV export

  datatype Export = NoExport | Failed | Csv(text: string)

  const HEADER: seq<string> := ["Name", "Instagram", "Table", "Status", "Gender", "Age"]

  /** `parts.join(sep)`. */
  function Join(parts: seq<string>, sep: string): (r: string)
    ensures |parts| >= 1 ==> parts[0] <= r
  {
    if |parts| == 0 then ""
    else if |parts| == 1 then parts[0]
    else parts[0] + sep + Join(parts[1..], sep)
  }

  /** `a.table || 'Unassigned'`. */
  function TableCell(a: Guest): string
  {
    if HasTable(a) then a.table.value else "Unassigned"
  }

  /** The cells of one row, given the text of the age cell. */
  function Cells(a: Guest, age: string): (r: seq<string>)
    ensures |r| == |HEADER|
  {
    [a.name, a.instagram, TableCell(a), a.status, a.gender, age]
  }

  /** The rows as written: `a.age.toString()` throws on a null age, which
      ends the whole export. */
  function RowsAsWritten(attendees: seq<Guest>): (r: Option<seq<string>>)
    ensures r.None? <==> exists i :: 0 <= i < |attendees| && attendees[i].age.NoAge?
    ensures r.Some? ==> (|r.value| == |attendees| &&
      forall i :: 0 <= i < |attendees| ==> r.value[i] == Join(Cells(attendees[i], IntToString(attendees[i].age.n)), ","))
  {
    if attendees == [] then Some([])
    else if attendees[0].age.NoAge? then None
    else match RowsAsWritten(attendees[1..])
      case None => assert attendees[1..][0] in attendees; None
      case Some(rest) =>
        assert forall i :: 1 <= i < |attendees| ==> attendees[i] == attendees[1..][i - 1];
        Some([Join(Cells(attendees[0], IntToString(attendees[0].age.n)), ",")] + rest)
  }

  /** `handleExport` as written: nothing for an empty list, a failure when
      some attendee has no age, otherwise the header and one row per raw
      (not deduplicated) attendee, joined without quoting. */
  function ExportAsWritten(attendees: seq<Guest>): (r: Export)
    ensures r == NoExport <==> attendees == []
    ensures r == Failed <==> attendees != [] && exists i :: 0 <= i < |attendees| && attendees[i].age.NoAge?
  {
    if attendees == [] then NoExport
    else match RowsAsWritten(attendees)
      case None => Failed
      case Some(rows) => Csv(Join([Join(HEADER, ",")] + rows, "\n"))
  }

  /** The age cell as evidently intended: a null age renders empty. */
  function AgeCell(a: Age): (r: string)
    ensures '\n' !in r && ',' !in r
  {
    match a
    case NoAge => ""
    case Years(n) => IntToStringAvoids(n); IntToString(n)
  }

  function Row(a: Guest): string
  {
    Join(Cells(a, AgeCell(a.age)), ",")
  }

  /** `attendees.map(...).map(row => row.join(','))` with the intended age cell. */
  function ExportRows(attendees: seq<Guest>): (r: seq<string>)
    ensures |r| == |attendees|
    ensures forall i :: 0 <= i < |attendees| ==> r[i] == Row(attendees[i])
  {
    seq(|attendees|, i requires 0 <= i < |attendees| => Row(attendees[i]))
  }

  /** The header line followed by the rows. */
  function CsvLines(attendees: seq<Guest>): (r: seq<string>)
    ensures |r| == |attendees| + 1
    ensures r[0] == Join(HEADER, ",") && r[1..] == ExportRows(attendees)
  {
    [Join(HEADER, ",")] + ExportRows(attendees)
  }

  /** The export as evidently intended: every non-empty list exports. */
  function ExportCsv(attendees: seq<Guest>): (r: Export)
    ensures r == NoExport <==> attendees == []
    ensures r.Csv? ==> Join(HEADER, ",") <= r.text
  {
    if attendees == [] then NoExport
    else Csv(Join(CsvLines(attendees), "\n"))
  }

  /** Where every attendee has an age the two exports agree. */
  lemma ExportAgreesWithAges(attendees: seq<Guest>)
    requires forall i :: 0 <= i < |attendees| ==> attendees[i].age.Years?
    ensures ExportAsWritten(attendees) == ExportCsv(attendees)
  {
    if attendees != [] {
      var rows := RowsAsWritten(attendees).value;
      assert rows == ExportRows(attendees);
    }
  }

  /** A guest added without an age (POST /api/guests stores `null`) makes the
      export fail as written; the intended export renders an empty cell. */
  lemma NullAgeBreaksExport()
    ensures var g := Guest(Num(1), "Bo", "", "", false, TENTATIVE, "", NoAge, None);
      && ExportAsWritten([g]) == Failed
      && ExportCsv([g]) == Csv(Join([Join(HEADER, ","), Row(g)], "\n"))
      && Row(g) == Join(["Bo", "", "Unassigned", "Tentative", "", ""], ",")
  {
    var g := Guest(Num(1), "Bo", "", "", false, TENTATIVE, "", NoAge, None);
    assert [g][0].age.NoAge?;
    assert ExportRows([g]) == [Row(g)];
  }

  // ---------------------------------------------------------------------------
  // Line count of the export

  function CountChar(s: string, c: char): nat
  {
    if s == [] then 0 else (if s[0] == c then 1 else 0) + CountChar(s[1..], c)
  }

  lemma {:induction false} CountAppend(a: string, b: string, c: char)
    ensures CountChar(a + b, c) == CountChar(a, c) + CountChar(b, c)
  {
    if a != [] {
      assert (a + b)[0] == a[0];
      assert (a + b)[1..] == a[1..] + b;
      CountAppend(a[1..], b, c);
      assert CountChar(a + b, c) == (if a[0] == c then 1 else 0) + CountChar(a[1..] + b, c);
    } else {
      assert a + b == b;
    }
  }

  lemma {:induction false} CountAbsent(s: string, c: char)
    requires c !in s
    ensures CountChar(s, c) == 0
  {
    if s != [] {
      CountAbsent(s[1..], c);
    }
  }

  /** Joining parts free of a character, with that character, produces one
      occurrence per gap. */
  lemma {:induction false} JoinCountsSeparators(parts: seq<string>, c: char)
    requires |parts| >= 1
    requires forall i :: 0 <= i < |parts| ==> c !in parts[i]
    ensures CountChar(Join(parts, [c]), c) == |parts| - 1
  {
    CountAbsent(parts[0], c);
    if |parts| > 1 {
      JoinCountsSeparators(parts[1..], c);
      CountAppend(parts[0] + [c], Join(parts[1..], [c]), c);
      CountAppend(parts[0], [c], c);
    }
  }

  /** Joining parts free of a character with a separator free of it gives a text free of it. */
  lemma {:induction false} JoinAvoids(parts: seq<string>, sep: string, c: char)
    requires c !in sep
    requires forall i :: 0 <= i < |parts| ==> c !in parts[i]
    ensures c !in Join(parts, sep)
  {
    if |parts| > 1 {
      JoinAvoids(parts[1..], sep, c);
    }
  }

  lemma IntToStringAvoids(n: int)
    ensures '\n' !in IntToString(n) && ',' !in IntToString(n)
  {
    var d := NatToString(if n < 0 then -n else n);
    assert forall i :: 0 <= i < |d| ==> '0' <= d[i] <= '9';
  }

  /** No cell of the attendee holds a line break. */
  predicate NoLineBreaks(a: Guest)
  {
    '\n' !in a.name && '\n' !in a.instagram && '\n' !in a.status && '\n' !in a.gender
      && (a.table.Some? ==> '\n' !in a.table.value)
  }

  /** A row of an attendee whose cells hold no line break holds none either. */
  lemma RowAvoidsLineBreak(a: Guest)
    requires NoLineBreaks(a)
    ensures '\n' !in Row(a)
  {
    var cells := Cells(a, AgeCell(a.age));
    assert '\n' !in TableCell(a);
    assert forall k :: 0 <= k < |cells| ==> '\n' !in cells[k];
    JoinAvoids(cells, ",", '\n');
  }

  /** When no cell holds a line break, neither does any line of the export. */
  lemma LinesAvoidLineBreak(attendees: seq<Guest>)
    requires forall i :: 0 <= i < |attendees| ==> NoLineBreaks(attendees[i])
    ensures forall i :: 0 <= i < |CsvLines(attendees)| ==> '\n' !in CsvLines(attendees)[i]
  {
    var rows := ExportRows(attendees);
    var lines := CsvLines(attendees);
    JoinAvoids(HEADER, ",", '\n');
    forall i | 0 <= i < |lines| ensures '\n' !in lines[i] {
      if i > 0 {
        assert lines[i] == rows[i - 1];
        RowAvoidsLineBreak(attendees[i - 1]);
      }
    }
  }

  /** When no cell holds a line break, the export has one line per attendee
      after the header: as many line breaks as attendees. */
  lemma ExportLineCount(attendees: seq<Guest>)
    requires attendees != []
    requires forall i :: 0 <= i < |attendees| ==> NoLineBreaks(attendees[i])
    ensures ExportCsv(attendees).Csv?
    ensures CountChar(ExportCsv(attendees).text, '\n') == |attendees|
  {
    var lines := CsvLines(attendees);
    LinesAvoidLineBreak(attendees);
    JoinCountsSeparators(lines, '\n');
  }

  // ---------------------------------------------------------------------------
  // Lines of the export

  /** `s.split(c)` for a one-character separator: the pieces between the
      occurrences of `c`, always at least one. */
  function Split(s: string, c: char): (r: seq<string>)
    ensures |r| >= 1
  {
    if s == [] then [""]
    else if s[0] == c then [""] + Split(s[1..], c)
    else
      var rest := Split(s[1..], c);
      [[s[0]] + rest[0]] + rest[1..]
  }

  /** Text free of the separator only extends the first piece. */
  lemma {:induction false} SplitAfterFree(p: string, t: string, c: char)
    requires c !in p
    ensures Split(p + t, c) == [p + Split(t, c)[0]] + Split(t, c)[1..]
  {
    if p != [] {
      SplitAfterFree(p[1..], t, c);
      assert (p + t)[0] == p[0];
      assert (p + t)[1..] == p[1..] + t;
      assert [p[0]] + (p[1..] + Split(t, c)[0]) == p + Split(t, c)[0];
    } else {
      var r := Split(t, c);
      assert p + t == t && p + r[0] == r[0];
      assert r == [r[0]] + r[1..];
    }
  }

  /** Splitting a join at its separator gives back the parts, when no part
      holds the separator. */
  lemma {:induction false} SplitJoin(parts: seq<string>, c: char)
    requires |parts| >= 1
    requires forall i :: 0 <= i < |parts| ==> c !in parts[i]
    ensures Split(Join(parts, [c]), c) == parts
  {
    if |parts| == 1 {
      SplitAfterFree(parts[0], "", c);
      assert parts[0] + "" == parts[0];
    } else {
      var tail := Join(parts[1..], [c]);
      SplitJoin(parts[1..], c);
      assert Join(parts, [c]) == parts[0] + ([c] + tail);
      SplitAfterFree(parts[0], [c] + tail, c);
      assert ([c] + tail)[1..] == tail;
      assert Split([c] + tail, c) == [""] + parts[1..];
      assert parts[0] + "" == parts[0];
      assert parts == [parts[0]] + parts[1..];
    }
  }

  /** When no cell holds a line break, `text.split('\n')` of the export is
      the header line followed by one row per attendee, in order. */
  lemma ExportLines(attendees: seq<Guest>)
    requires attendees != []
    requires forall i :: 0 <= i < |attendees| ==> NoLineBreaks(attendees[i])
    ensures ExportCsv(attendees).Csv?
    ensures var lines := Split(ExportCsv(attendees).text, '\n');
      && |lines| == |attendees| + 1
      && lines[0] == Join(HEADER, ",")
      && forall i :: 0 <= i < |attendees| ==> lines[i + 1] == Row(attendees[i])
  {
    var lines := CsvLines(attendees);
    LinesAvoidLineBreak(attendees);
    SplitJoin(lines, '\n');
    assert "\n" == ['\n'];
  }
}
