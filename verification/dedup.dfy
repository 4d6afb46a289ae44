/**
 * The "keep one record per key, prefer one with a table" fold. The backend
 * runs it on `String(id)` when listing guests (my-backend/index.js, the
 * `reduce` of GET /api/guests); the attendees view runs it on the lower-cased
 * name and instagram pair (AttendeesSection.tsx). Both keep the first
 * record of a key and replace it only when the kept one has no table and the
 * new one has.
 */
module Dedup {
  import opened Values
  import opened Records

  /** Where a key already sits among the kept records. */
  function IndexOfKey<K(==)>(kept: seq<Guest>, key: Guest -> K, k: K): (r: Option<nat>)
    ensures r.Some? ==> r.value < |kept| && key(kept[r.value]) == k
    ensures r.None? ==> forall i :: 0 <= i < |kept| ==> key(kept[i]) != k
  {
    if kept == [] then None
    else if key(kept[|kept| - 1]) == k then Some(|kept| - 1)
    else IndexOfKey(kept[..|kept| - 1], key, k)
  }

  /** One iteration: a new key is added at the end; a known key's record is
      replaced only when it has no table and the incoming one has. */
  function Step<K(==)>(kept: seq<Guest>, key: Guest -> K, g: Guest): seq<Guest>
  {
    match IndexOfKey(kept, key, key(g))
    case None => kept + [g]
    case Some(i) => if !HasTable(kept[i]) && HasTable(g) then kept[i := g] else kept
  }

  /** The fold over the whole list, in list order. */
  function KeepAssigned<K(==)>(gs: seq<Guest>, key: Guest -> K): seq<Guest>
    decreases |gs|
  {
    if gs == [] then [] else Step(KeepAssigned(gs[..|gs| - 1], key), key, gs[|gs| - 1])
  }

  // ---------------------------------------------------------------------------
  // What the fold produces, stated without reference to the fold.

  ghost predicate DistinctKeys<K>(r: seq<Guest>, key: Guest -> K)
  {
    forall i, j :: 0 <= i < j < |r| ==> key(r[i]) != key(r[j])
  }

  /** Some output record has key `k`. */
  ghost predicate KeyKept<K>(r: seq<Guest>, key: Guest -> K, k: K)
  {
    exists i :: 0 <= i < |r| && key(r[i]) == k
  }

  /** Every key of the input has a record in the output. */
  ghost predicate CoversKeys<K>(gs: seq<Guest>, r: seq<Guest>, key: Guest -> K)
  {
    forall j :: 0 <= j < |gs| ==> KeyKept(r, key, key(gs[j]))
  }

  /** `gs[j]` is the record the fold should keep for its key: the first one
      of its key that has a table, or, when none of its key has a table, the
      first one of its key. */
  ghost predicate Preferred<K>(gs: seq<Guest>, key: Guest -> K, j: nat)
    requires j < |gs|
  {
    if HasTable(gs[j]) then
      forall j' :: 0 <= j' < j && key(gs[j']) == key(gs[j]) ==> !HasTable(gs[j'])
    else
      && (forall j' :: 0 <= j' < |gs| && key(gs[j']) == key(gs[j]) ==> !HasTable(gs[j']))
      && (forall j' :: 0 <= j' < j ==> key(gs[j']) != key(gs[j]))
  }

  /** `x` is the preferred input record of its key. */
  ghost predicate IsRepresentative<K>(gs: seq<Guest>, key: Guest -> K, x: Guest)
  {
    exists j :: 0 <= j < |gs| && x == gs[j] && Preferred(gs, key, j)
  }

  /** Every output record is the preferred input record of its key. */
  ghost predicate Representatives<K>(gs: seq<Guest>, r: seq<Guest>, key: Guest -> K)
  {
    forall i :: 0 <= i < |r| ==> IsRepresentative(gs, key, r[i])
  }

  /** Some occurrence of key `a` in `gs` comes before every occurrence of `b`. */
  ghost predicate OccursBefore<K>(gs: seq<Guest>, key: Guest -> K, a: K, b: K)
  {
    exists j :: 0 <= j < |gs| && key(gs[j]) == a && forall j' :: 0 <= j' <= j ==> key(gs[j']) != b
  }

  /** Output order is the order of first occurrence in the input. */
  ghost predicate FirstOccurrenceOrder<K>(gs: seq<Guest>, r: seq<Guest>, key: Guest -> K)
  {
    forall i, i' :: 0 <= i < i' < |r| ==> OccursBefore(gs, key, key(r[i]), key(r[i']))
  }

  ghost predicate DedupOf<K>(gs: seq<Guest>, r: seq<Guest>, key: Guest -> K)
  {
    && |r| <= |gs|
    && DistinctKeys(r, key)
    && CoversKeys(gs, r, key)
    && Representatives(gs, r, key)
    && FirstOccurrenceOrder(gs, r, key)
  }

  lemma PreferredAfterAppend<K>(gs: seq<Guest>, key: Guest -> K, g: Guest, j: nat)
    requires j < |gs| && Preferred(gs, key, j)
    requires key(g) == key(gs[j]) ==> HasTable(gs[j]) || !HasTable(g)
    ensures Preferred(gs + [g], key, j)
  {
  }

  lemma RepresentativeAfterAppend<K>(gs: seq<Guest>, key: Guest -> K, g: Guest, x: Guest)
    requires IsRepresentative(gs, key, x)
    requires key(g) == key(x) ==> HasTable(x) || !HasTable(g)
    ensures IsRepresentative(gs + [g], key, x)
  {
    var j :| 0 <= j < |gs| && x == gs[j] && Preferred(gs, key, j);
    PreferredAfterAppend(gs, key, g, j);
    assert (gs + [g])[j] == x;
  }

  lemma OccursBeforeAfterAppend<K>(gs: seq<Guest>, key: Guest -> K, g: Guest, a: K, b: K)
    requires OccursBefore(gs, key, a, b)
    ensures OccursBefore(gs + [g], key, a, b)
  {
    var j :| 0 <= j < |gs| && key(gs[j]) == a && forall j' :: 0 <= j' <= j ==> key(gs[j']) != b;
    assert (gs + [g])[j] == gs[j];
  }

  /** A key not yet kept does not occur in the input at all. */
  lemma NewKeyIsFresh<K>(gs: seq<Guest>, r: seq<Guest>, key: Guest -> K, g: Guest)
    requires CoversKeys(gs, r, key)
    requires IndexOfKey(r, key, key(g)).None?
    ensures forall j :: 0 <= j < |gs| ==> key(gs[j]) != key(g)
  {
    forall j | 0 <= j < |gs| ensures key(gs[j]) != key(g) {
      var i :| 0 <= i < |r| && key(r[i]) == key(gs[j]);
    }
  }

  lemma NewKeyRepresentatives<K>(gs: seq<Guest>, r: seq<Guest>, key: Guest -> K, g: Guest)
    requires Representatives(gs, r, key)
    requires forall j :: 0 <= j < |gs| ==> key(gs[j]) != key(g)
    requires forall i :: 0 <= i < |r| ==> key(r[i]) != key(g)
    ensures Representatives(gs + [g], r + [g], key)
  {
    var gs', r' := gs + [g], r + [g];
    forall i | 0 <= i < |r'| ensures IsRepresentative(gs', key, r'[i]) {
      if i < |r| {
        assert r'[i] == r[i];
        RepresentativeAfterAppend(gs, key, g, r[i]);
      } else {
        assert r'[i] == gs'[|gs|] && Preferred(gs', key, |gs|);
      }
    }
  }

  lemma NewKeyOrder<K>(gs: seq<Guest>, r: seq<Guest>, key: Guest -> K, g: Guest)
    requires FirstOccurrenceOrder(gs, r, key) && Representatives(gs, r, key)
    requires forall j :: 0 <= j < |gs| ==> key(gs[j]) != key(g)
    ensures FirstOccurrenceOrder(gs + [g], r + [g], key)
  {
    var gs', r' := gs + [g], r + [g];
    forall i, i' | 0 <= i < i' < |r'| ensures OccursBefore(gs', key, key(r'[i]), key(r'[i'])) {
      assert r'[i] == r[i];
      if i' < |r| {
        assert r'[i'] == r[i'];
        OccursBeforeAfterAppend(gs, key, g, key(r[i]), key(r[i']));
      } else {
        assert IsRepresentative(gs, key, r[i]);
        var j :| 0 <= j < |gs| && r[i] == gs[j] && Preferred(gs, key, j);
        assert gs'[j] == gs[j];
      }
    }
  }

  lemma NewKeyCovers<K>(gs: seq<Guest>, r: seq<Guest>, key: Guest -> K, g: Guest)
    requires CoversKeys(gs, r, key)
    ensures CoversKeys(gs + [g], r + [g], key)
  {
    forall j | 0 <= j < |gs + [g]| ensures KeyKept(r + [g], key, key((gs + [g])[j])) {
      if j < |gs| {
        var i :| 0 <= i < |r| && key(r[i]) == key(gs[j]);
        assert (r + [g])[i] == r[i] && (gs + [g])[j] == gs[j];
      } else {
        assert (r + [g])[|r|] == (gs + [g])[j];
      }
    }
  }

  lemma {:induction false} StepNewKey<K>(gs: seq<Guest>, r: seq<Guest>, key: Guest -> K, g: Guest)
    requires DedupOf(gs, r, key)
    requires IndexOfKey(r, key, key(g)).None?
    ensures DedupOf(gs + [g], r + [g], key)
  {
    NewKeyIsFresh(gs, r, key, g);
    NewKeyRepresentatives(gs, r, key, g);
    NewKeyOrder(gs, r, key, g);
    NewKeyCovers(gs, r, key, g);
  }

  lemma {:induction false} StepKnownKey<K>(gs: seq<Guest>, r: seq<Guest>, key: Guest -> K, g: Guest, k: nat)
    requires DedupOf(gs, r, key)
    requires IndexOfKey(r, key, key(g)) == Some(k)
    ensures DedupOf(gs + [g], Step(r, key, g), key)
  {
    var gs', r' := gs + [g], Step(r, key, g);
    var replace := !HasTable(r[k]) && HasTable(g);
    assert r' == if replace then r[k := g] else r;
    assert forall i :: 0 <= i < |r| ==> key(r'[i]) == key(r[i]);
    forall i | 0 <= i < |r'| ensures IsRepresentative(gs', key, r'[i]) {
      if i == k && replace {
        var jk :| 0 <= jk < |gs| && r[k] == gs[jk] && Preferred(gs, key, jk);
        assert r'[i] == gs'[|gs|] && Preferred(gs', key, |gs|);
      } else {
        RepresentativeAfterAppend(gs, key, g, r[i]);
      }
    }
    forall i, i' | 0 <= i < i' < |r'| ensures OccursBefore(gs', key, key(r'[i]), key(r'[i'])) {
      OccursBeforeAfterAppend(gs, key, g, key(r[i]), key(r[i']));
    }
    forall j | 0 <= j < |gs'| ensures KeyKept(r', key, key(gs'[j])) {
      if j < |gs| {
        var i :| 0 <= i < |r| && key(r[i]) == key(gs[j]);
        assert key(r'[i]) == key(gs'[j]);
      } else {
        assert key(r'[k]) == key(gs'[j]);
      }
    }
  }

  lemma StepKeepsDedup<K>(gs: seq<Guest>, r: seq<Guest>, key: Guest -> K, g: Guest)
    requires DedupOf(gs, r, key)
    ensures DedupOf(gs + [g], Step(r, key, g), key)
  {
    match IndexOfKey(r, key, key(g))
    case None => StepNewKey(gs, r, key, g);
    case Some(k) => StepKnownKey(gs, r, key, g, k);
  }

  /** The fold meets its description. */
  lemma {:induction false} KeepAssignedIsDedup<K>(gs: seq<Guest>, key: Guest -> K)
    ensures DedupOf(gs, KeepAssigned(gs, key), key)
    decreases |gs|
  {
    if gs != [] {
      var init := gs[..|gs| - 1];
      KeepAssignedIsDedup(init, key);
      assert gs == init + [gs[|gs| - 1]];
      StepKeepsDedup(init, KeepAssigned(init, key), key, gs[|gs| - 1]);
    }
  }

  /** A kept record has a table exactly when some record of its key has one. */
  lemma KeptHasTableIff<K>(gs: seq<Guest>, key: Guest -> K, i: nat)
    requires i < |KeepAssigned(gs, key)|
    ensures HasTable(KeepAssigned(gs, key)[i]) <==>
      exists j :: 0 <= j < |gs| && key(gs[j]) == key(KeepAssigned(gs, key)[i]) && HasTable(gs[j])
  {
    KeepAssignedIsDedup(gs, key);
    var r := KeepAssigned(gs, key);
    assert IsRepresentative(gs, key, r[i]);
    var j :| 0 <= j < |gs| && r[i] == gs[j] && Preferred(gs, key, j);
  }
}
