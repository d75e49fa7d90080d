/** The session's list of workouts and the queries the calendar page runs over it:
    lookup by day, the latest workout before a day, save by identifier, and the
    "recent" list ordered by day. */
module WorkoutStore {
  import opened Workouts

  /** `workouts.find(w => w.date === key)`: the first entry dated `d`, if any. */
  function FindByDate(ws: seq<Workout>, d: Day): (r: Option<Workout>)
    ensures r.None? <==> forall i :: 0 <= i < |ws| ==> ws[i].date != d
    ensures r.Some? ==> r.value in ws && r.value.date == d
  {
    if ws == [] then None
    else if ws[0].date == d then Some(ws[0])
    else
      var r := FindByDate(ws[1..], d);
      assert forall i :: 1 <= i < |ws| ==> ws[i] == ws[1..][i - 1];
      r
  }

  /** Of several entries dated `d`, the lookup returns the earliest stored one. */
  lemma {:induction false} FindByDateIsFirst(ws: seq<Workout>, d: Day, i: nat)
    requires i < |ws| && ws[i].date == d
    requires forall j :: 0 <= j < i ==> ws[j].date != d
    ensures FindByDate(ws, d) == Some(ws[i])
  {
    if i > 0 {
      assert forall j :: 0 <= j < i - 1 ==> ws[1..][j] == ws[j + 1];
      FindByDateIsFirst(ws[1..], d, i - 1);
    }
  }

  /** In a store with one workout per day, looking up a stored workout's day finds it. */
  lemma FindByDateInUniqueStore(ws: seq<Workout>, w: Workout)
    requires KeysUnique(ws, DateOf)
    requires w in ws
    ensures FindByDate(ws, w.date) == Some(w)
  {
    var r := FindByDate(ws, w.date);
    UniqueKeyIdentifies(ws, DateOf, r.value, w);
  }

  /** The entries dated `e`, in store order. */
  function OnDay(ws: seq<Workout>, e: Day): (r: seq<Workout>)
    ensures forall w :: w in r <==> w in ws && w.date == e
  {
    if ws == [] then []
    else if ws[0].date == e then [ws[0]] + OnDay(ws[1..], e)
    else OnDay(ws[1..], e)
  }

  lemma {:induction false} OnDayAppend(a: seq<Workout>, b: seq<Workout>, e: Day)
    ensures OnDay(a + b, e) == OnDay(a, e) + OnDay(b, e)
  {
    if a == [] {
      assert a + b == b;
    } else {
      assert (a + b)[0] == a[0] && (a + b)[1..] == a[1..] + b;
      OnDayAppend(a[1..], b, e);
    }
  }

  /** The lookup by day returns the first of the entries on that day. */
  lemma {:induction false} FindByDateHeadsDay(ws: seq<Workout>, e: Day)
    ensures FindByDate(ws, e) == if OnDay(ws, e) == [] then None else Some(OnDay(ws, e)[0])
  {
    if ws != [] && ws[0].date != e {
      FindByDateHeadsDay(ws[1..], e);
    }
  }

  /** No stored workout other than one with `w`'s identifier is on `w`'s day. */
  ghost predicate NoOtherOnDay(ws: seq<Workout>, w: Workout) {
    forall v :: v in ws && v.date == w.date ==> v.id == w.id
  }


  /** `workouts.filter(w => new Date(w.date) < currentDate)`, in store order. */
  function DatedBefore(ws: seq<Workout>, d: Day): (r: seq<Workout>)
    ensures forall w :: w in r <==> w in ws && w.date < d
  {
    if ws == [] then []
    else if ws[0].date < d then [ws[0]] + DatedBefore(ws[1..], d)
    else DatedBefore(ws[1..], d)
  }

  /** Later days first. */
  ghost predicate DescendingByDate(ws: seq<Workout>) {
    forall i, j :: 0 <= i < j < |ws| ==> ws[i].date >= ws[j].date
  }

  /** The first entry of a list sorted latest first is dated no earlier than
      any entry, and the rest of the list is still sorted. */
  lemma DescendingHead(s: seq<Workout>)
    requires s != [] && DescendingByDate(s)
    ensures forall v :: v in s ==> v.date <= s[0].date
    ensures DescendingByDate(s[1..])
  {
    assert forall i, j :: 0 <= i < j < |s[1..]| ==> s[1..][i] == s[i + 1] && s[1..][j] == s[j + 1];
  }

  lemma DescendingCons(v: Workout, s: seq<Workout>)
    requires DescendingByDate(s)
    requires forall u :: u in s ==> u.date <= v.date
    ensures DescendingByDate([v] + s)
  {
    var t := [v] + s;
    forall i, j | 0 <= i < j < |t| ensures t[i].date >= t[j].date {
      assert t[j] == s[j - 1] && s[j - 1] in s;
      if i > 0 {
        assert t[i] == s[i - 1];
      }
    }
  }

  /** An entry dated no earlier than any of a sorted permutation of `t` and `w`
      can go in front of it. */
  lemma HeadBeforeAll(v: Workout, rest: seq<Workout>, t: seq<Workout>, w: Workout)
    requires DescendingByDate(rest) && multiset(rest) == multiset(t) + multiset{w}
    requires w.date <= v.date && forall u :: u in t ==> u.date <= v.date
    ensures DescendingByDate([v] + rest)
  {
    forall u | u in rest ensures u.date <= v.date {
      assert u in multiset(rest);
    }
    DescendingCons(v, rest);
  }

  /** A prefix of a list sorted latest first is sorted, and no entry after it
      is later than an entry in it. */
  lemma DescendingPrefix(s: seq<Workout>, k: nat)
    requires DescendingByDate(s) && k <= |s|
    ensures DescendingByDate(s[..k])
    ensures forall u, v :: u in s[k..] && v in s[..k] ==> u.date <= v.date
  {
    forall i, j | 0 <= i < j < k ensures s[..k][i].date >= s[..k][j].date {
      assert s[..k][i] == s[i] && s[..k][j] == s[j];
    }
    forall u, v | u in s[k..] && v in s[..k] ensures u.date <= v.date {
      var j :| 0 <= j < |s[k..]| && s[k..][j] == u;
      var i :| 0 <= i < k && s[..k][i] == v;
      assert s[i] == v && s[k + j] == u;
    }
  }

  /** Puts `w` before every entry of `s` dated no later than it, so in front
      of the entries on its own day. */
  function InsertByDate(w: Workout, s: seq<Workout>): (r: seq<Workout>)
    requires DescendingByDate(s)
    ensures DescendingByDate(r)
    ensures multiset(r) == multiset(s) + multiset{w}
  {
    if s == [] then [w]
    else
      DescendingHead(s);
      if w.date >= s[0].date then
        DescendingCons(w, s);
        [w] + s
      else
        var rest := InsertByDate(w, s[1..]);
        assert s == [s[0]] + s[1..];
        HeadBeforeAll(s[0], rest, s[1..], w);
        [s[0]] + rest
  }

  /** `.sort((a, b) => b.date - a.date)`: the stable sort by day, latest first. */
  function SortByDateDesc(ws: seq<Workout>): (r: seq<Workout>)
    ensures DescendingByDate(r)
    ensures multiset(r) == multiset(ws)
  {
    if ws == [] then []
    else
      assert ws == [ws[0]] + ws[1..];
      InsertByDate(ws[0], SortByDateDesc(ws[1..]))
  }

  /** Insertion keeps the entries of every day in their order, the inserted
      entry going in front of the others on its day. */
  lemma {:induction false} InsertKeepsDayOrder(w: Workout, s: seq<Workout>, e: Day)
    requires DescendingByDate(s)
    ensures OnDay(InsertByDate(w, s), e) == (if w.date == e then [w] else []) + OnDay(s, e)
  {
    if s != [] {
      DescendingHead(s);
      if w.date >= s[0].date {
        assert ([w] + s)[0] == w && ([w] + s)[1..] == s;
      } else {
        var rest := InsertByDate(w, s[1..]);
        InsertKeepsDayOrder(w, s[1..], e);
        assert ([s[0]] + rest)[0] == s[0] && ([s[0]] + rest)[1..] == rest;
      }
    }
  }

  /** The sort is stable: the entries of every day keep their stored order. */
  lemma {:induction false} SortKeepsDayOrder(ws: seq<Workout>, e: Day)
    ensures OnDay(SortByDateDesc(ws), e) == OnDay(ws, e)
  {
    if ws != [] {
      SortKeepsDayOrder(ws[1..], e);
      InsertKeepsDayOrder(ws[0], SortByDateDesc(ws[1..]), e);
    }
  }

  /** The filter by an earlier day keeps the entries of every day before it, in order. */
  lemma {:induction false} BeforeKeepsDayOrder(ws: seq<Workout>, d: Day, e: Day)
    requires e < d
    ensures OnDay(DatedBefore(ws, d), e) == OnDay(ws, e)
  {
    if ws != [] {
      BeforeKeepsDayOrder(ws[1..], d, e);
      if ws[0].date < d {
        var r := [ws[0]] + DatedBefore(ws[1..], d);
        assert r[0] == ws[0] && r[1..] == DatedBefore(ws[1..], d);
      }
    }
  }

  /** The head of a list sorted latest first is one of its entries, dated no
      earlier than any of them. */
  lemma SortedHeadIsLatest(ws: seq<Workout>)
    ensures |SortByDateDesc(ws)| == |ws|
    ensures ws != [] ==> SortByDateDesc(ws)[0] in ws
    ensures ws != [] ==> forall w :: w in ws ==> w.date <= SortByDateDesc(ws)[0].date
  {
    var sorted := SortByDateDesc(ws);
    assert |sorted| == |multiset(sorted)| == |ws|;
    if ws != [] {
      assert sorted[0] in multiset(ws);
      forall w | w in ws ensures w.date <= sorted[0].date {
        assert w in multiset(sorted);
        var k :| 0 <= k < |sorted| && sorted[k] == w;
        assert k == 0 || sorted[0].date >= sorted[k].date;
      }
    }
  }

  /** Inserting an entry whose key no entry of `s` has keeps keys unique. */
  lemma {:induction false} InsertKeepsUnique<K>(w: Workout, s: seq<Workout>, key: Workout -> K)
    requires DescendingByDate(s) && KeysUnique(s, key)
    requires forall v :: v in s ==> key(v) != key(w)
    ensures KeysUnique(InsertByDate(w, s), key)
  {
    if s == [] {
    } else if w.date >= s[0].date {
      KeysUniqueCons(w, s, key);
    } else {
      var tail := s[1..];
      DescendingHead(s);
      KeysUniqueSplit(s, key);
      InsertKeepsUnique(w, tail, key);
      var rest := InsertByDate(w, tail);
      forall v | v in rest ensures key(v) != key(s[0]) {
        assert v in multiset(rest);
      }
      KeysUniqueCons(s[0], rest, key);
    }
  }

  /** Sorting keeps the same entries, so it keeps keys unique. */
  lemma {:induction false} SortKeepsUnique<K>(ws: seq<Workout>, key: Workout -> K)
    requires KeysUnique(ws, key)
    ensures KeysUnique(SortByDateDesc(ws), key)
    ensures forall v :: v in SortByDateDesc(ws) <==> v in ws
  {
    var sorted := SortByDateDesc(ws);
    assert forall v :: v in sorted <==> v in multiset(ws);
    if ws != [] {
      var tail := ws[1..];
      KeysUniqueSplit(ws, key);
      SortKeepsUnique(tail, key);
      InsertKeepsUnique(ws[0], SortByDateDesc(tail), key);
    }
  }

  /** `getPreviousWorkout`: the head of the entries before `d`, sorted latest
      first. There is none exactly when nothing is stored before `d`; otherwise
      it is a stored workout before `d`, dated no earlier than any other, and of
      several on that day it is the first stored, as the lookup by day finds. */
  function PreviousBefore(ws: seq<Workout>, d: Day): (r: Option<Workout>)
    ensures r.None? <==> forall w :: w in ws ==> w.date >= d
    ensures r.Some? ==> r.value in ws && r.value.date < d
    ensures r.Some? ==> forall w :: w in ws && w.date < d ==> w.date <= r.value.date
    ensures r.Some? ==> FindByDate(ws, r.value.date) == r
  {
    var before := DatedBefore(ws, d);
    var sorted := SortByDateDesc(before);
    SortedHeadIsLatest(before);
    if |sorted| == 0 then
      assert forall w :: w in ws && w.date < d ==> w in before;
      None
    else
      var p := sorted[0];
      SortKeepsDayOrder(before, p.date);
      BeforeKeepsDayOrder(ws, d, p.date);
      FindByDateHeadsDay(ws, p.date);
      Some(p)
  }

  /** `workouts.filter(w => w.id !== id)`, in store order. */
  function RemoveId(ws: seq<Workout>, id: Id): (r: seq<Workout>)
    ensures forall w :: w in r <==> w in ws && w.id != id
  {
    if ws == [] then []
    else if ws[0].id == id then RemoveId(ws[1..], id)
    else [ws[0]] + RemoveId(ws[1..], id)
  }

  /** The filter drops something exactly when some entry carries `id`. */
  lemma {:induction false} RemoveIdShrinks(ws: seq<Workout>, id: Id)
    ensures |RemoveId(ws, id)| <= |ws|
    ensures |RemoveId(ws, id)| < |ws| <==> exists i :: 0 <= i < |ws| && ws[i].id == id
  {
    if ws != [] {
      RemoveIdShrinks(ws[1..], id);
      assert forall i :: 1 <= i < |ws| ==> ws[i] == ws[1..][i - 1];
      assert forall i :: 0 <= i < |ws[1..]| ==> ws[1..][i] == ws[i + 1];
    }
  }

  /** `workouts.find(w => w.id === id)` finds something: some stored workout
      carries `id`, which is exactly when the save's filter drops an entry. */
  function HasId(ws: seq<Workout>, id: Id): (b: bool)
    ensures b <==> exists w :: w in ws && w.id == id
    ensures b <==> |RemoveId(ws, id)| < |ws|
  {
    RemoveIdShrinks(ws, id);
    exists i :: 0 <= i < |ws| && ws[i].id == id
  }

  /** Removal works entry by entry: it keeps the others in their order. */
  lemma {:induction false} RemoveIdAppend(a: seq<Workout>, b: seq<Workout>, id: Id)
    ensures RemoveId(a + b, id) == RemoveId(a, id) + RemoveId(b, id)
  {
    if a == [] {
      assert a + b == b;
    } else {
      assert (a + b)[0] == a[0] && (a + b)[1..] == a[1..] + b;
      RemoveIdAppend(a[1..], b, id);
    }
  }

  /** Removing an identifier nobody carries changes nothing. */
  lemma {:induction false} RemoveAbsentId(ws: seq<Workout>, id: Id)
    requires forall w :: w in ws ==> w.id != id
    ensures RemoveId(ws, id) == ws
  {
    if ws != [] {
      RemoveAbsentId(ws[1..], id);
    }
  }

  lemma {:induction false} RemoveIdKeepsUnique<K>(ws: seq<Workout>, id: Id, key: Workout -> K)
    requires KeysUnique(ws, key)
    ensures KeysUnique(RemoveId(ws, id), key)
  {
    if ws != [] {
      KeysUniqueSplit(ws, key);
      RemoveIdKeepsUnique(ws[1..], id, key);
      if ws[0].id != id {
        KeysUniqueCons(ws[0], RemoveId(ws[1..], id), key);
      }
    }
  }

  /** `saveWorkout`'s store update: drop every entry with the workout's identifier, then append it. */
  function Upsert(ws: seq<Workout>, w: Workout): (r: seq<Workout>)
    ensures |r| > 0 && r[|r| - 1] == w
    ensures forall i :: 0 <= i < |r| - 1 ==> r[i].id != w.id
    ensures forall v :: v in ws && v.id != w.id ==> v in r
    ensures forall v :: v in r ==> v == w || v in ws
  {
    var kept := RemoveId(ws, w.id);
    assert forall i :: 0 <= i < |kept| ==> (kept + [w])[i] == kept[i];
    kept + [w]
  }

  /** Saving again under the same identifier replaces, never duplicates: only the last save remains. */
  lemma UpsertTwice(ws: seq<Workout>, a: Workout, b: Workout)
    requires a.id == b.id
    ensures Upsert(Upsert(ws, a), b) == Upsert(ws, b)
  {
    var kept := RemoveId(ws, a.id);
    RemoveIdAppend(kept, [a], a.id);
    RemoveAbsentId(kept, a.id);
  }

  /** Saving into a store whose other entries are all on other days makes the lookup by day find the saved workout. */
  lemma UpsertThenFindByDate(ws: seq<Workout>, w: Workout)
    requires NoOtherOnDay(ws, w)
    ensures FindByDate(Upsert(ws, w), w.date) == Some(w)
  {
    var kept := RemoveId(ws, w.id);
    var r := kept + [w];
    forall j | 0 <= j < |kept| ensures r[j].date != w.date {
      assert r[j] == kept[j] && kept[j] in kept;
    }
    FindByDateIsFirst(r, w.date, |kept|);
  }

  /** The save keeps identifiers unique, and keeps days unique when no other
      entry is on the saved workout's day. */
  lemma UpsertKeepsUnique(ws: seq<Workout>, w: Workout)
    requires KeysUnique(ws, IdOf)
    ensures KeysUnique(Upsert(ws, w), IdOf)
    ensures NoOtherOnDay(ws, w) ==> NoOtherOnDay(Upsert(ws, w), w)
    ensures KeysUnique(ws, DateOf) && NoOtherOnDay(ws, w) ==> KeysUnique(Upsert(ws, w), DateOf)
  {
    var kept := RemoveId(ws, w.id);
    RemoveIdKeepsUnique(ws, w.id, IdOf);
    KeysUniqueSnoc(kept, w, IdOf);
    if KeysUnique(ws, DateOf) && NoOtherOnDay(ws, w) {
      RemoveIdKeepsUnique(ws, w.id, DateOf);
      KeysUniqueSnoc(kept, w, DateOf);
    }
  }

  /** The save matches by identifier only: two workouts with different identifiers
      on the same day are both kept, and the lookup by day then finds the older one. */
  lemma UpsertKeepsSharedDay()
    ensures var a := Workout("1", "A", 10, []);
            var b := Workout("2", "B", 10, []);
            var ws := Upsert(Upsert([], a), b);
            ws == [a, b] && FindByDate(ws, 10) == Some(a)
  {
    var a := Workout("1", "A", 10, []);
    var b := Workout("2", "B", 10, []);
    assert Upsert([], a) == [a];
    assert RemoveId([a], "2") == [a];
  }

  /** In general, saving a workout on a day where a workout with another
      identifier is stored leaves the lookup by that day finding a previously
      stored workout with another identifier, never the saved one. */
  lemma UpsertBehindSharedDay(ws: seq<Workout>, v: Workout, w: Workout)
    requires v in ws && v.id != w.id && v.date == w.date
    ensures var found := FindByDate(Upsert(ws, w), w.date);
      found.Some? && found.value in ws && found.value.id != w.id
  {
    var kept := RemoveId(ws, w.id);
    assert v in OnDay(kept, w.date);
    OnDayAppend(kept, [w], w.date);
    FindByDateHeadsDay(kept + [w], w.date);
    var found := OnDay(kept + [w], w.date)[0];
    assert found == OnDay(kept, w.date)[0] && found in OnDay(kept, w.date);
  }

  /** A workout saved under an identifier that a workout on another day already
      carries replaces that workout: in a store with one workout per day, that day
      is then empty. */
  lemma UpsertSameIdOtherDay(ws: seq<Workout>, v: Workout, w: Workout)
    requires KeysUnique(ws, DateOf)
    requires v in ws && v.id == w.id && v.date != w.date
    ensures FindByDate(Upsert(ws, w), v.date) == None
  {
    forall u | u in Upsert(ws, w) ensures u.date != v.date {
      if u != w {
        assert u in ws && u.id != v.id;
        DistinctEntriesDistinctKeys(ws, DateOf, u, v);
      }
    }
  }

  const RecentCount: nat := 3

  /** The first `k` entries of the list sorted latest first are in order, are
      stored, and no stored entry left out is later than one of them. */
  lemma SortedPrefixIsLatest(ws: seq<Workout>, k: nat)
    requires k <= |ws|
    ensures |SortByDateDesc(ws)| == |ws|
    ensures DescendingByDate(SortByDateDesc(ws)[..k])
    ensures multiset(SortByDateDesc(ws)[..k]) <= multiset(ws)
    ensures forall w, v :: w in ws && w !in SortByDateDesc(ws)[..k] && v in SortByDateDesc(ws)[..k] ==> w.date <= v.date
  {
    var sorted := SortByDateDesc(ws);
    assert |sorted| == |ws| by {
      assert |sorted| == |multiset(sorted)|;
    }
    var p, rest := sorted[..k], sorted[k..];
    DescendingPrefix(sorted, k);
    assert multiset(sorted) == multiset(p) + multiset(rest) by {
      assert sorted == p + rest;
    }
    forall w | w in ws && w !in p ensures w in rest {
      assert w in multiset(ws);
    }
  }

  /** The "recent workouts" card: `.sort(latest first).slice(0, 3)`. It holds
      the three latest stored workouts (all of them if fewer), latest first:
      every stored workout left out is dated no later than every one shown. */
  function Recent(ws: seq<Workout>): (r: seq<Workout>)
    ensures |r| == if |ws| < RecentCount then |ws| else RecentCount
    ensures DescendingByDate(r)
    ensures multiset(r) <= multiset(ws)
    ensures forall w, v :: w in ws && w !in r && v in r ==> w.date <= v.date
  {
    var sorted := SortByDateDesc(ws);
    SortedPrefixIsLatest(ws, if |ws| < RecentCount then |ws| else RecentCount);
    assert sorted[..|sorted|] == sorted;
    if |sorted| <= RecentCount then sorted else sorted[..RecentCount]
  }

  /** Of the workouts on one day, the card shows the first stored ones. */
  lemma RecentKeepsDayOrder(ws: seq<Workout>, e: Day)
    ensures OnDay(Recent(ws), e) <= OnDay(ws, e)
  {
    var sorted := SortByDateDesc(ws);
    var r := Recent(ws);
    assert sorted == r + sorted[|r|..];
    OnDayAppend(r, sorted[|r|..], e);
    SortKeepsDayOrder(ws, e);
  }

  /** Days 1, 5 and 3 are sorted as 5, 3, 1. */
  lemma SortOfThreeDays(a: Workout, b: Workout, c: Workout)
    requires a.date == 1 && b.date == 5 && c.date == 3
    ensures SortByDateDesc([a, b, c]) == [b, c, a]
  {
    assert [a, b, c][1..] == [b, c];
    assert SortByDateDesc([b, c]) == [b, c] by {
      assert [b, c][1..] == [c];
      assert SortByDateDesc([c]) == [c] by {
        assert [c][1..] == [];
      }
    }
    assert InsertByDate(a, [b, c]) == [b, c, a] by {
      assert [b, c][1..] == [c];
      assert InsertByDate(a, [c]) == [c, a] by {
        assert [c][1..] == [];
      }
    }
  }

  /** Days 1, 5 and 3 are listed as 5, 3, 1. */
  lemma RecentOfThreeDays(a: Workout, b: Workout, c: Workout)
    requires a.date == 1 && b.date == 5 && c.date == 3
    ensures Recent([a, b, c]) == [b, c, a]
  {
    SortOfThreeDays(a, b, c);
  }
}
