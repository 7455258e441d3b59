/** The calendar page's grouping (src/pages/CalendarView.tsx): the loaded
    entries are grouped under the `yyyy-MM-dd` key of their creation time,
    and the list for the selected day is read back from the groups.
    Formatting a timestamp as a local calendar day is the parameter
    `dayKey`. */
module CalendarView {
  import opened Common
  import opened Db

  /** The entries of `s` whose creation day is `k`, in their order in `s`. */
  function OnDay(s: seq<Entry>, dayKey: int -> string, k: string): (r: seq<Entry>)
    ensures |r| <= |s|
    ensures forall e :: e in r <==> e in s && dayKey(e.createdAt) == k
  {
    if s == [] then []
    else
      var last := s[|s| - 1];
      OnDay(s[..|s| - 1], dayKey, k) + (if dayKey(last.createdAt) == k then [last] else [])
  }

  /** The total size of the groups named in `days`. */
  function SizeSum(s: seq<Entry>, dayKey: int -> string, days: seq<string>): nat {
    if days == [] then 0 else |OnDay(s, dayKey, days[0])| + SizeSum(s, dayKey, days[1..])
  }

  /** How often `k` occurs in `days`. */
  function Occurrences(days: seq<string>, k: string): nat {
    if days == [] then 0 else (if days[0] == k then 1 else 0) + Occurrences(days[1..], k)
  }

  predicate Distinct(days: seq<string>) {
    forall i, j :: 0 <= i < j < |days| ==> days[i] != days[j]
  }

  lemma {:induction false} OccursOnce(days: seq<string>, k: string)
    requires Distinct(days) && k in days
    ensures Occurrences(days, k) == 1
  {
    if days[0] == k {
      NotOccurring(days[1..], k);
    } else {
      OccursOnce(days[1..], k);
    }
  }

  lemma {:induction false} NotOccurring(days: seq<string>, k: string)
    requires k !in days
    ensures Occurrences(days, k) == 0
  {
    if days != [] {
      NotOccurring(days[1..], k);
    }
  }

  /** One more entry adds one to the group of its own day. */
  lemma {:induction false} SizeSumStep(s: seq<Entry>, e: Entry, dayKey: int -> string, days: seq<string>)
    ensures SizeSum(s + [e], dayKey, days) == SizeSum(s, dayKey, days) + Occurrences(days, dayKey(e.createdAt))
  {
    assert (s + [e])[..|s|] == s;
    if days != [] {
      SizeSumStep(s, e, dayKey, days[1..]);
    }
  }

  /** Every entry is counted in exactly one group: when `days` names each
      day once and covers every entry's day, the group sizes add up to the
      number of entries. */
  lemma {:induction false} GroupSizesSum(s: seq<Entry>, dayKey: int -> string, days: seq<string>)
    requires Distinct(days)
    requires forall i :: 0 <= i < |s| ==> dayKey(s[i].createdAt) in days
    ensures SizeSum(s, dayKey, days) == |s|
  {
    if s == [] {
      EmptySum(dayKey, days);
    } else {
      var init, last := s[..|s| - 1], s[|s| - 1];
      assert init + [last] == s;
      assert forall i :: 0 <= i < |init| ==> dayKey(init[i].createdAt) in days by {
        forall i | 0 <= i < |init|
          ensures dayKey(init[i].createdAt) in days
        {
          assert init[i] == s[i];
        }
      }
      GroupSizesSum(init, dayKey, days);
      SizeSumStep(init, last, dayKey, days);
      assert dayKey(last.createdAt) in days by {
        assert last == s[|s| - 1];
      }
      OccursOnce(days, dayKey(last.createdAt));
    }
  }

  lemma {:induction false} EmptySum(dayKey: int -> string, days: seq<string>)
    ensures SizeSum([], dayKey, days) == 0
  {
    if days != [] {
      EmptySum(dayKey, days[1..]);
    }
  }

  /** `getSelectedDateEntries`: nothing without a selected day, and nothing
      for a day that has no group. */
  function SelectedEntries(groups: map<string, seq<Entry>>, selected: Option<string>): (r: seq<Entry>)
    ensures selected.None? ==> r == []
    ensures selected.Some? && selected.value !in groups ==> r == []
    ensures selected.Some? && selected.value in groups ==> r == groups[selected.value]
  {
    if selected.Some? && selected.value in groups then groups[selected.value] else []
  }

  /** The days of `s`, each once, in the order they first occur. */
  function DaysOf(s: seq<Entry>, dayKey: int -> string): seq<string> {
    if s == [] then []
    else
      var init := DaysOf(s[..|s| - 1], dayKey);
      var key := dayKey(s[|s| - 1].createdAt);
      if key in init then init else init + [key]
  }

  /** A day is listed exactly when some entry falls on it. */
  lemma {:induction false} DaysOfMembership(s: seq<Entry>, dayKey: int -> string, k: string)
    ensures k in DaysOf(s, dayKey) <==> exists m :: 0 <= m < |s| && dayKey(s[m].createdAt) == k
  {
    if s != [] {
      var init := s[..|s| - 1];
      DaysOfMembership(init, dayKey, k);
      if exists m :: 0 <= m < |s| && dayKey(s[m].createdAt) == k {
        var m :| 0 <= m < |s| && dayKey(s[m].createdAt) == k;
        if m < |init| {
          assert init[m] == s[m];
        }
      }
      if exists m :: 0 <= m < |init| && dayKey(init[m].createdAt) == k {
        var m :| 0 <= m < |init| && dayKey(init[m].createdAt) == k;
        assert s[m] == init[m];
      }
    }
  }

  /** First-occurrence order: a day listed before another has an entry
      earlier than every entry of the later day. */
  lemma {:induction false} DaysOfOrder(s: seq<Entry>, dayKey: int -> string, i: nat, j: nat, m: nat)
    requires i < j < |DaysOf(s, dayKey)| && m < |s| && dayKey(s[m].createdAt) == DaysOf(s, dayKey)[j]
    ensures exists l :: 0 <= l < m && dayKey(s[l].createdAt) == DaysOf(s, dayKey)[i]
  {
    var init := s[..|s| - 1];
    var days, before := DaysOf(s, dayKey), DaysOf(init, dayKey);
    assert i < |before| && days[i] == before[i];
    if m < |init| {
      assert init[m] == s[m];
      if j == |before| {
        DaysOfMembership(init, dayKey, days[j]);
        assert false;
      }
      DaysOfOrder(init, dayKey, i, j, m);
      var l :| 0 <= l < m && dayKey(init[l].createdAt) == before[i];
      assert s[l] == init[l];
    } else {
      assert before[i] in before;
      DaysOfMembership(init, dayKey, before[i]);
      var l :| 0 <= l < |init| && dayKey(init[l].createdAt) == before[i];
      assert s[l] == init[l];
    }
  }

  /** `DaysOfOrder` for every pair of listed days. */
  lemma DaysOrdered(s: seq<Entry>, dayKey: int -> string)
    ensures var days := DaysOf(s, dayKey);
      forall i, j, m :: 0 <= i < j < |days| && 0 <= m < |s| && dayKey(s[m].createdAt) == days[j] ==>
        exists l :: 0 <= l < m && dayKey(s[l].createdAt) == days[i]
  {
    var days := DaysOf(s, dayKey);
    forall i, j, m | 0 <= i < j < |days| && 0 <= m < |s| && dayKey(s[m].createdAt) == days[j]
      ensures exists l :: 0 <= l < m && dayKey(s[l].createdAt) == days[i]
    {
      DaysOfOrder(s, dayKey, i, j, m);
    }
  }

  /** `groups` and its key order `days` hold exactly the entries of `s`,
      each under its own day, and no group is empty. */
  ghost predicate Grouped(s: seq<Entry>, dayKey: int -> string, days: seq<string>, groups: map<string, seq<Entry>>) {
    && Distinct(days) && days == DaysOf(s, dayKey) && (forall k :: k in groups <==> k in days)
    && (forall k :: k in groups ==> groups[k] == OnDay(s, dayKey, k) && groups[k] != [])
    && (forall k :: k !in groups ==> OnDay(s, dayKey, k) == [])
  }

  /** A turn of the `forEach` for a day seen before: push onto its list. */
  lemma GroupedSameDay(s: seq<Entry>, e: Entry, dayKey: int -> string, days: seq<string>, groups: map<string, seq<Entry>>)
    requires Grouped(s, dayKey, days, groups) && dayKey(e.createdAt) in groups
    ensures Grouped(s + [e], dayKey, days, groups[dayKey(e.createdAt) := groups[dayKey(e.createdAt)] + [e]])
  {
    var key := dayKey(e.createdAt);
    var groups' := groups[key := groups[key] + [e]];
    assert (s + [e])[..|s|] == s;
    forall k | k in groups'
      ensures groups'[k] == OnDay(s + [e], dayKey, k) && groups'[k] != []
    {
      OnDayAppend(s, e, dayKey, k);
    }
    forall k | k !in groups'
      ensures OnDay(s + [e], dayKey, k) == []
    {
      OnDayAppend(s, e, dayKey, k);
    }
  }

  /** A turn of the `forEach` for a new day: create its list, then push. */
  lemma GroupedNewDay(s: seq<Entry>, e: Entry, dayKey: int -> string, days: seq<string>, groups: map<string, seq<Entry>>)
    requires Grouped(s, dayKey, days, groups) && dayKey(e.createdAt) !in groups
    ensures Grouped(s + [e], dayKey, days + [dayKey(e.createdAt)], groups[dayKey(e.createdAt) := [e]])
  {
    var key := dayKey(e.createdAt);
    var groups' := groups[key := [e]];
    assert (s + [e])[..|s|] == s;
    forall k | k in groups'
      ensures groups'[k] == OnDay(s + [e], dayKey, k) && groups'[k] != []
    {
      OnDayAppend(s, e, dayKey, k);
      if k == key {
        assert OnDay(s, dayKey, k) == [];
      } else {
        assert groups'[k] == groups[k];
      }
    }
    assert forall k :: k in groups' <==> k in days + [key];
    forall k | k !in groups'
      ensures OnDay(s + [e], dayKey, k) == []
    {
      OnDayAppend(s, e, dayKey, k);
    }
    DistinctAppend(days, key);
  }

  lemma DistinctAppend(days: seq<string>, k: string)
    requires Distinct(days) && k !in days
    ensures Distinct(days + [k])
  {
  }

  /** One more entry extends the group of its own day only. */
  lemma OnDayAppend(s: seq<Entry>, e: Entry, dayKey: int -> string, k: string)
    ensures OnDay(s + [e], dayKey, k) == OnDay(s, dayKey, k) + (if dayKey(e.createdAt) == k then [e] else [])
  {
    assert (s + [e])[..|s|] == s;
  }

  /** What a complete grouping says, spelled out: a day has a group exactly
      when some entry falls on it. */
  lemma GroupedFacts(s: seq<Entry>, dayKey: int -> string, days: seq<string>, groups: map<string, seq<Entry>>)
    requires Grouped(s, dayKey, days, groups)
    ensures forall k :: k in groups <==> exists i :: 0 <= i < |s| && dayKey(s[i].createdAt) == k
  {
    forall k | k in groups
      ensures exists i :: 0 <= i < |s| && dayKey(s[i].createdAt) == k
    {
      var e := groups[k][0];
      assert e in OnDay(s, dayKey, k);
      var i :| 0 <= i < |s| && s[i] == e;
    }
    forall k, i | 0 <= i < |s| && dayKey(s[i].createdAt) == k
      ensures k in groups
    {
      assert s[i] in OnDay(s, dayKey, k);
    }
  }

  /** With a complete grouping, the list shown for any day is that day's
      entries. */
  lemma GroupedLookup(s: seq<Entry>, dayKey: int -> string, days: seq<string>, groups: map<string, seq<Entry>>)
    requires Grouped(s, dayKey, days, groups)
    ensures forall k :: SelectedEntries(groups, Some(k)) == OnDay(s, dayKey, k)
  {
  }

  /** With a complete grouping, the group sizes add up to the entry count. */
  lemma GroupedSizes(s: seq<Entry>, dayKey: int -> string, days: seq<string>, groups: map<string, seq<Entry>>)
    requires Grouped(s, dayKey, days, groups)
    ensures SizeSum(s, dayKey, days) == |s|
  {
    forall i | 0 <= i < |s|
      ensures dayKey(s[i].createdAt) in days
    {
      assert s[i] in OnDay(s, dayKey, dayKey(s[i].createdAt));
    }
    GroupSizesSum(s, dayKey, days);
  }

  /** The grouping loop of `loadEntries`. `days` is the key order of the
      `Map`, the order in which days first occur. */
  method GroupByDay(entries: seq<Entry>, dayKey: int -> string)
    returns (days: seq<string>, groups: map<string, seq<Entry>>)
    ensures Distinct(days) && (forall k :: k in groups <==> k in days)
    ensures forall k :: k in groups <==> exists i :: 0 <= i < |entries| && dayKey(entries[i].createdAt) == k
    ensures forall k :: k in groups ==> groups[k] == OnDay(entries, dayKey, k) && groups[k] != []
    ensures forall k :: SelectedEntries(groups, Some(k)) == OnDay(entries, dayKey, k)
    ensures SizeSum(entries, dayKey, days) == |entries|
    ensures days == DaysOf(entries, dayKey)
    ensures forall i, j, m :: 0 <= i < j < |days| && 0 <= m < |entries| && dayKey(entries[m].createdAt) == days[j] ==>
      exists l :: 0 <= l < m && dayKey(entries[l].createdAt) == days[i]
  {
    days := [];
    groups := map[];
    for i := 0 to |entries|
      invariant Grouped(entries[..i], dayKey, days, groups)
    {
      var e := entries[i];
      var key := dayKey(e.createdAt);
      assert entries[..i] + [e] == entries[..i + 1];
      if key !in groups {
        GroupedNewDay(entries[..i], e, dayKey, days, groups);
        groups := groups[key := [e]];
        days := days + [key];
      } else {
        GroupedSameDay(entries[..i], e, dayKey, days, groups);
        groups := groups[key := groups[key] + [e]];
      }
    }
    assert entries[..|entries|] == entries;
    GroupedFacts(entries, dayKey, days, groups);
    GroupedLookup(entries, dayKey, days, groups);
    GroupedSizes(entries, dayKey, days, groups);
    DaysOrdered(entries, dayKey);
  }
}
