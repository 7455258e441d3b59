/** The achievement engine (src/lib/achievements.ts): a fixed catalogue of
    eight milestones, `checkAchievements`, which appends newly earned ids to
    the stored list and raises one notice per id, and `getAchievements`, a
    read-only projection with progress. The hour of a timestamp (local time)
    is a parameter `hourOf`. */
module Achievements {
  import opened Common
  import opened Db

  datatype Achievement = Achievement(id: string, title: string, description: string, icon: string, target: Option<int>)

  /** `achievementsList`, in declaration order. */
  const Catalogue: seq<Achievement> := [
    Achievement("first_entry", "First Step", "Create your first diary entry", "✍️", Some(1)),
    Achievement("week_streak", "Week Warrior", "Write for 7 days straight", "🔥", Some(7)),
    Achievement("month_streak", "Monthly Master", "Write for 30 days straight", "🌟", Some(30)),
    Achievement("ten_entries", "Getting Started", "Create 10 entries", "📝", Some(10)),
    Achievement("fifty_entries", "Dedicated Diarist", "Create 50 entries", "📚", Some(50)),
    Achievement("hundred_entries", "Century Club", "Create 100 entries", "💯", Some(100)),
    Achievement("all_moods", "Emotional Explorer", "Use all mood types", "🎭", Some(6)),
    Achievement("night_writer", "Night Owl", "Write after midnight", "🌙", None)
  ]

  /** The order in which `checkAchievements` tests the rules (not the
      catalogue's order). */
  const CheckOrder: seq<string> := [
    "first_entry", "ten_entries", "fifty_entries", "hundred_entries",
    "week_streak", "month_streak", "all_moods", "night_writer"
  ]

  /** What the rules look at. */
  datatype Stats = Stats(entryCount: nat, streak: int, distinctMoods: nat, nightEntry: bool)

  datatype Metric = EntryCount | StreakDays | DistinctMoods

  /** A rule: a metric reaching a threshold, or an entry written at night. */
  datatype Rule = AtLeast(metric: Metric, threshold: int) | WrittenAtNight

  /** The rule table behind the catalogue. */
  function RuleOf(id: string): Option<Rule> {
    if id == "first_entry" then Some(AtLeast(EntryCount, 1))
    else if id == "ten_entries" then Some(AtLeast(EntryCount, 10))
    else if id == "fifty_entries" then Some(AtLeast(EntryCount, 50))
    else if id == "hundred_entries" then Some(AtLeast(EntryCount, 100))
    else if id == "week_streak" then Some(AtLeast(StreakDays, 7))
    else if id == "month_streak" then Some(AtLeast(StreakDays, 30))
    else if id == "all_moods" then Some(AtLeast(DistinctMoods, 6))
    else if id == "night_writer" then Some(WrittenAtNight)
    else None
  }

  function Measure(m: Metric, st: Stats): int {
    match m
    case EntryCount => st.entryCount
    case StreakDays => st.streak
    case DistinctMoods => st.distinctMoods
  }

  /** A metric read straight from the entries and the streak, as the
      progress display counts it. */
  function MetricOf(m: Metric, entries: seq<Entry>, streak: int): int {
    match m
    case EntryCount => |entries|
    case StreakDays => streak
    case DistinctMoods => |MoodsUsed(entries)|
  }

  predicate Holds(r: Rule, st: Stats) {
    match r
    case AtLeast(m, t) => Measure(m, st) >= t
    case WrittenAtNight => st.nightEntry
  }

  /** The achievement `id` is earned under `st`. */
  predicate Qualifies(id: string, st: Stats) {
    RuleOf(id).Some? && Holds(RuleOf(id).value, st)
  }

  /** The ids of `order` that are earned and not yet unlocked, in `order`. */
  function Eligible(order: seq<string>, st: Stats, unlocked: seq<string>): seq<string> {
    if order == [] then []
    else
      var last := order[|order| - 1];
      Eligible(order[..|order| - 1], st, unlocked)
      + (if Qualifies(last, st) && last !in unlocked then [last] else [])
  }

  /** `id` is picked exactly when it is in `order`, earned and not yet held. */
  lemma {:induction false} EligibleMembership(order: seq<string>, st: Stats, unlocked: seq<string>, id: string)
    ensures id in Eligible(order, st, unlocked) <==> id in order && Qualifies(id, st) && id !in unlocked
  {
    if order != [] {
      var init := order[..|order| - 1];
      EligibleMembership(init, st, unlocked, id);
      assert order == init + [order[|order| - 1]];
    }
  }

  /** From an order without repeats, no id is picked twice. */
  lemma {:induction false} EligibleDistinct(order: seq<string>, st: Stats, unlocked: seq<string>)
    requires forall i, j :: 0 <= i < j < |order| ==> order[i] != order[j]
    ensures forall i, j :: 0 <= i < j < |Eligible(order, st, unlocked)| ==>
      Eligible(order, st, unlocked)[i] != Eligible(order, st, unlocked)[j]
  {
    if order != [] {
      var init := order[..|order| - 1];
      var last := order[|order| - 1];
      EligibleDistinct(init, st, unlocked);
      EligibleMembership(init, st, unlocked, last);
      assert last !in init;
    }
  }

  /** Once the picked ids are appended, a second pick finds nothing. */
  lemma EligibleIdempotent(order: seq<string>, st: Stats, unlocked: seq<string>)
    ensures Eligible(order, st, unlocked + Eligible(order, st, unlocked)) == []
  {
    var newIds := Eligible(order, st, unlocked);
    var again := Eligible(order, st, unlocked + newIds);
    if again != [] {
      EligibleMembership(order, st, unlocked + newIds, again[0]);
      EligibleMembership(order, st, unlocked, again[0]);
      assert false;
    }
  }

  // ---------------------------------------------------------------------------
  // Reading the inputs

  /** `new Set(entries.map(e => e.mood))`. */
  function MoodsUsed(entries: seq<Entry>): set<string> {
    set i | 0 <= i < |entries| :: entries[i].mood
  }

  function DistinctMoodCount(entries: seq<Entry>): nat {
    |MoodsUsed(entries)|
  }

  predicate HasNightEntry(entries: seq<Entry>, hourOf: int -> int) {
    exists i | 0 <= i < |entries| :: 0 <= hourOf(entries[i].createdAt) < 6
  }

  function StatsOf(entries: seq<Entry>, streak: int, hourOf: int -> int): Stats {
    Stats(|entries|, streak, DistinctMoodCount(entries), HasNightEntry(entries, hourOf))
  }

  /** The progress shown for a metric is the number its rule tests,
      whatever the hour of each entry. */
  lemma MetricAgrees(m: Metric, entries: seq<Entry>, streak: int, hourOf: int -> int)
    ensures MetricOf(m, entries, streak) == Measure(m, StatsOf(entries, streak, hourOf))
  {
  }

  /** `JSON.parse(await getSetting('achievements') || '[]')`. */
  function StoredUnlocked(s: map<string, Value>): seq<string> {
    match SettingOf(s, AchievementsKey)
    case Some(Strings(ids)) => ids
    case _ => []
  }

  /** The ids a check on these entries and settings newly unlocks. */
  function NewlyUnlocked(entries: seq<Entry>, s: map<string, Value>, hourOf: int -> int): seq<string> {
    Eligible(CheckOrder, StatsOf(entries, StreakOf(s), hourOf), StoredUnlocked(s))
  }

  /** The settings after a check: written only when something is new. */
  function AfterCheck(entries: seq<Entry>, s: map<string, Value>, hourOf: int -> int): (r: map<string, Value>)
    ensures NewlyUnlocked(entries, s, hourOf) == [] ==> r == s
    ensures StoredUnlocked(r) == StoredUnlocked(s) + NewlyUnlocked(entries, s, hourOf)
    ensures forall k :: k != AchievementsKey ==> SettingOf(r, k) == SettingOf(s, k)
  {
    var newIds := NewlyUnlocked(entries, s, hourOf);
    if newIds == [] then s else s[AchievementsKey := Strings(StoredUnlocked(s) + newIds)]
  }

  /** Unlocking is monotonic: the stored list before a check is a prefix of
      the list after it, so no id is ever removed. */
  lemma CheckOnlyAppends(entries: seq<Entry>, s: map<string, Value>, hourOf: int -> int)
    ensures StoredUnlocked(s) <= StoredUnlocked(AfterCheck(entries, s, hourOf))
    ensures forall id :: id in StoredUnlocked(s) ==> id in StoredUnlocked(AfterCheck(entries, s, hourOf))
  {
  }

  /** A second check on the same entries and streak unlocks nothing and
      writes nothing. */
  lemma CheckIdempotent(entries: seq<Entry>, s: map<string, Value>, hourOf: int -> int)
    ensures NewlyUnlocked(entries, AfterCheck(entries, s, hourOf), hourOf) == []
    ensures AfterCheck(entries, AfterCheck(entries, s, hourOf), hourOf) == AfterCheck(entries, s, hourOf)
  {
    var s1 := AfterCheck(entries, s, hourOf);
    assert StreakOf(s1) == StreakOf(s) by {
      assert SettingOf(s1, StreakCountKey) == SettingOf(s, StreakCountKey);
    }
    EligibleIdempotent(CheckOrder, StatsOf(entries, StreakOf(s), hourOf), StoredUnlocked(s));
  }

  /** After a check every earned achievement is in the stored list, and an
      id is never stored twice by a check. */
  lemma CheckUnlocksEverythingEarned(entries: seq<Entry>, s: map<string, Value>, hourOf: int -> int, id: string)
    ensures Qualifies(id, StatsOf(entries, StreakOf(s), hourOf)) && id in CheckOrder
      ==> id in StoredUnlocked(AfterCheck(entries, s, hourOf))
    ensures id in StoredUnlocked(s) ==> id !in NewlyUnlocked(entries, s, hourOf)
  {
    EligibleMembership(CheckOrder, StatsOf(entries, StreakOf(s), hourOf), StoredUnlocked(s), id);
  }

  /** The rule table read at the ids the rules are tested in. */
  lemma RuleTable(st: Stats)
    ensures Qualifies(CheckOrder[0], st) <==> st.entryCount >= 1
    ensures Qualifies(CheckOrder[1], st) <==> st.entryCount >= 10
    ensures Qualifies(CheckOrder[2], st) <==> st.entryCount >= 50
    ensures Qualifies(CheckOrder[3], st) <==> st.entryCount >= 100
    ensures Qualifies(CheckOrder[4], st) <==> st.streak >= 7
    ensures Qualifies(CheckOrder[5], st) <==> st.streak >= 30
    ensures Qualifies(CheckOrder[6], st) <==> st.distinctMoods >= 6
    ensures Qualifies(CheckOrder[7], st) <==> st.nightEntry
  {
  }

  /** `all_moods` is earned iff at least six distinct moods were used;
      `night_writer` iff some entry was created in an hour from 0 to 5. */
  lemma RuleMeaning(entries: seq<Entry>, streak: int, hourOf: int -> int)
    ensures Qualifies("all_moods", StatsOf(entries, streak, hourOf)) <==> DistinctMoodCount(entries) >= 6
    ensures Qualifies("night_writer", StatsOf(entries, streak, hourOf))
      <==> exists i | 0 <= i < |entries| :: 0 <= hourOf(entries[i].createdAt) < 6
    ensures Qualifies("hundred_entries", StatsOf(entries, streak, hourOf)) <==> |entries| >= 100
    ensures Qualifies("month_streak", StatsOf(entries, streak, hourOf)) <==> streak >= 30
  {
  }

  /** Every displayed target is the threshold of that achievement's rule,
      and the rules are tested once each, for exactly the catalogue's ids. */
  lemma CatalogueConsistent()
    ensures forall i :: 0 <= i < |Catalogue| && Catalogue[i].target.Some? ==>
      RuleOf(Catalogue[i].id).Some? && RuleOf(Catalogue[i].id).value.AtLeast?
      && RuleOf(Catalogue[i].id).value.threshold == Catalogue[i].target.value
    ensures |CheckOrder| == |Catalogue|
    ensures forall i :: 0 <= i < |Catalogue| ==> Catalogue[i].id in CheckOrder
    ensures forall i, j :: 0 <= i < j < |CheckOrder| ==> CheckOrder[i] != CheckOrder[j]
  {
  }

  // ---------------------------------------------------------------------------
  // Notices

  /** `achievementsList.find(a => a.id === id)`. */
  function FindIn(items: seq<Achievement>, id: string): (r: Option<Achievement>)
    ensures r.Some? ==> r.value in items && r.value.id == id
    ensures r.None? ==> forall i :: 0 <= i < |items| ==> items[i].id != id
  {
    if items == [] then None
    else if items[0].id == id then Some(items[0])
    else FindIn(items[1..], id)
  }

  /** One notice per id that `items` knows, in the order given. */
  function Notices(items: seq<Achievement>, ids: seq<string>): seq<Achievement> {
    if ids == [] then []
    else
      var last := FindIn(items, ids[|ids| - 1]);
      Notices(items, ids[..|ids| - 1]) + (if last.Some? then [last.value] else [])
  }

  /** Every id the rules produce has a catalogue item. */
  lemma FindChecked(id: string)
    requires id in CheckOrder
    ensures FindIn(Catalogue, id).Some?
  {
    var i :| 0 <= i < |CheckOrder| && CheckOrder[i] == id;
    if i == 0 { assert Catalogue[0].id == id; }
    else if i == 1 { assert Catalogue[3].id == id; }
    else if i == 2 { assert Catalogue[4].id == id; }
    else if i == 3 { assert Catalogue[5].id == id; }
    else if i == 4 { assert Catalogue[1].id == id; }
    else if i == 5 { assert Catalogue[2].id == id; }
    else if i == 6 { assert Catalogue[6].id == id; }
    else { assert Catalogue[7].id == id; }
  }

  /** When `items` knows every id, the notices are exactly the found items,
      one per id and in the same order. */
  lemma {:induction false} NoticesFound(items: seq<Achievement>, ids: seq<string>)
    requires forall i :: 0 <= i < |ids| ==> FindIn(items, ids[i]).Some?
    ensures |Notices(items, ids)| == |ids|
    ensures forall i :: 0 <= i < |ids| ==> Notices(items, ids)[i] == FindIn(items, ids[i]).value
  {
    if ids != [] {
      var init := ids[..|ids| - 1];
      NoticesFound(items, init);
      var n := Notices(items, ids);
      assert n == Notices(items, init) + [FindIn(items, ids[|ids| - 1]).value];
      forall i | 0 <= i < |ids|
        ensures n[i] == FindIn(items, ids[i]).value
      {
        if i < |init| { assert n[i] == Notices(items, init)[i] && ids[i] == init[i]; }
      }
    }
  }

  /** For ids from the rule order, there is exactly one notice per id, in
      the same order, each the catalogue item with that id. */
  lemma NoticesPerId(ids: seq<string>)
    requires forall i :: 0 <= i < |ids| ==> ids[i] in CheckOrder
    ensures |Notices(Catalogue, ids)| == |ids|
    ensures forall i :: 0 <= i < |ids| ==> Notices(Catalogue, ids)[i].id == ids[i] && Notices(Catalogue, ids)[i] in Catalogue
  {
    forall i | 0 <= i < |ids|
      ensures FindIn(Catalogue, ids[i]).Some?
    {
      FindChecked(ids[i]);
    }
    NoticesFound(Catalogue, ids);
  }

  /** `checkAchievements`: tests the rules in `CheckOrder`, appends the newly
      earned ids to the stored list (writing only if there are any) and
      returns the notices shown, one per new id. */
  method CheckAchievements(db: LocalDb, hourOf: int -> int) returns (notices: seq<Achievement>)
    requires db.Valid()
    modifies db
    ensures db.Valid() && db.entries == old(db.entries)
    ensures db.settings == AfterCheck(old(db.GetAllEntries()), old(db.settings), hourOf)
    ensures notices == Notices(Catalogue, NewlyUnlocked(old(db.GetAllEntries()), old(db.settings), hourOf))
  {
    var entries := db.GetAllEntries();
    var streakCount := StreakOf(db.settings);
    var unlocked := StoredUnlocked(db.settings);
    var newUnlocked := RulesPassed(entries, streakCount, unlocked, hourOf);
    assert newUnlocked == NewlyUnlocked(entries, old(db.settings), hourOf);

    notices := [];
    if |newUnlocked| > 0 {
      db.SetSetting(AchievementsKey, Strings(unlocked + newUnlocked));
      notices := Notify(newUnlocked);
    }
    assert entries == old(db.GetAllEntries());
  }

  /** The chain of rule tests in `checkAchievements`: the ids earned and
      not yet unlocked, in the order the rules are tested. Each guarded
      `push` of the source is one conditional append. */
  method RulesPassed(entries: seq<Entry>, streakCount: int, unlocked: seq<string>, hourOf: int -> int)
    returns (newUnlocked: seq<string>)
    ensures newUnlocked == Eligible(CheckOrder, StatsOf(entries, streakCount, hourOf), unlocked)
  {
    newUnlocked := [];

    ghost var st := StatsOf(entries, streakCount, hourOf);
    assert Eligible(CheckOrder[..0], st, unlocked) == [];

    newUnlocked := newUnlocked + (if |entries| >= 1 && "first_entry" !in unlocked then ["first_entry"] else []);
    assert newUnlocked == Eligible(CheckOrder[..1], st, unlocked) by {
      RuleTable(st);
      Extend(CheckOrder, 0, st, unlocked);
    }
    newUnlocked := newUnlocked + (if |entries| >= 10 && "ten_entries" !in unlocked then ["ten_entries"] else []);
    assert newUnlocked == Eligible(CheckOrder[..2], st, unlocked) by {
      RuleTable(st);
      Extend(CheckOrder, 1, st, unlocked);
    }
    newUnlocked := newUnlocked + (if |entries| >= 50 && "fifty_entries" !in unlocked then ["fifty_entries"] else []);
    assert newUnlocked == Eligible(CheckOrder[..3], st, unlocked) by {
      RuleTable(st);
      Extend(CheckOrder, 2, st, unlocked);
    }
    newUnlocked := newUnlocked + (if |entries| >= 100 && "hundred_entries" !in unlocked then ["hundred_entries"] else []);
    assert newUnlocked == Eligible(CheckOrder[..4], st, unlocked) by {
      RuleTable(st);
      Extend(CheckOrder, 3, st, unlocked);
    }
    newUnlocked := newUnlocked + (if streakCount >= 7 && "week_streak" !in unlocked then ["week_streak"] else []);
    assert newUnlocked == Eligible(CheckOrder[..5], st, unlocked) by {
      RuleTable(st);
      Extend(CheckOrder, 4, st, unlocked);
    }
    newUnlocked := newUnlocked + (if streakCount >= 30 && "month_streak" !in unlocked then ["month_streak"] else []);
    assert newUnlocked == Eligible(CheckOrder[..6], st, unlocked) by {
      RuleTable(st);
      Extend(CheckOrder, 5, st, unlocked);
    }
    var uniqueMoods := MoodsUsed(entries);
    newUnlocked := newUnlocked + (if |uniqueMoods| >= 6 && "all_moods" !in unlocked then ["all_moods"] else []);
    assert newUnlocked == Eligible(CheckOrder[..7], st, unlocked) by {
      RuleTable(st);
      Extend(CheckOrder, 6, st, unlocked);
    }
    var hasNightEntry := HasNightEntry(entries, hourOf);
    newUnlocked := newUnlocked + (if hasNightEntry && "night_writer" !in unlocked then ["night_writer"] else []);
    assert newUnlocked == Eligible(CheckOrder[..8], st, unlocked) by {
      RuleTable(st);
      Extend(CheckOrder, 7, st, unlocked);
    }
    assert CheckOrder[..8] == CheckOrder;
  }

  /** One more rule tested: the picks over the first `k + 1` ids. */
  lemma Extend(order: seq<string>, k: nat, st: Stats, unlocked: seq<string>)
    requires k < |order|
    ensures Eligible(order[..k + 1], st, unlocked) == Eligible(order[..k], st, unlocked)
      + (if Qualifies(order[k], st) && order[k] !in unlocked then [order[k]] else [])
  {
    assert order[..k + 1][..k] == order[..k];
  }

  /** The `forEach` that shows a notice for each new id found in the
      catalogue. */
  method Notify(ids: seq<string>) returns (notices: seq<Achievement>)
    ensures notices == Notices(Catalogue, ids)
  {
    notices := [];
    for i := 0 to |ids|
      invariant notices == Notices(Catalogue, ids[..i])
    {
      var found := FindIn(Catalogue, ids[i]);
      if found.Some? {
        notices := notices + [found.value];
      }
      assert ids[..i + 1][..i] == ids[..i];
    }
    assert ids[..|ids|] == ids;
  }

  // ---------------------------------------------------------------------------
  // Projection for display

  datatype AchievementView = AchievementView(item: Achievement, unlocked: bool, progress: int)

  /** The `switch` in `getAchievements`. */
  function Progress(id: string, entryCount: nat, streak: int, distinctMoods: nat): int {
    if id in ["first_entry", "ten_entries", "fifty_entries", "hundred_entries"] then entryCount
    else if id in ["week_streak", "month_streak"] then streak
    else if id == "all_moods" then distinctMoods
    else 0
  }

  /** `getAchievements`, given the entries, the streak and the stored list. */
  function Project(entries: seq<Entry>, streak: int, unlocked: seq<string>): (r: seq<AchievementView>)
    ensures |r| == |Catalogue|
    ensures forall i :: 0 <= i < |r| ==> r[i].item == Catalogue[i]
    ensures forall i :: 0 <= i < |r| ==> (r[i].unlocked <==> Catalogue[i].id in unlocked)
    ensures forall i :: 0 <= i < |r| && RuleOf(Catalogue[i].id).Some? && RuleOf(Catalogue[i].id).value.AtLeast? ==>
      r[i].progress == MetricOf(RuleOf(Catalogue[i].id).value.metric, entries, streak)
    ensures forall i :: 0 <= i < |r| && Catalogue[i].id == "night_writer" ==> r[i].progress == 0
  {
    seq(|Catalogue|, i requires 0 <= i < |Catalogue| =>
      AchievementView(Catalogue[i], Catalogue[i].id in unlocked,
                      Progress(Catalogue[i].id, |entries|, streak, DistinctMoodCount(entries))))
  }

  /** `getAchievements`: reads the local store and writes nothing. */
  function GetAchievements(db: LocalDb): (r: seq<AchievementView>)
    reads db
    requires db.Valid()
    ensures |r| == |Catalogue|
    ensures forall i :: 0 <= i < |r| ==>
      r[i].item == Catalogue[i] && (r[i].unlocked <==> Catalogue[i].id in StoredUnlocked(db.settings))
  {
    Project(db.GetAllEntries(), StreakOf(db.settings), StoredUnlocked(db.settings))
  }
}
