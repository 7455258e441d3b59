/** The on-device store (src/lib/db.ts): an `entries` table keyed by `id`, a
    `settings` table keyed by name, the plaintext lock-password gate and the
    day-streak counter. The browser database becomes a `LocalDb` object whose
    two tables are maps; the clock is a parameter (`now` in milliseconds,
    `today` as a day number, so the day before is `today - 1`). */
module Db {
  import opened Common

  /** One diary record. */
  datatype Entry = Entry(
    id: string,
    title: string,
    content: string,
    mood: string,
    tags: seq<string>,
    date: string,
    createdAt: int,
    updatedAt: int)

  /** What `addEntry` is given: an entry without its id and timestamps. */
  datatype Draft = Draft(title: string, content: string, mood: string, tags: seq<string>, date: string)

  /** A `Partial<DiaryEntry>` handed to `updateEntry`; `None` is a field the
      caller left out. (`updatedAt` is missing: the update overwrites it.) */
  datatype Patch = Patch(
    id: Option<string>,
    title: Option<string>,
    content: Option<string>,
    mood: Option<string>,
    tags: Option<seq<string>>,
    date: Option<string>,
    createdAt: Option<int>)

  /** A settings value. The achievements list, JSON-encoded in the browser, is
      kept as a list of strings; day numbers and counters are numbers. */
  datatype Value = Text(s: string) | Number(n: int) | Strings(items: seq<string>)

  /** The IndexedDB `add` of a key that is already present. */
  datatype DbError = ConstraintError

  const LockPasswordKey := "lockPassword"
  const StreakCountKey := "streakCount"
  const LastEntryDateKey := "lastEntryDate"
  const AchievementsKey := "achievements"
  const StorageModeKey := "storageMode"

  /** JavaScript truthiness of a stored value (`!!v`, `v || default`). */
  predicate Truthy(v: Value) {
    match v
    case Text(s) => s != ""
    case Number(n) => n != 0
    case Strings(_) => true
  }

  function SettingOf(s: map<string, Value>, key: string): (r: Option<Value>)
    ensures r.Some? <==> key in s
    ensures r.Some? ==> r.value == s[key]
  {
    if key in s then Some(s[key]) else None
  }

  // ---------------------------------------------------------------------------
  // Entries

  /** The id `addEntry` gives a record created at `now`: `entry-<now>`. */
  function EntryId(now: nat): string {
    "entry-" + NatToString(now)
  }

  /** Records created in different milliseconds get different ids, and the
      same millisecond always gives the same id. */
  lemma EntryIdInjective(a: nat, b: nat)
    ensures EntryId(a) == EntryId(b) <==> a == b
  {
    if EntryId(a) == EntryId(b) {
      assert NatToString(a) == EntryId(a)[6..];
      assert NatToString(b) == EntryId(b)[6..];
      RenderInjective(a, b);
    }
  }

  /** The editable part of an entry. */
  function DraftOf(e: Entry): Draft {
    Draft(e.title, e.content, e.mood, e.tags, e.date)
  }

  /** The record `addEntry` builds from a draft at time `now`. */
  function NewEntry(d: Draft, now: nat): (e: Entry)
    ensures e.id == EntryId(now)
    ensures e.createdAt == now && e.updatedAt == now
    ensures DraftOf(e) == d
  {
    Entry(EntryId(now), d.title, d.content, d.mood, d.tags, d.date, now, now)
  }

  function Pick<T>(supplied: Option<T>, current: T): T {
    if supplied.Some? then supplied.value else current
  }

  /** `{ ...entry, ...updates, updatedAt: now }`. */
  function Merge(e: Entry, p: Patch, now: int): (r: Entry)
    ensures r.updatedAt == now
    ensures r.id == Pick(p.id, e.id) && r.createdAt == Pick(p.createdAt, e.createdAt)
    ensures r.title == Pick(p.title, e.title) && r.content == Pick(p.content, e.content)
    ensures r.mood == Pick(p.mood, e.mood) && r.tags == Pick(p.tags, e.tags)
    ensures r.date == Pick(p.date, e.date)
  {
    Entry(Pick(p.id, e.id), Pick(p.title, e.title), Pick(p.content, e.content),
          Pick(p.mood, e.mood), Pick(p.tags, e.tags), Pick(p.date, e.date),
          Pick(p.createdAt, e.createdAt), now)
  }

  /** A patch that leaves out `id` and `createdAt` keeps the record's identity
      and creation time, and re-applying it changes only `updatedAt`. */
  lemma MergeKeepsIdentity(e: Entry, p: Patch, t1: int, t2: int)
    requires p.id.None? && p.createdAt.None?
    ensures Merge(e, p, t1).id == e.id && Merge(e, p, t1).createdAt == e.createdAt
    ensures Merge(Merge(e, p, t1), p, t2) == Merge(e, p, t2)
  {
  }

  /** The entries table keeps every record under its own `id` (the keyPath). */
  predicate KeyedById(m: map<string, Entry>) {
    forall k :: k in m ==> m[k].id == k
  }

  /** `getAll` on the entries table: every record once, by ascending key. */
  function Listing(m: map<string, Entry>): (r: seq<Entry>)
    requires KeyedById(m)
    ensures |r| == |m|
    ensures forall i :: 0 <= i < |r| ==> r[i].id in m && m[r[i].id] == r[i]
    ensures forall k :: k in m ==> m[k] in r
    ensures forall i, j :: 0 <= i < j < |r| ==> KeyLess(r[i].id, r[j].id)
  {
    var keys := SortedKeys(m.Keys);
    SortedKeysWithin(m.Keys);
    var r := seq(|keys|, i requires 0 <= i < |keys| => m[keys[i]]);
    ListingFacts(m, keys, r);
    r
  }

  /** The records read off the sorted keys are the table's, in key order. */
  lemma ListingFacts(m: map<string, Entry>, keys: seq<string>, r: seq<Entry>)
    requires KeyedById(m) && keys == SortedKeys(m.Keys)
    requires |r| == |keys| && forall i :: 0 <= i < |keys| ==> keys[i] in m && r[i] == m[keys[i]]
    ensures forall i :: 0 <= i < |r| ==> r[i].id in m && m[r[i].id] == r[i]
    ensures forall k :: k in m ==> m[k] in r
    ensures forall i, j :: 0 <= i < j < |r| ==> KeyLess(r[i].id, r[j].id)
  {
    SortedKeysExact(m.Keys);
    forall k | k in m
      ensures m[k] in r
    {
      var i :| 0 <= i < |keys| && keys[i] == k;
      assert r[i] == m[k];
    }
  }

  // ---------------------------------------------------------------------------
  // Streak

  /** `(await getSetting('streakCount')) || 0`. */
  function StreakOf(s: map<string, Value>): int {
    match SettingOf(s, StreakCountKey)
    case Some(Number(n)) => n
    case _ => 0
  }

  /** The count `updateStreak` returns on day `today`. */
  function NextStreak(s: map<string, Value>, today: int): (r: int)
    ensures SettingOf(s, LastEntryDateKey) == Some(Number(today)) ==> r == StreakOf(s)
    ensures SettingOf(s, LastEntryDateKey) == Some(Number(today - 1)) ==> r == StreakOf(s) + 1
    ensures SettingOf(s, LastEntryDateKey) !in {Some(Number(today)), Some(Number(today - 1))} ==> r == 1
  {
    var last := SettingOf(s, LastEntryDateKey);
    if last == Some(Number(today)) then StreakOf(s)
    else if last == Some(Number(today - 1)) then StreakOf(s) + 1
    else 1
  }

  /** The settings after `updateStreak` on day `today`: untouched on a day that
      already has an entry, else the new count and `lastEntryDate = today`. */
  function AfterStreak(s: map<string, Value>, today: int): (r: map<string, Value>)
    ensures StreakOf(r) == NextStreak(s, today)
    ensures SettingOf(r, LastEntryDateKey) == Some(Number(today))
    ensures forall k :: k != StreakCountKey && k != LastEntryDateKey ==> SettingOf(r, k) == SettingOf(s, k)
  {
    if SettingOf(s, LastEntryDateKey) == Some(Number(today)) then s
    else s[StreakCountKey := Number(NextStreak(s, today))][LastEntryDateKey := Number(today)]
  }

  /** A second save on the same day changes nothing. */
  lemma SameDayIdempotent(s: map<string, Value>, today: int)
    ensures AfterStreak(AfterStreak(s, today), today) == AfterStreak(s, today)
    ensures NextStreak(AfterStreak(s, today), today) == NextStreak(s, today)
  {
  }

  /** Saves on `n` consecutive days, the first of which does not continue an
      earlier run, in succession. */
  function RunDays(s: map<string, Value>, first: int, n: nat): map<string, Value>
    decreases n
  {
    if n == 0 then s else AfterStreak(RunDays(s, first, n - 1), first + n - 1)
  }

  /** A run of saves on `n` consecutive calendar days leaves a streak of `n`. */
  lemma {:induction false} ConsecutiveDays(s: map<string, Value>, first: int, n: nat)
    requires SettingOf(s, LastEntryDateKey) != Some(Number(first))
    requires SettingOf(s, LastEntryDateKey) != Some(Number(first - 1))
    requires n >= 1
    ensures StreakOf(RunDays(s, first, n)) == n
    ensures SettingOf(RunDays(s, first, n), LastEntryDateKey) == Some(Number(first + n - 1))
  {
    if n > 1 {
      ConsecutiveDays(s, first, n - 1);
    }
  }

  /** A day skipped resets the streak to 1, whatever it was. */
  lemma SkippedDayResets(s: map<string, Value>, last: int, today: int)
    requires SettingOf(s, LastEntryDateKey) == Some(Number(last))
    requires last < today - 1
    ensures StreakOf(AfterStreak(s, today)) == 1
  {
  }

  // ---------------------------------------------------------------------------
  // The store

  class LocalDb {
    var entries: map<string, Entry>
    var settings: map<string, Value>

    ghost predicate Valid()
      reads this
    {
      KeyedById(entries)
    }

    constructor ()
      ensures Valid() && entries == map[] && settings == map[]
    {
      entries := map[];
      settings := map[];
    }

    /** `getAllEntries`: every stored record exactly once, by ascending id. */
    function GetAllEntries(): (r: seq<Entry>)
      reads this
      requires Valid()
      ensures |r| == |entries|
      ensures forall i :: 0 <= i < |r| ==> r[i].id in entries && entries[r[i].id] == r[i]
      ensures forall k :: k in entries ==> entries[k] in r
      ensures forall i, j :: 0 <= i < j < |r| ==> KeyLess(r[i].id, r[j].id)
    {
      Listing(entries)
    }

    /** `getEntry`: the record stored under `id`, or none. */
    function GetEntry(id: string): (r: Option<Entry>)
      reads this
      ensures r.Some? <==> id in entries
      ensures r.Some? ==> r.value == entries[id]
    {
      if id in entries then Some(entries[id]) else None
    }

    /** `addEntry`: stores a new record under `entry-<now>` with `add`, which
        refuses a key already present instead of overwriting it. */
    method AddEntry(draft: Draft, now: nat) returns (r: Result<Entry, DbError>)
      requires Valid()
      modifies this
      ensures Valid() && settings == old(settings)
      ensures EntryId(now) in old(entries) ==> r == Failure(ConstraintError) && entries == old(entries)
      ensures EntryId(now) !in old(entries) ==>
        r == Success(NewEntry(draft, now)) && entries == old(entries)[EntryId(now) := r.value]
      ensures r.Success? ==> GetEntry(r.value.id) == Some(r.value)
    {
      var e := NewEntry(draft, now);
      if e.id in entries {
        return Failure(ConstraintError);
      }
      entries := entries[e.id := e];
      r := Success(e);
    }

    /** `updateEntry`: nothing happens for an absent id; otherwise the merged
        record is written back with `put` under its (possibly patched) id. */
    method UpdateEntry(id: string, updates: Patch, now: int)
      requires Valid()
      modifies this
      ensures Valid() && settings == old(settings)
      ensures id !in old(entries) ==> entries == old(entries)
      ensures id in old(entries) ==>
        var u := Merge(old(entries)[id], updates, now);
        entries == old(entries)[u.id := u]
      ensures id in old(entries) && updates.id.None? ==>
        && GetEntry(id) == Some(Merge(old(entries)[id], updates, now))
        && entries[id].createdAt == Pick(updates.createdAt, old(entries)[id].createdAt)
        && forall k :: k != id ==> GetEntry(k) == old(GetEntry(k))
    {
      var current := GetEntry(id);
      if current.Some? {
        var updated := Merge(current.value, updates, now);
        entries := entries[updated.id := updated];
      }
    }

    /** `deleteEntry`: removes that key only; an absent key is no error. */
    method DeleteEntry(id: string)
      requires Valid()
      modifies this
      ensures Valid() && settings == old(settings)
      ensures entries == old(entries) - {id}
      ensures GetEntry(id) == None
      ensures forall k :: k != id ==> GetEntry(k) == old(GetEntry(k))
      ensures id !in old(entries) ==> entries == old(entries)
    {
      entries := entries - {id};
    }

    /** `getSetting`: the stored value, or none for a key never set. */
    function GetSetting(key: string): (r: Option<Value>)
      reads this
      ensures r.Some? <==> key in settings
      ensures r.Some? ==> r.value == settings[key]
    {
      SettingOf(settings, key)
    }

    /** `setSetting`: `put` under `key`; other keys and all entries stay. */
    method SetSetting(key: string, value: Value)
      modifies this
      ensures entries == old(entries)
      ensures settings == old(settings)[key := value]
      ensures GetSetting(key) == Some(value)
      ensures forall k :: k != key ==> GetSetting(k) == old(GetSetting(k))
    {
      settings := settings[key := value];
    }

    /** `isLockSetup`: a truthy password is stored. */
    function IsLockSetup(): (r: bool)
      reads this
      ensures r <==> (LockPasswordKey in settings && Truthy(settings[LockPasswordKey]))
      ensures GetSetting(LockPasswordKey) == None ==> !r
      ensures GetSetting(LockPasswordKey) == Some(Text("")) ==> !r
    {
      match GetSetting(LockPasswordKey)
      case None => false
      case Some(v) => Truthy(v)
    }

    /** `setLockPassword`: stores the password as plaintext. */
    method SetLockPassword(password: string)
      modifies this
      ensures entries == old(entries)
      ensures settings == old(settings)[LockPasswordKey := Text(password)]
      ensures forall q :: VerifyLockPassword(q) <==> q == password
      ensures IsLockSetup() <==> password != ""
    {
      SetSetting(LockPasswordKey, Text(password));
    }

    /** `verifyLockPassword`: the stored value is exactly `password`; false
        when no password was ever set. */
    function VerifyLockPassword(password: string): (r: bool)
      reads this
      ensures r <==> GetSetting(LockPasswordKey) == Some(Text(password))
      ensures GetSetting(LockPasswordKey) == None ==> !r
    {
      match GetSetting(LockPasswordKey)
      case Some(Text(stored)) => stored == password
      case _ => false
    }

    /** `updateStreak` on calendar day `today`. */
    method UpdateStreak(today: int) returns (streak: int)
      modifies this
      ensures entries == old(entries)
      ensures streak == NextStreak(old(settings), today)
      ensures settings == AfterStreak(old(settings), today)
      ensures old(GetSetting(LastEntryDateKey)) == Some(Number(today)) ==> settings == old(settings)
      ensures StreakOf(settings) == streak
    {
      var lastDate := GetSetting(LastEntryDateKey);
      streak := StreakOf(settings);
      if lastDate != Some(Number(today)) {
        if lastDate == Some(Number(today - 1)) {
          streak := streak + 1;
        } else {
          streak := 1;
        }
        SetSetting(StreakCountKey, Number(streak));
        SetSetting(LastEntryDateKey, Number(today));
      }
    }
  }
}
