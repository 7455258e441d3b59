/** The storage router (src/lib/storage.ts): a `storageMode` setting chooses
    between the on-device store and the remote `diary_entries` table, and
    `migrateToCloud` copies the local entries across.

    The remote side is a `Remote` object: the rows the server exposes to this
    client, keyed by row id, and the signed-in user's id (`None` when there
    is no session). Whatever the server decides on its own is a parameter:
    the id and clock it assigns to an inserted row, and whether a request
    comes back with an error (`fails`). */
module Storage {
  import opened Common
  import opened Db

  /** A row of `diary_entries`. `tags` may be null. The two timestamps are
      kept as the milliseconds `new Date(...).getTime()` reads back. */
  datatype Row = Row(
    id: string,
    userId: string,
    title: string,
    content: string,
    mood: string,
    tags: Option<seq<string>>,
    date: string,
    createdAt: int,
    updatedAt: int)

  /** Why a routed operation throws. */
  datatype StoreError = Local(cause: DbError) | NotAuthenticated | RemoteError

  /** The row the server stores for an insert of `d` by `user`: it assigns
      the id and both timestamps. Reading it back gives `d` again. */
  function RowFor(d: Draft, user: string, id: string, now: int): (row: Row)
    ensures row.id == id && row.userId == user
    ensures row.createdAt == now && row.updatedAt == now
    ensures DraftOf(ToEntry(row)) == d
  {
    Row(id, user, d.title, d.content, d.mood, Some(d.tags), d.date, now, now)
  }

  /** A remote row in the local shape; a null `tags` becomes the empty list. */
  function ToEntry(row: Row): (e: Entry)
    ensures e.id == row.id && e.createdAt == row.createdAt && e.updatedAt == row.updatedAt
    ensures e.title == row.title && e.content == row.content
    ensures e.mood == row.mood && e.date == row.date
    ensures row.tags.None? ==> e.tags == []
    ensures row.tags.Some? ==> e.tags == row.tags.value
  {
    Entry(row.id, row.title, row.content, row.mood,
          if row.tags.Some? then row.tags.value else [],
          row.date, row.createdAt, row.updatedAt)
  }

  /** The cloud `update`: only the five content fields are sent, and a field
      the caller left out is not sent at all. */
  function Revise(row: Row, p: Patch): (r: Row)
    ensures r.id == row.id && r.userId == row.userId
    ensures r.createdAt == row.createdAt && r.updatedAt == row.updatedAt
    ensures ToEntry(r).title == Pick(p.title, row.title)
    ensures ToEntry(r).content == Pick(p.content, row.content)
    ensures ToEntry(r).mood == Pick(p.mood, row.mood)
    ensures ToEntry(r).date == Pick(p.date, row.date)
    ensures ToEntry(r).tags == Pick(p.tags, ToEntry(row).tags)
  {
    row.(title := Pick(p.title, row.title),
         content := Pick(p.content, row.content),
         mood := Pick(p.mood, row.mood),
         tags := if p.tags.Some? then Some(p.tags.value) else row.tags,
         date := Pick(p.date, row.date))
  }

  predicate KeyedByRowId(rows: map<string, Row>) {
    forall k :: k in rows ==> rows[k].id == k
  }

  /** Every row once, in the local shape. */
  function RowEntries(rows: map<string, Row>): (r: seq<Entry>)
    requires KeyedByRowId(rows)
    ensures |r| == |rows|
    ensures forall i :: 0 <= i < |r| ==> r[i].id in rows && r[i] == ToEntry(rows[r[i].id])
    ensures forall k :: k in rows ==> ToEntry(rows[k]) in r
  {
    var keys := SortedKeys(rows.Keys);
    SortedKeysWithin(rows.Keys);
    var r := seq(|keys|, i requires 0 <= i < |keys| => ToEntry(rows[keys[i]]));
    RowEntriesFacts(rows, keys, r);
    r
  }

  /** The rows read off the sorted keys are the table's, each once. */
  lemma RowEntriesFacts(rows: map<string, Row>, keys: seq<string>, r: seq<Entry>)
    requires KeyedByRowId(rows) && keys == SortedKeys(rows.Keys)
    requires |r| == |keys| && forall i :: 0 <= i < |keys| ==> keys[i] in rows && r[i] == ToEntry(rows[keys[i]])
    ensures forall i :: 0 <= i < |r| ==> r[i].id in rows && r[i] == ToEntry(rows[r[i].id])
    ensures forall k :: k in rows ==> ToEntry(rows[k]) in r
  {
    SortedKeysExact(rows.Keys);
    forall k | k in rows
      ensures ToEntry(rows[k]) in r
    {
      var i :| 0 <= i < |keys| && keys[i] == k;
      assert r[i] == ToEntry(rows[k]);
    }
  }

  class Remote {
    var rows: map<string, Row>
    var user: Option<string>

    ghost predicate Valid()
      reads this
    {
      KeyedByRowId(rows)
    }

    constructor (user: Option<string>)
      ensures Valid() && rows == map[] && this.user == user
    {
      rows := map[];
      this.user := user;
    }

    /** `insert(row)`: refused when the server reports an error or the id is
        taken; otherwise the row is added. */
    method Insert(row: Row, fails: bool) returns (ok: bool)
      requires Valid()
      modifies this
      ensures Valid() && user == old(user)
      ensures ok <==> !fails && row.id !in old(rows)
      ensures rows == if ok then old(rows)[row.id := row] else old(rows)
    {
      if fails || row.id in rows {
        return false;
      }
      rows := rows[row.id := row];
      ok := true;
    }

    /** `update(...).eq('id', id)`: no matching row is no error. */
    method Update(id: string, p: Patch, fails: bool) returns (ok: bool)
      requires Valid()
      modifies this
      ensures Valid() && user == old(user)
      ensures ok == !fails
      ensures rows == if ok && id in old(rows) then old(rows)[id := Revise(old(rows)[id], p)] else old(rows)
    {
      if fails {
        return false;
      }
      if id in rows {
        rows := rows[id := Revise(rows[id], p)];
      }
      ok := true;
    }

    /** `delete().eq('id', id)`: no matching row is no error. */
    method Delete(id: string, fails: bool) returns (ok: bool)
      requires Valid()
      modifies this
      ensures Valid() && user == old(user)
      ensures ok == !fails
      ensures rows == if ok then old(rows) - {id} else old(rows)
    {
      if fails {
        return false;
      }
      rows := rows - {id};
      ok := true;
    }
  }

  // ---------------------------------------------------------------------------
  // Routing

  /** `getStorageMode`: the stored mode, or `'local'` when it is absent or
      falsy. */
  function StorageMode(db: LocalDb): (m: Value)
    reads db
    ensures db.GetSetting(StorageModeKey).Some? && Truthy(db.GetSetting(StorageModeKey).value) ==>
      m == db.GetSetting(StorageModeKey).value
    ensures db.GetSetting(StorageModeKey).None? ==> m == Text("local")
    ensures db.GetSetting(StorageModeKey).Some? && !Truthy(db.GetSetting(StorageModeKey).value) ==>
      m == Text("local")
  {
    var stored := db.GetSetting(StorageModeKey);
    if stored.Some? && Truthy(stored.value) then stored.value else Text("local")
  }

  /** `mode === 'cloud'`: only the stored text `cloud` routes to the remote
      table; anything else, or nothing, is local. */
  function IsCloud(db: LocalDb): (r: bool)
    reads db
    ensures r <==> db.GetSetting(StorageModeKey) == Some(Text("cloud"))
  {
    StorageMode(db) == Text("cloud")
  }

  /** The routed `getAllEntries`. Without a session, or when the query
      reports an error, the cloud answer is the empty list. */
  function GetAllEntries(db: LocalDb, remote: Remote, fails: bool): (r: seq<Entry>)
    reads db, remote
    requires db.Valid() && remote.Valid()
    ensures !IsCloud(db) ==> r == db.GetAllEntries()
    ensures IsCloud(db) && (remote.user.None? || fails) ==> r == []
    ensures IsCloud(db) && remote.user.Some? && !fails ==>
      && |r| == |remote.rows|
      && (forall i :: 0 <= i < |r| ==> r[i].id in remote.rows && r[i] == ToEntry(remote.rows[r[i].id]))
      && (forall k :: k in remote.rows ==> ToEntry(remote.rows[k]) in r)
  {
    if !IsCloud(db) then db.GetAllEntries()
    else if remote.user.None? || fails then []
    else RowEntries(remote.rows)
  }

  /** The routed `getEntry`. The cloud branch checks no session; an error or
      a missing row both read as none. */
  function GetEntry(db: LocalDb, remote: Remote, id: string, fails: bool): (r: Option<Entry>)
    reads db, remote
    ensures !IsCloud(db) ==> r == db.GetEntry(id)
    ensures IsCloud(db) ==> (r.Some? <==> !fails && id in remote.rows)
    ensures IsCloud(db) && r.Some? ==> r.value == ToEntry(remote.rows[id])
  {
    if !IsCloud(db) then db.GetEntry(id)
    else if fails || id !in remote.rows then None
    else Some(ToEntry(remote.rows[id]))
  }

  /** The routed `addEntry`. `now` is the clock (the device's in local mode,
      the server's in cloud mode) and `serverId` the id the server assigns. */
  method AddEntry(db: LocalDb, remote: Remote, draft: Draft, now: nat, serverId: string, fails: bool)
    returns (r: Result<Entry, StoreError>)
    requires db.Valid() && remote.Valid()
    modifies db, remote
    ensures db.Valid() && remote.Valid()
    ensures db.settings == old(db.settings) && remote.user == old(remote.user)
    ensures !old(IsCloud(db)) ==>
      && remote.rows == old(remote.rows)
      && (EntryId(now) in old(db.entries) ==> r == Failure(Local(ConstraintError)) && db.entries == old(db.entries))
      && (EntryId(now) !in old(db.entries) ==>
            r == Success(NewEntry(draft, now)) && db.entries == old(db.entries)[EntryId(now) := r.value])
    ensures old(IsCloud(db)) ==> db.entries == old(db.entries)
    ensures old(IsCloud(db)) && old(remote.user).None? ==>
      r == Failure(NotAuthenticated) && remote.rows == old(remote.rows)
    ensures old(IsCloud(db)) && old(remote.user).Some? ==>
      var row := RowFor(draft, old(remote.user).value, serverId, now);
      if fails || serverId in old(remote.rows) then
        r == Failure(RemoteError) && remote.rows == old(remote.rows)
      else
        r == Success(ToEntry(row)) && remote.rows == old(remote.rows)[serverId := row]
    ensures r.Success? ==> DraftOf(r.value) == draft
    ensures r.Success? ==> GetEntry(db, remote, r.value.id, false) == Some(r.value)
  {
    if !IsCloud(db) {
      var stored := db.AddEntry(draft, now);
      r := if stored.Success? then Success(stored.value) else Failure(Local(stored.error));
      return;
    }
    if remote.user.None? {
      return Failure(NotAuthenticated);
    }
    var row := RowFor(draft, remote.user.value, serverId, now);
    var ok := remote.Insert(row, fails);
    r := if ok then Success(ToEntry(row)) else Failure(RemoteError);
  }

  /** The routed `updateEntry`. In cloud mode only the five content fields
      are sent, so an `id` or `createdAt` in the patch is ignored there. */
  method UpdateEntry(db: LocalDb, remote: Remote, id: string, updates: Patch, now: int, fails: bool)
    returns (r: Result<(), StoreError>)
    requires db.Valid() && remote.Valid()
    modifies db, remote
    ensures db.Valid() && remote.Valid()
    ensures db.settings == old(db.settings) && remote.user == old(remote.user)
    ensures !old(IsCloud(db)) ==>
      && r.Success? && remote.rows == old(remote.rows)
      && (id !in old(db.entries) ==> db.entries == old(db.entries))
      && (id in old(db.entries) ==>
            var u := Merge(old(db.entries)[id], updates, now);
            db.entries == old(db.entries)[u.id := u])
    ensures old(IsCloud(db)) ==>
      && db.entries == old(db.entries)
      && (fails ==> r == Failure(RemoteError) && remote.rows == old(remote.rows))
      && (!fails ==> r.Success?)
      && (!fails && id !in old(remote.rows) ==> remote.rows == old(remote.rows))
      && (!fails && id in old(remote.rows) ==>
            remote.rows == old(remote.rows)[id := Revise(old(remote.rows)[id], updates)])
  {
    if !IsCloud(db) {
      db.UpdateEntry(id, updates, now);
      return Success(());
    }
    var ok := remote.Update(id, updates, fails);
    r := if ok then Success(()) else Failure(RemoteError);
  }

  /** The routed `deleteEntry`. */
  method DeleteEntry(db: LocalDb, remote: Remote, id: string, fails: bool)
    returns (r: Result<(), StoreError>)
    requires db.Valid() && remote.Valid()
    modifies db, remote
    ensures db.Valid() && remote.Valid()
    ensures db.settings == old(db.settings) && remote.user == old(remote.user)
    ensures !old(IsCloud(db)) ==>
      r.Success? && remote.rows == old(remote.rows) && db.entries == old(db.entries) - {id}
    ensures old(IsCloud(db)) ==>
      && db.entries == old(db.entries)
      && (fails ==> r == Failure(RemoteError) && remote.rows == old(remote.rows))
      && (!fails ==> r.Success? && remote.rows == old(remote.rows) - {id})
    ensures r.Success? ==> GetEntry(db, remote, id, false) == None
  {
    if !IsCloud(db) {
      db.DeleteEntry(id);
      return Success(());
    }
    var ok := remote.Delete(id, fails);
    r := if ok then Success(()) else Failure(RemoteError);
  }

  // ---------------------------------------------------------------------------
  // Migration

  /** The remote table after the copy loop has offered the rows for `local`
      one by one; `serverId(i)`, `clock(i)` and `fails(i)` are what the
      server does with the `i`-th insert. A refused insert is skipped and the loop goes on. */
  function Migrated(rows: map<string, Row>, local: seq<Entry>, user: string,
                    serverId: nat -> string, fails: nat -> bool, clock: nat -> int): (r: map<string, Row>)
    ensures forall k :: k in rows ==> k in r && r[k] == rows[k]
    ensures |r| <= |rows| + |local|
    ensures KeyedByRowId(rows) ==> KeyedByRowId(r)
    decreases |local|
  {
    if local == [] then rows
    else
      var k := |local| - 1;
      var before := Migrated(rows, local[..k], user, serverId, fails, clock);
      var row := RowFor(DraftOf(local[k]), user, serverId(k), clock(k));
      if !fails(k) && row.id !in before then before[row.id := row] else before
  }

  /** One more turn of the copy loop. */
  lemma MigratedStep(rows: map<string, Row>, local: seq<Entry>, i: nat, user: string,
                     serverId: nat -> string, fails: nat -> bool, clock: nat -> int)
    requires i < |local|
    ensures var before := Migrated(rows, local[..i], user, serverId, fails, clock);
      var row := RowFor(DraftOf(local[i]), user, serverId(i), clock(i));
      Migrated(rows, local[..i + 1], user, serverId, fails, clock)
        == if !fails(i) && row.id !in before then before[row.id := row] else before
  {
    assert local[..i + 1][..i] == local[..i];
  }

  /** When every insert goes through under fresh, distinct ids, the table
      gains exactly one row per local entry, holding that entry's content. */
  lemma {:induction false} MigrateCopiesAll(rows: map<string, Row>, local: seq<Entry>, user: string,
                                            serverId: nat -> string, fails: nat -> bool, clock: nat -> int)
    requires forall i :: 0 <= i < |local| ==> !fails(i) && serverId(i) !in rows
    requires forall i, j :: 0 <= i < j < |local| ==> serverId(i) != serverId(j)
    ensures var r := Migrated(rows, local, user, serverId, fails, clock);
      && |r| == |rows| + |local|
      && (forall i :: 0 <= i < |local| ==>
            serverId(i) in r && r[serverId(i)] == RowFor(DraftOf(local[i]), user, serverId(i), clock(i)))
    decreases |local|
  {
    if local != [] {
      var k := |local| - 1;
      var init := local[..k];
      var before := Migrated(rows, init, user, serverId, fails, clock);
      var row := RowFor(DraftOf(local[k]), user, serverId(k), clock(k));
      MigrateCopiesAll(rows, init, user, serverId, fails, clock);
      assert serverId(k) !in before by {
        LastIdFresh(rows, local, user, serverId, fails, clock);
      }
      assert Migrated(rows, local, user, serverId, fails, clock) == before[serverId(k) := row] by {
        MigratedStep(rows, local, k, user, serverId, fails, clock);
        assert local[..k + 1] == local;
      }
      CopiedStep(before, local, user, serverId, clock);
    }
  }

  /** The id of the last insert is not yet taken when the earlier ones are
      distinct from it and fresh in the table. */
  lemma LastIdFresh(rows: map<string, Row>, local: seq<Entry>, user: string,
                    serverId: nat -> string, fails: nat -> bool, clock: nat -> int)
    requires local != [] && serverId(|local| - 1) !in rows
    requires forall i :: 0 <= i < |local| - 1 ==> serverId(i) != serverId(|local| - 1)
    ensures serverId(|local| - 1) !in Migrated(rows, local[..|local| - 1], user, serverId, fails, clock)
  {
    var k := |local| - 1;
    if serverId(k) in Migrated(rows, local[..k], user, serverId, fails, clock) {
      MigratedNewKeys(rows, local[..k], user, serverId, fails, clock, serverId(k));
    }
  }

  /** Adding the last copy keeps the earlier copies, whose ids differ. */
  lemma CopiedStep(before: map<string, Row>, local: seq<Entry>, user: string, serverId: nat -> string, clock: nat -> int)
    requires local != []
    requires forall i :: 0 <= i < |local| - 1 ==> serverId(i) != serverId(|local| - 1)
    requires forall i :: 0 <= i < |local| - 1 ==>
      serverId(i) in before && before[serverId(i)] == RowFor(DraftOf(local[..|local| - 1][i]), user, serverId(i), clock(i))
    ensures var k := |local| - 1;
      var r := before[serverId(k) := RowFor(DraftOf(local[k]), user, serverId(k), clock(k))];
      forall i :: 0 <= i < |local| ==> serverId(i) in r && r[serverId(i)] == RowFor(DraftOf(local[i]), user, serverId(i), clock(i))
  {
  }

  /** A key the copy loop added is the server id of one of its inserts. */
  lemma {:induction false} MigratedNewKeys(rows: map<string, Row>, local: seq<Entry>, user: string,
                                           serverId: nat -> string, fails: nat -> bool, clock: nat -> int, key: string)
    requires key in Migrated(rows, local, user, serverId, fails, clock) && key !in rows
    ensures exists j :: 0 <= j < |local| && serverId(j) == key
    decreases |local|
  {
    var k := |local| - 1;
    var init := local[..k];
    if key in Migrated(rows, init, user, serverId, fails, clock) {
      MigratedNewKeys(rows, init, user, serverId, fails, clock, key);
      var j :| 0 <= j < |init| && serverId(j) == key;
      assert 0 <= j < |local|;
    } else {
      assert serverId(k) == key;
    }
  }

  /** `migrateToCloud`. Without a session it throws before reading or
      writing anything. Otherwise every local entry, in listing order, is
      offered to the remote table with the results ignored, and the mode is
      then set to `cloud`. */
  method MigrateToCloud(db: LocalDb, remote: Remote, serverId: nat -> string, fails: nat -> bool, clock: nat -> int)
    returns (r: Result<(), StoreError>)
    requires db.Valid() && remote.Valid()
    modifies db, remote
    ensures db.Valid() && remote.Valid()
    ensures db.entries == old(db.entries) && remote.user == old(remote.user)
    ensures old(remote.user).None? ==>
      r == Failure(NotAuthenticated) && db.settings == old(db.settings) && remote.rows == old(remote.rows)
    ensures old(remote.user).Some? ==>
      && r.Success?
      && remote.rows == Migrated(old(remote.rows), old(db.GetAllEntries()), old(remote.user).value, serverId, fails, clock)
      && db.settings == old(db.settings)[StorageModeKey := Text("cloud")]
      && IsCloud(db)
  {
    if remote.user.None? {
      return Failure(NotAuthenticated);
    }
    var user := remote.user.value;
    var local := db.GetAllEntries();
    for i := 0 to |local|
      modifies remote
      invariant remote.Valid() && remote.user == old(remote.user)
      invariant remote.rows == Migrated(old(remote.rows), local[..i], user, serverId, fails, clock)
    {
      MigratedStep(old(remote.rows), local, i, user, serverId, fails, clock);
      var row := RowFor(DraftOf(local[i]), user, serverId(i), clock(i));
      var _ := remote.Insert(row, fails(i));
    }
    assert local[..|local|] == local;
    db.SetSetting(StorageModeKey, Text("cloud"));
    r := Success(());
  }

  /** The loop does not look for rows it already copied: a second run with
      fresh ids stores every local entry's content under a second id. */
  lemma MigrateTwiceDuplicates(rows: map<string, Row>, local: seq<Entry>, user: string,
                               first: nat -> string, second: nat -> string, fails: nat -> bool, clock: nat -> int)
    requires forall i :: 0 <= i < |local| ==> !fails(i) && first(i) !in rows && second(i) !in rows
    requires forall i, j :: 0 <= i < |local| && 0 <= j < |local| && i != j ==> first(i) != first(j) && second(i) != second(j)
    requires forall i, j :: 0 <= i < |local| && 0 <= j < |local| ==> first(i) != second(j)
    ensures var once := Migrated(rows, local, user, first, fails, clock);
      var twice := Migrated(once, local, user, second, fails, clock);
      && |twice| == |rows| + 2 * |local|
      && forall i :: 0 <= i < |local| ==>
           && first(i) in twice && second(i) in twice && first(i) != second(i)
           && DraftOf(ToEntry(twice[first(i)])) == DraftOf(local[i])
           && DraftOf(ToEntry(twice[second(i)])) == DraftOf(local[i])
  {
    var once := Migrated(rows, local, user, first, fails, clock);
    MigrateCopiesAll(rows, local, user, first, fails, clock);
    forall i | 0 <= i < |local|
      ensures second(i) !in once
    {
      if second(i) in once {
        MigratedNewKeys(rows, local, user, first, fails, clock, second(i));
      }
    }
    MigrateCopiesAll(once, local, user, second, fails, clock);
  }
}
