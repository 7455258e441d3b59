/** The entry editor page (src/pages/EntryEditor.tsx): the form state, the
    comma-separated tag field, and `handleSave`, which validates the form and
    then either creates an entry (followed by the streak update and the
    achievement check) or updates the one being edited. The page talks to
    the on-device store directly, not through the storage router.

    The clock is passed in: `now` in milliseconds for the new id, `today` as
    a day number for the streak, `isoDate` for the `date` field and `hourOf`
    for the achievement check. */
module EntryEditor {
  import opened Common
  import opened Db
  import opened Achievements
  import opened MoodSelector

  /** The editor's form fields; `tags` is the raw text of the tag input. */
  datatype Form = Form(title: string, content: string, mood: string, tags: string)

  const DefaultMood := "happy"

  /** The form a new entry starts from; its mood is a listed one. */
  function NewForm(): (f: Form)
    ensures f.mood == DefaultMood && FindMood(Moods, f.mood) == Some(0)
    ensures f.title == "" && f.content == "" && f.tags == ""
  {
    Form("", "", DefaultMood, "")
  }

  // ---------------------------------------------------------------------------
  // Tags

  /** `entry.tags.join(", ")`. */
  function JoinTags(tags: seq<string>): string {
    if tags == [] then ""
    else if |tags| == 1 then tags[0]
    else tags[0] + ", " + JoinTags(tags[1..])
  }

  /** Tags the field can carry unchanged: non-empty, no white space at either
      end, no comma. */
  predicate PlainTags(tags: seq<string>) {
    forall i :: 0 <= i < |tags| ==> tags[i] != "" && IsTrimmed(tags[i]) && ',' !in tags[i]
  }

  /** `.map(t => t.trim()).filter(Boolean)` over the pieces of the split. */
  function CleanTags(pieces: seq<string>): (tags: seq<string>)
    requires forall i :: 0 <= i < |pieces| ==> ',' !in pieces[i]
    ensures |tags| <= |pieces|
    ensures PlainTags(tags)
  {
    if pieces == [] then []
    else
      var t := Trim(pieces[0]);
      TrimIsTrimmed(pieces[0]);
      TrimKeepsOut(pieces[0], ',');
      (if t != "" then [t] else []) + CleanTags(pieces[1..])
  }

  /** `tags.split(",").map(t => t.trim()).filter(Boolean)`: no tag is empty,
      none has white space at either end, and none holds a comma. */
  function ParseTags(s: string): (tags: seq<string>)
    ensures PlainTags(tags)
  {
    CleanTags(Split(s, ','))
  }

  /** Trimming only cuts characters off the ends. */
  lemma TrimKeepsOut(s: string, c: char)
    requires c !in s
    ensures c !in Trim(s)
  {
    var a := TrimStart(s);
    var b := TrimEnd(a);
    assert forall i :: 0 <= i < |b| ==> b[i] == s[|s| - |a| + i];
  }

  /** A space in front of the first piece is trimmed away again. */
  lemma LeadingSpaceIgnored(x: string)
    ensures CleanTags(Split([' '] + x, ',')) == CleanTags(Split(x, ','))
  {
    var s := [' '] + x;
    assert s[1..] == x;
    var rest := Split(x, ',');
    assert Split(s, ',') == [[' '] + rest[0]] + rest[1..];
    assert ([' '] + rest[0])[1..] == rest[0];
    assert Trim([' '] + rest[0]) == Trim(rest[0]);
    assert ([[' '] + rest[0]] + rest[1..])[1..] == rest[1..];
  }

  /** The field `loadEntry` fills in parses back to the stored tags whenever
      every tag is non-empty, already trimmed and comma-free. */
  lemma {:induction false} TagsRoundTrip(tags: seq<string>)
    requires PlainTags(tags)
    ensures ParseTags(JoinTags(tags)) == tags
  {
    if tags == [] {
    } else if |tags| == 1 {
      TagsRoundTripOne(tags[0]);
      assert [tags[0]] == tags;
    } else {
      var t, rest := tags[0], tags[1..];
      assert [t] + rest == tags;
      assert PlainTags(rest) by {
        assert forall i :: 0 <= i < |rest| ==> rest[i] == tags[i + 1];
      }
      TagsRoundTrip(rest);
      ParseJoinCons(t, rest);
    }
  }

  /** A single plain tag fills the field on its own and parses back. */
  lemma TagsRoundTripOne(t: string)
    requires t != "" && IsTrimmed(t) && ',' !in t
    ensures ParseTags(JoinTags([t])) == [t]
  {
    SplitNoSeparator(t, ',');
    TrimIdentity(t);
    assert [t][1..] == [];
  }

  /** Parsing the joined field peels off a plain first tag. */
  lemma ParseJoinCons(t: string, rest: seq<string>)
    requires rest != [] && t != "" && IsTrimmed(t) && ',' !in t
    ensures ParseTags(JoinTags([t] + rest)) == [t] + ParseTags(JoinTags(rest))
  {
    var tail := JoinTags(rest);
    var pieces := Split([' '] + tail, ',');
    calc {
      ParseTags(JoinTags([t] + rest));
    ==
      CleanTags(Split(JoinTags([t] + rest), ','));
    == { JoinCons(t, rest); SplitAtSeparator(t, ',', [' '] + tail); }
      CleanTags([t] + pieces);
    == { CleanTagsCons(t, pieces); TrimIdentity(t); }
      [t] + CleanTags(pieces);
    == { LeadingSpaceIgnored(tail); }
      [t] + ParseTags(tail);
    }
  }

  lemma JoinCons(t: string, rest: seq<string>)
    requires rest != []
    ensures JoinTags([t] + rest) == t + [','] + ([' '] + JoinTags(rest))
  {
    assert ([t] + rest)[1..] == rest;
  }

  /** Cleaning works piece by piece from the front. */
  lemma CleanTagsCons(t: string, pieces: seq<string>)
    requires ',' !in t && forall i :: 0 <= i < |pieces| ==> ',' !in pieces[i]
    ensures CleanTags([t] + pieces) == (if Trim(t) != "" then [Trim(t)] else []) + CleanTags(pieces)
  {
    assert ([t] + pieces)[1..] == pieces;
  }

  // ---------------------------------------------------------------------------
  // Loading and validation

  /** `loadEntry`: the form filled from a stored entry. */
  function LoadForm(e: Entry): (f: Form)
    ensures f.title == e.title && f.content == e.content && f.mood == e.mood
    ensures f.tags == JoinTags(e.tags)
    ensures PlainTags(e.tags) ==> ParseTags(f.tags) == e.tags
  {
    var f := Form(e.title, e.content, e.mood, JoinTags(e.tags));
    if PlainTags(e.tags) then TagsRoundTrip(e.tags); f else f
  }

  /** Why a save is refused. */
  datatype Rejection = MissingTitle | MissingContent

  /** The two guards of `handleSave`, title first: a field that is only
      white space counts as empty. */
  function Validate(f: Form): (r: Option<Rejection>)
    ensures r == Some(MissingTitle) <==> forall i :: 0 <= i < |f.title| ==> IsJsSpace(f.title[i])
    ensures r == Some(MissingContent) <==>
      (exists i :: 0 <= i < |f.title| && !IsJsSpace(f.title[i]))
      && forall i :: 0 <= i < |f.content| ==> IsJsSpace(f.content[i])
    ensures r == None <==> Trim(f.title) != "" && Trim(f.content) != ""
  {
    TrimEmpty(f.title);
    TrimEmpty(f.content);
    if Trim(f.title) == "" then Some(MissingTitle)
    else if Trim(f.content) == "" then Some(MissingContent)
    else None
  }

  /** What a new entry is created from. */
  function DraftFrom(f: Form, isoDate: string): (d: Draft)
    ensures d.title == f.title && d.content == f.content && d.mood == f.mood
    ensures d.tags == ParseTags(f.tags) && d.date == isoDate
  {
    Draft(f.title, f.content, f.mood, ParseTags(f.tags), isoDate)
  }

  /** What an edit writes: the form's fields and the new date, never the id
      or the creation time. */
  function PatchFrom(f: Form, isoDate: string): (p: Patch)
    ensures p.id.None? && p.createdAt.None?
    ensures p == Patch(None, Some(f.title), Some(f.content), Some(f.mood), Some(ParseTags(f.tags)), Some(isoDate), None)
  {
    Patch(None, Some(f.title), Some(f.content), Some(f.mood), Some(ParseTags(f.tags)), Some(isoDate), None)
  }

  // ---------------------------------------------------------------------------
  // Navigation after a save

  /** The detail page of the entry `id`. */
  function ViewPath(id: string): string {
    "/view/" + id
  }

  /** What a template literal makes of a plain object. */
  const ObjectText := "[object Object]"

  /** The route `handleSave` navigates to AS WRITTEN: for a new entry the
      variable holds the whole record `addEntry` returned, so the template
      renders it as `[object Object]`; a missing route parameter renders as
      `undefined`. */
  function SavedPathAsWritten(route: Option<string>, created: Entry): string {
    if route == Some("new") then ViewPath(ObjectText)
    else if route.Some? then ViewPath(route.value)
    else ViewPath("undefined")
  }

  /** The route as written never leads to the entry just created: ids made
      by `addEntry` start with `entry-`, the rendered object with `[`. */
  lemma AsWrittenMissesNewEntry(d: Draft, now: nat)
    ensures SavedPathAsWritten(Some("new"), NewEntry(d, now)) != ViewPath(NewEntry(d, now).id)
  {
    var e := NewEntry(d, now);
    assert SavedPathAsWritten(Some("new"), e)[6] == '[';
    assert ViewPath(e.id)[6] == 'e';
  }

  /** The route as intended: the page of the entry that was saved. */
  function SavedPath(route: Option<string>, created: Entry): (path: string)
    ensures route == Some("new") ==> path == ViewPath(created.id)
    ensures route.Some? && route.value != "new" ==> path == ViewPath(route.value)
    ensures route == Some("new") ==> |path| >= 6 && path[6..] == created.id
    ensures route != Some("new") ==> path == SavedPathAsWritten(route, created)
  {
    if route == Some("new") then ViewPath(created.id)
    else SavedPathAsWritten(route, created)
  }

  // ---------------------------------------------------------------------------
  // Saving

  datatype SaveOutcome =
    | Refused(reason: Rejection)
    | StoreFailed(error: DbError)
    | Saved(path: string, notices: seq<Achievement>)

  /** `handleSave`. An invalid form changes nothing. On the `new` route the
      entry is added, then the streak is updated, then the achievements are
      checked against the entries and streak as they now stand; a refused
      `add` stops the sequence. On any other route only `updateEntry` runs. */
  method HandleSave(db: LocalDb, route: Option<string>, form: Form, now: nat, today: int,
                    isoDate: string, hourOf: int -> int)
    returns (out: SaveOutcome)
    requires db.Valid()
    modifies db
    ensures db.Valid()
    ensures Validate(form).Some? ==>
      out == Refused(Validate(form).value) && db.entries == old(db.entries) && db.settings == old(db.settings)
    ensures Validate(form).None? && route == Some("new") && EntryId(now) in old(db.entries) ==>
      out == StoreFailed(ConstraintError) && db.entries == old(db.entries) && db.settings == old(db.settings)
    ensures Validate(form).None? && route == Some("new") && EntryId(now) !in old(db.entries) ==>
      var e := NewEntry(DraftFrom(form, isoDate), now);
      var streaked := AfterStreak(old(db.settings), today);
      && db.entries == old(db.entries)[e.id := e]
      && db.settings == AfterCheck(db.GetAllEntries(), streaked, hourOf)
      && out == Saved(ViewPath(e.id), Notices(Catalogue, NewlyUnlocked(db.GetAllEntries(), streaked, hourOf)))
    ensures Validate(form).None? && route.Some? && route.value != "new" ==>
      && db.settings == old(db.settings)
      && (route.value !in old(db.entries) ==> db.entries == old(db.entries))
      && (route.value in old(db.entries) ==>
            db.entries == old(db.entries)[route.value := Merge(old(db.entries)[route.value], PatchFrom(form, isoDate), now)])
      && out == Saved(ViewPath(route.value), [])
    ensures Validate(form).None? && route.None? ==>
      db.entries == old(db.entries) && db.settings == old(db.settings) && out == Saved(ViewPath("undefined"), [])
  {
    var rejection := Validate(form);
    if rejection.Some? {
      return Refused(rejection.value);
    }
    if route == Some("new") {
      var added := db.AddEntry(DraftFrom(form, isoDate), now);
      if added.Failure? {
        return StoreFailed(added.error);
      }
      var _ := db.UpdateStreak(today);
      var notices := CheckAchievements(db, hourOf);
      out := Saved(SavedPath(route, added.value), notices);
    } else if route.Some? {
      db.UpdateEntry(route.value, PatchFrom(form, isoDate), now);
      out := Saved(SavedPath(route, NewEntry(DraftFrom(form, isoDate), now)), []);
    } else {
      out := Saved(ViewPath("undefined"), []);
    }
  }

  /** Every successful save of a new entry leaves `first_entry` unlocked,
      since the check runs after the entry is stored. */
  lemma SaveUnlocksFirstEntry(entries: seq<Entry>, s: map<string, Value>, hourOf: int -> int)
    requires |entries| >= 1
    ensures "first_entry" in StoredUnlocked(AfterCheck(entries, s, hourOf))
  {
    RuleTable(StatsOf(entries, StreakOf(s), hourOf));
    CheckUnlocksEverythingEarned(entries, s, hourOf, "first_entry");
  }
}
