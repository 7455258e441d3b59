/** The mood table and its emoji lookup (src/components/MoodSelector.tsx). */
module MoodSelector {
  import opened Common

  datatype Mood = Mood(emoji: string, value: string, caption: string)

  /** `MOODS`, in display order. */
  const Moods: seq<Mood> := [
    Mood("\U{1F60A}", "happy", "Happy"),
    Mood("\U{1F614}", "sad", "Sad"),
    Mood("\U{1F621}", "angry", "Angry"),
    Mood("\U{1F60C}", "calm", "Calm"),
    Mood("\U{1F630}", "anxious", "Anxious"),
    Mood("\U{1F634}", "tired", "Tired"),
    Mood("\U{1F929}", "excited", "Excited"),
    Mood("\U{1F610}", "neutral", "Neutral")
  ]

  /** The emoji shown for a mood the table does not list: happy's. */
  const DefaultEmoji := "\U{1F60A}"

  /** `Array.prototype.find` on the mood value: the first row that has it. */
  function FindMood(ms: seq<Mood>, v: string): (r: Option<nat>)
    ensures r.Some? ==> r.value < |ms| && ms[r.value].value == v
    ensures r.Some? ==> forall i :: 0 <= i < r.value ==> ms[i].value != v
    ensures r.None? ==> forall i :: 0 <= i < |ms| ==> ms[i].value != v
  {
    if ms == [] then None
    else if ms[0].value == v then Some(0)
    else
      var rest := FindMood(ms[1..], v);
      if rest.Some? then Some(rest.value + 1) else None
  }

  /** `getMoodEmoji`: the listed mood's emoji, or the default; either way one
      of the table's emojis. */
  function GetMoodEmoji(mood: string): (e: string)
    ensures forall i :: 0 <= i < |Moods| && Moods[i].value == mood ==> e == Moods[i].emoji
    ensures (forall i :: 0 <= i < |Moods| ==> Moods[i].value != mood) ==> e == DefaultEmoji
    ensures exists i :: 0 <= i < |Moods| && e == Moods[i].emoji
  {
    MoodTable();
    var found := FindMood(Moods, mood);
    if found.Some? && Moods[found.value].emoji != "" then Moods[found.value].emoji
    else
      assert Moods[0].emoji == DefaultEmoji;
      DefaultEmoji
  }

  /** Eight moods, no value listed twice, no empty emoji, and the default is
      the first row's. */
  lemma MoodTable()
    ensures |Moods| == 8
    ensures forall i, j :: 0 <= i < j < |Moods| ==> Moods[i].value != Moods[j].value
    ensures forall i :: 0 <= i < |Moods| ==> Moods[i].emoji != ""
    ensures Moods[0].value == "happy" && Moods[0].emoji == DefaultEmoji
  {
    forall i, j | 0 <= i < j < |Moods|
      ensures Moods[i].value != Moods[j].value
    {
      assert Moods[i].value[..2] != Moods[j].value[..2] || Moods[i].value[2] != Moods[j].value[2];
    }
  }
}
