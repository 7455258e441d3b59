/** The dashboard's derived views (src/pages/Dashboard.tsx): the loaded
    entries newest first, the search filter over title and content, and the
    plain-text preview of an entry's rich-text content. */
module Dashboard {
  import opened Common
  import opened Db

  // ---------------------------------------------------------------------------
  // Newest first: `allEntries.sort((a, b) => b.createdAt - a.createdAt)`.
  // `Array.prototype.sort` is stable, so entries created in the same
  // millisecond keep their loaded order.

  predicate NewestFirst(s: seq<Entry>) {
    forall i, j :: 0 <= i < j < |s| ==> s[i].createdAt >= s[j].createdAt
  }

  /** Places `x` in front of the first entry that is not newer than it. */
  function Insert(x: Entry, t: seq<Entry>): (r: seq<Entry>)
    ensures |r| == |t| + 1 && multiset(r) == multiset(t) + multiset{x}
    ensures r[0] == x || (t != [] && r[0] == t[0])
  {
    if t == [] || t[0].createdAt <= x.createdAt then [x] + t
    else
      assert t == [t[0]] + t[1..];
      [t[0]] + Insert(x, t[1..])
  }

  lemma {:induction false} InsertSorted(x: Entry, t: seq<Entry>)
    requires NewestFirst(t)
    ensures NewestFirst(Insert(x, t))
  {
    if t == [] || t[0].createdAt <= x.createdAt {
      ConsSorted(x, t);
    } else {
      var rest := Insert(x, t[1..]);
      assert NewestFirst(t[1..]);
      InsertSorted(x, t[1..]);
      forall j | 0 <= j < |rest|
        ensures rest[j].createdAt <= t[0].createdAt
      {
        assert rest[j] in multiset(rest);
        if rest[j] != x {
          assert rest[j] in multiset(t[1..]);
          var k :| 0 <= k < |t[1..]| && t[1..][k] == rest[j];
          assert t[k + 1] == rest[j];
        }
      }
      ConsSorted(t[0], rest);
    }
  }

  /** An entry no older than every entry of a newest-first list can go in
      front of it. */
  lemma ConsSorted(x: Entry, t: seq<Entry>)
    requires NewestFirst(t)
    requires forall j :: 0 <= j < |t| ==> t[j].createdAt <= x.createdAt
    ensures NewestFirst([x] + t)
  {
    var r := [x] + t;
    forall i, j | 0 <= i < j < |r|
      ensures r[i].createdAt >= r[j].createdAt
    {
      assert r[j] == t[j - 1];
      if i > 0 { assert r[i] == t[i - 1]; }
    }
  }

  /** The loaded entries, newest first: sorted, and a permutation of the
      input. */
  function SortNewest(s: seq<Entry>): (r: seq<Entry>)
    ensures NewestFirst(r)
    ensures |r| == |s| && multiset(r) == multiset(s)
  {
    if s == [] then []
    else
      assert s == [s[0]] + s[1..];
      InsertSorted(s[0], SortNewest(s[1..]));
      Insert(s[0], SortNewest(s[1..]))
  }

  /** The entries created at `t`, in their order in `s`. */
  function CreatedAt(s: seq<Entry>, t: int): seq<Entry> {
    if s == [] then []
    else (if s[0].createdAt == t then [s[0]] else []) + CreatedAt(s[1..], t)
  }

  lemma {:induction false} InsertStable(x: Entry, s: seq<Entry>, t: int)
    requires NewestFirst(s)
    ensures CreatedAt(Insert(x, s), t) == (if x.createdAt == t then [x] else []) + CreatedAt(s, t)
  {
    if s == [] || s[0].createdAt <= x.createdAt {
      assert ([x] + s)[1..] == s;
    } else {
      var r := Insert(x, s);
      assert r == [s[0]] + Insert(x, s[1..]);
      InsertStable(x, s[1..], t);
      assert CreatedAt(r, t) == (if s[0].createdAt == t then [s[0]] else []) + CreatedAt(Insert(x, s[1..]), t);
      assert CreatedAt(s, t) == (if s[0].createdAt == t then [s[0]] else []) + CreatedAt(s[1..], t);
    }
  }

  /** The sort is stable: among entries with the same creation time, the
      loaded order survives. */
  lemma {:induction false} SortStable(s: seq<Entry>, t: int)
    ensures CreatedAt(SortNewest(s), t) == CreatedAt(s, t)
  {
    if s != [] {
      SortStable(s[1..], t);
      InsertStable(s[0], SortNewest(s[1..]), t);
    }
  }

  // ---------------------------------------------------------------------------
  // Search

  /** `toLowerCase` on the ASCII letters. */
  function LowerChar(c: char): char {
    if 'A' <= c <= 'Z' then (c as int + 32) as char else c
  }

  function Lower(s: string): (r: string)
    ensures |r| == |s| && forall i :: 0 <= i < |s| ==> r[i] == LowerChar(s[i])
  {
    seq(|s|, i requires 0 <= i < |s| => LowerChar(s[i]))
  }

  /** The search predicate: the lowered title or the lowered content holds
      the lowered query. */
  predicate Matches(e: Entry, query: string) {
    Includes(Lower(e.title), Lower(query)) || Includes(Lower(e.content), Lower(query))
  }

  /** `entries.filter(...)` with the search predicate. */
  function Search(s: seq<Entry>, query: string): (r: seq<Entry>)
    ensures |r| <= |s|
    ensures forall e :: e in r <==> e in s && Matches(e, query)
  {
    if s == [] then []
    else (if Matches(s[0], query) then [s[0]] else []) + Search(s[1..], query)
  }

  /** `a` is `b` with some elements dropped, order kept. */
  predicate IsSubsequence(a: seq<Entry>, b: seq<Entry>)
    decreases |b|
  {
    if a == [] then true
    else if b == [] then false
    else (a[0] == b[0] && IsSubsequence(a[1..], b[1..])) || IsSubsequence(a, b[1..])
  }

  /** The search only drops entries; the order on the dashboard is kept. */
  lemma {:induction false} SearchKeepsOrder(s: seq<Entry>, query: string)
    ensures IsSubsequence(Search(s, query), s)
  {
    if s != [] {
      SearchKeepsOrder(s[1..], query);
      var r := Search(s, query);
      if Matches(s[0], query) {
        assert r[0] == s[0] && r[1..] == Search(s[1..], query);
      } else {
        assert r == Search(s[1..], query);
        SubsequenceOfTail(r, s);
      }
    }
  }

  lemma {:induction false} SubsequenceOfTail(a: seq<Entry>, b: seq<Entry>)
    requires b != [] && IsSubsequence(a, b[1..])
    ensures IsSubsequence(a, b)
  {
  }

  /** An empty search box shows every entry. */
  lemma {:induction false} EmptyQueryKeepsAll(s: seq<Entry>)
    ensures Search(s, "") == s
  {
    if s != [] {
      IncludesEmpty(Lower(s[0].title));
      assert Lower("") == "";
      EmptyQueryKeepsAll(s[1..]);
    }
  }

  /** Case does not matter: a query and its lowered form select the same
      entries. */
  lemma {:induction false} SearchIgnoresCase(s: seq<Entry>, query: string)
    ensures Search(s, Lower(query)) == Search(s, query)
  {
    assert Lower(Lower(query)) == Lower(query);
    if s != [] {
      SearchIgnoresCase(s[1..], query);
    }
  }

  // ---------------------------------------------------------------------------
  // Preview: `entry.content.replace(/<[^>]*>/g, '').substring(0, 150)` and a
  // literal `...` after it.

  /** The position of the first `>` in `s`, if any. */
  function CloseAt(s: string): (r: Option<nat>)
    ensures r.Some? ==> r.value < |s| && s[r.value] == '>' && '>' !in s[..r.value]
    ensures r.None? ==> '>' !in s
  {
    if s == [] then None
    else if s[0] == '>' then Some(0)
    else
      var rest := CloseAt(s[1..]);
      if rest.Some? then
        assert s[..rest.value + 1] == [s[0]] + s[1..][..rest.value];
        Some(rest.value + 1)
      else None
  }

  /** The global replace of `<[^>]*>`: scanning left to right, a `<` with a
      `>` somewhere after it starts a match that runs to the first such `>`
      and is removed; a `<` with no `>` after it stays. */
  function StripTags(s: string): (r: string)
    ensures |r| <= |s|
    ensures forall c :: c in r ==> c in s
    ensures forall i, j :: 0 <= i < j < |r| && r[i] == '<' ==> r[j] != '>'
    ensures '<' !in s ==> r == s
    decreases |s|
  {
    if s == [] then []
    else
      var close := CloseAt(s);
      if s[0] == '<' && close.Some? then StripTags(s[close.value + 1..])
      else [s[0]] + StripTags(s[1..])
  }

  /** Text with no `>` has no complete tag, so it is left as it is. */
  lemma {:induction false} StripWithoutClose(s: string)
    requires '>' !in s
    ensures StripTags(s) == s
    decreases |s|
  {
    if s != [] {
      assert '>' !in s[1..] by {
        forall c | c in s[1..] ensures c != '>' { assert c in s; }
      }
      StripWithoutClose(s[1..]);
    }
  }

  /** A character that does not open a tag is kept, in place. */
  lemma StripPlainHead(s: string)
    requires s != [] && s[0] != '<'
    ensures StripTags(s) == [s[0]] + StripTags(s[1..])
  {
  }

  /** A complete tag `<t>` at the front is removed, and the text after it is
      stripped in turn. */
  lemma StripTagRun(t: string, b: string)
    requires '>' !in t
    ensures StripTags(['<'] + t + ['>'] + b) == StripTags(b)
  {
    var s := ['<'] + t + ['>'] + b;
    var close := CloseAt(s);
    assert s[|t| + 1] == '>';
    assert close.Some?;
    forall i | 1 <= i <= |t|
      ensures s[i] != '>'
    {
      assert s[i] == t[i - 1] && t[i - 1] in t;
    }
    assert close.value == |t| + 1;
    assert s[|t| + 2..] == b;
  }

  const PreviewLength := 150

  /** The preview line: at most 150 characters of the stripped text, then
      `...`. */
  function Preview(content: string): (p: string)
    ensures 3 <= |p| <= PreviewLength + 3 && p[|p| - 3..] == "..."
    ensures |p| == (if |StripTags(content)| <= PreviewLength then |StripTags(content)| else PreviewLength) + 3
    ensures var text := StripTags(content);
      |p| - 3 <= |text| && p[..|p| - 3] == text[..|p| - 3] && (|text| <= PreviewLength ==> p[..|p| - 3] == text)
    ensures forall i, j :: 0 <= i < j < |p| - 3 && p[i] == '<' ==> p[j] != '>'
  {
    var text := StripTags(content);
    var shown := if |text| <= PreviewLength then text else text[..PreviewLength];
    assert shown == text[..|shown|];
    shown + "..."
  }
}
