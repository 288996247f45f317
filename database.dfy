/**
 * The rules the title store applies on top of MongoDB: the search filter
 * and ranking of `find_anime`, the keep-first rule of `delete_duplicates`
 * and the empty-data guard of `insert_to_db`. The collection is a list of
 * documents held by an object.
 */
module Database {
  import opened Wrappers
  import opened Text

  /** A search result: `find_anime` projects each document to its title and link. */
  datatype AnimeDoc = AnimeDoc(title: string, link: string)

  /**
   * `create_regex_pattern(input)` is `.*<escaped input>.*` with IGNORECASE:
   * a title matches when the input, taken literally, occurs in it ignoring case.
   */
  predicate MatchesPattern(input: string, title: string) {
    Contains(Lower(title), Lower(input))
  }

  /** The first sort key: the title starts with the input, ignoring case. */
  predicate StartsWithInput(input: string, title: string) {
    StartsWith(Lower(title), Lower(input))
  }

  /** Python's ordering of two strings: code point by code point, a proper prefix first. */
  predicate StrLe(a: string, b: string) {
    if |a| == 0 then true
    else if |b| == 0 then false
    else if a[0] != b[0] then a[0] < b[0]
    else StrLe(a[1..], b[1..])
  }

  lemma {:induction false} StrLeTotal(a: string, b: string)
    ensures StrLe(a, b) || StrLe(b, a)
  {
    if |a| > 0 && |b| > 0 && a[0] == b[0] {
      StrLeTotal(a[1..], b[1..]);
    }
  }

  lemma {:induction false} StrLeTransitive(a: string, b: string, c: string)
    requires StrLe(a, b) && StrLe(b, c)
    ensures StrLe(a, c)
  {
    if |a| > 0 && |b| > 0 && |c| > 0 && a[0] == b[0] && b[0] == c[0] {
      StrLeTransitive(a[1..], b[1..], c[1..]);
    }
  }

  /**
   * The sort key `(not title.lower().startswith(input.lower()), title)`,
   * compared as Python compares tuples (`False < True`).
   */
  predicate KeyLe(input: string, x: AnimeDoc, y: AnimeDoc) {
    var px, py := StartsWithInput(input, x.title), StartsWithInput(input, y.title);
    if px != py then px else StrLe(x.title, y.title)
  }

  lemma KeyLeTotal(input: string, x: AnimeDoc, y: AnimeDoc)
    ensures KeyLe(input, x, y) || KeyLe(input, y, x)
  {
    StrLeTotal(x.title, y.title);
  }

  lemma KeyLeTransitive(input: string, x: AnimeDoc, y: AnimeDoc, z: AnimeDoc)
    requires KeyLe(input, x, y) && KeyLe(input, y, z)
    ensures KeyLe(input, x, z)
  {
    if StartsWithInput(input, x.title) == StartsWithInput(input, y.title) == StartsWithInput(input, z.title) {
      StrLeTransitive(x.title, y.title, z.title);
    }
  }

  ghost predicate SortedByKey(input: string, s: seq<AnimeDoc>) {
    forall i, j :: 0 <= i < j < |s| ==> KeyLe(input, s[i], s[j])
  }

  /** Places `x` in front of the first element it does not follow. */
  function Insert(input: string, x: AnimeDoc, s: seq<AnimeDoc>): (r: seq<AnimeDoc>)
    requires SortedByKey(input, s)
    ensures multiset(r) == multiset(s) + multiset{x}
    ensures SortedByKey(input, r)
  {
    if |s| == 0 then [x]
    else if KeyLe(input, x, s[0]) then
      InsertFront(input, x, s);
      [x] + s
    else
      assert s == [s[0]] + s[1..];
      var tail := Insert(input, x, s[1..]);
      InsertBehind(input, x, s, tail);
      [s[0]] + tail
  }

  lemma InsertFront(input: string, x: AnimeDoc, s: seq<AnimeDoc>)
    requires SortedByKey(input, s) && |s| > 0 && KeyLe(input, x, s[0])
    ensures SortedByKey(input, [x] + s)
  {
    var r := [x] + s;
    forall i, j | 0 <= i < j < |r| ensures KeyLe(input, r[i], r[j]) {
      if i == 0 && j > 1 {
        KeyLeTransitive(input, x, s[0], s[j - 1]);
      }
    }
  }

  lemma InsertBehind(input: string, x: AnimeDoc, s: seq<AnimeDoc>, tail: seq<AnimeDoc>)
    requires SortedByKey(input, s) && |s| > 0 && !KeyLe(input, x, s[0])
    requires multiset(tail) == multiset(s[1..]) + multiset{x}
    requires SortedByKey(input, tail)
    ensures SortedByKey(input, [s[0]] + tail)
  {
    KeyLeTotal(input, x, s[0]);
    forall k | 0 <= k < |tail| ensures KeyLe(input, s[0], tail[k]) {
      assert tail[k] in multiset(tail);
      if tail[k] != x {
        assert tail[k] in multiset(s[1..]);
        var j :| 0 <= j < |s[1..]| && s[1..][j] == tail[k];
        assert s[j + 1] == tail[k];
      }
    }
    var r := [s[0]] + tail;
    forall i, j | 0 <= i < j < |r| ensures KeyLe(input, r[i], r[j]) {
      if i == 0 {
        assert r[j] == tail[j - 1];
      } else {
        assert r[i] == tail[i - 1] && r[j] == tail[j - 1];
      }
    }
  }

  /** `animes.sort(key=...)`: an ordering of the documents by the sort key. */
  function SortByKey(input: string, s: seq<AnimeDoc>): (r: seq<AnimeDoc>)
    ensures multiset(r) == multiset(s)
    ensures SortedByKey(input, r)
  {
    if |s| == 0 then []
    else
      assert s == [s[0]] + s[1..];
      Insert(input, s[0], SortByKey(input, s[1..]))
  }

  /** The documents the regex query returns, in collection order. */
  function MatchingDocs(input: string, docs: seq<AnimeDoc>): (r: seq<AnimeDoc>)
    ensures forall d :: d in r <==> d in docs && MatchesPattern(input, d.title)
    ensures forall d :: multiset(r)[d] == if MatchesPattern(input, d.title) then multiset(docs)[d] else 0
  {
    if |docs| == 0 then []
    else
      assert docs == [docs[0]] + docs[1..];
      var rest := MatchingDocs(input, docs[1..]);
      if MatchesPattern(input, docs[0].title) then [docs[0]] + rest else rest
  }

  /** The query goes document by document, so the matches keep collection order. */
  lemma {:induction false} MatchingDocsAppend(input: string, a: seq<AnimeDoc>, b: seq<AnimeDoc>)
    ensures MatchingDocs(input, a + b) == MatchingDocs(input, a) + MatchingDocs(input, b)
  {
    if |a| == 0 {
      assert a + b == b;
    } else {
      assert (a + b)[0] == a[0];
      assert (a + b)[1..] == a[1..] + b;
      MatchingDocsAppend(input, a[1..], b);
    }
  }

  /**
   * `find_anime`: the matching documents, those whose title starts with the
   * input first, each group in ascending title order; `None` when nothing matches.
   */
  function FindAnime(input: string, docs: seq<AnimeDoc>): (r: Option<seq<AnimeDoc>>)
    ensures r.None? <==> forall d :: d in docs ==> !MatchesPattern(input, d.title)
    ensures r.Some? ==> multiset(r.value) == multiset(MatchingDocs(input, docs))
    ensures r.Some? ==> forall d :: d in r.value ==> MatchesPattern(input, d.title)
    ensures r.Some? ==> forall i, j :: 0 <= i < j < |r.value| && StartsWithInput(input, r.value[j].title)
                          ==> StartsWithInput(input, r.value[i].title)
    ensures r.Some? ==> forall i, j :: 0 <= i < j < |r.value|
                          && StartsWithInput(input, r.value[i].title) == StartsWithInput(input, r.value[j].title)
                          ==> StrLe(r.value[i].title, r.value[j].title)
  {
    var matched := MatchingDocs(input, docs);
    if |matched| == 0 then
      None
    else
      assert matched[0] in matched;
      var sorted := SortByKey(input, matched);
      assert forall d :: d in sorted ==> d in multiset(matched);
      SortedRanksPrefixFirst(input, sorted);
      Some(sorted)
  }

  /** In key order, prefix matches come first and each group is in title order. */
  lemma SortedRanksPrefixFirst(input: string, s: seq<AnimeDoc>)
    requires SortedByKey(input, s)
    ensures forall i, j :: 0 <= i < j < |s| && StartsWithInput(input, s[j].title) ==> StartsWithInput(input, s[i].title)
    ensures forall i, j :: 0 <= i < j < |s| && StartsWithInput(input, s[i].title) == StartsWithInput(input, s[j].title)
              ==> StrLe(s[i].title, s[j].title)
  {
    forall i, j | 0 <= i < j < |s| ensures KeyLe(input, s[i], s[j]) {
    }
  }

  /** A stored document: its `_id` and its title. */
  datatype StoredDoc = StoredDoc(id: nat, title: string)

  /** One group of the duplicate pipeline: every `_id` sharing one title, in collection order. */
  datatype DuplicateGroup = DuplicateGroup(title: string, ids: seq<nat>)
  {
    /** `ids[1:]` as a set: the ids of this group that are deleted. */
    function Extras(): (r: set<nat>)
      ensures forall k :: 1 <= k < |ids| ==> ids[k] in r
      ensures forall x :: x in r ==> exists k :: 1 <= k < |ids| && ids[k] == x
    {
      set k | 1 <= k < |ids| :: ids[k]
    }

    /** The tail slice the source passes to `delete_many`, which holds exactly the extras. */
    function Tail(): (t: seq<nat>)
      ensures forall x :: x in t <==> x in Extras()
    {
      if |ids| > 0 then
        var t := ids[1..];
        assert forall x | x in t :: exists k :: 0 <= k < |t| && t[k] == x;
        assert forall k :: 0 <= k < |t| ==> t[k] == ids[k + 1];
        t
      else []
    }
  }

  /** The ids `delete_duplicates` removes: all of each group's ids but the first. */
  function ExtraIds(groups: seq<DuplicateGroup>): (r: set<nat>)
    ensures forall g, k :: 0 <= g < |groups| && 1 <= k < |groups[g].ids| ==> groups[g].ids[k] in r
  {
    if |groups| == 0 then {}
    else
      ExtraIds(groups[..|groups| - 1]) + groups[|groups| - 1].Extras()
  }

  lemma ExtraIdsPrefix(groups: seq<DuplicateGroup>, i: nat)
    requires i < |groups|
    ensures ExtraIds(groups[..i + 1]) == ExtraIds(groups[..i]) + groups[i].Extras()
  {
    assert groups[..i + 1][..i] == groups[..i];
    assert groups[..i + 1][i] == groups[i];
  }

  /** The documents left after deleting every document whose id is in `ids`. */
  function Without(docs: seq<StoredDoc>, ids: set<nat>): (r: seq<StoredDoc>)
    ensures forall d :: d in r <==> d in docs && d.id !in ids
  {
    if |docs| == 0 then []
    else
      assert docs == [docs[0]] + docs[1..];
      (if docs[0].id in ids then [] else [docs[0]]) + Without(docs[1..], ids)
  }

  lemma {:induction false} WithoutTwice(docs: seq<StoredDoc>, a: set<nat>, b: set<nat>)
    ensures Without(Without(docs, a), b) == Without(docs, a + b)
  {
    if |docs| > 0 {
      var rest := Without(docs[1..], a);
      WithoutTwice(docs[1..], a, b);
      if docs[0].id in a {
        assert Without(docs, a) == rest;
      } else {
        assert Without(docs, a) == [docs[0]] + rest;
        assert ([docs[0]] + rest)[1..] == rest;
      }
    }
  }

  /** Deletion goes document by document, so the survivors keep their order. */
  lemma {:induction false} WithoutAppend(a: seq<StoredDoc>, b: seq<StoredDoc>, ids: set<nat>)
    ensures Without(a + b, ids) == Without(a, ids) + Without(b, ids)
  {
    if |a| == 0 {
      assert a + b == b;
    } else {
      assert (a + b)[0] == a[0];
      assert (a + b)[1..] == a[1..] + b;
      WithoutAppend(a[1..], b, ids);
    }
  }

  /** One document survives exactly when its id is not deleted. */
  lemma WithoutOne(d: StoredDoc, ids: set<nat>)
    ensures Without([d], ids) == if d.id in ids then [] else [d]
  {
    assert [d][1..] == [];
  }

  lemma WithoutNothing(docs: seq<StoredDoc>)
    ensures Without(docs, {}) == docs
  {
  }

  /** No id occurs at two positions across the groups. */
  predicate GroupsDisjoint(groups: seq<DuplicateGroup>) {
    forall g, h, k, l ::
      (0 <= g < |groups| && 0 <= h < |groups| && 0 <= k < |groups[g].ids| && 0 <= l < |groups[h].ids|
       && (g != h || k != l)) ==> groups[g].ids[k] != groups[h].ids[l]
  }

  /**
   * Keep-first: when no id appears twice across the groups (the pipeline
   * groups by title, so each id lands in one group once), the first id of
   * every group survives the deletion.
   */
  lemma FirstIdIsKept(groups: seq<DuplicateGroup>, g: nat)
    requires GroupsDisjoint(groups)
    requires g < |groups| && |groups[g].ids| > 0
    ensures groups[g].ids[0] !in ExtraIds(groups)
  {
    NotAnExtraId(groups, groups[g].ids[0]);
  }

  /** An id that sits at no position after a group's first is not deleted. */
  lemma {:induction false} NotAnExtraId(groups: seq<DuplicateGroup>, id: nat)
    requires forall g, k :: 0 <= g < |groups| && 1 <= k < |groups[g].ids| ==> groups[g].ids[k] != id
    ensures id !in ExtraIds(groups)
  {
    if |groups| > 0 {
      var init := groups[..|groups| - 1];
      forall g, k | 0 <= g < |init| && 1 <= k < |init[g].ids| ensures init[g].ids[k] != id {
        assert init[g] == groups[g];
      }
      NotAnExtraId(init, id);
    }
  }

  /** The title collection, changed in place by inserts and deletes. */
  class Collection {
    var docs: seq<StoredDoc>

    constructor (initial: seq<StoredDoc>)
      ensures docs == initial
    {
      docs := initial;
    }

    /** `delete_many({'_id': {'$in': ids}})`. */
    method DeleteMany(ids: set<nat>)
      modifies this
      ensures docs == Without(old(docs), ids)
    {
      docs := Without(docs, ids);
    }

    /** `insert_many(data)`. */
    method InsertMany(data: seq<StoredDoc>)
      modifies this
      ensures docs == old(docs) + data
    {
      docs := docs + data;
    }
  }

  /**
   * `delete_duplicates`: for each group, deletes every id but the first.
   * Afterwards the collection is the old one without the extra ids.
   */
  method DeleteDuplicates(collection: Collection, groups: seq<DuplicateGroup>)
    modifies collection
    ensures collection.docs == Without(old(collection.docs), ExtraIds(groups))
  {
    var i := 0;
    ghost var before := collection.docs;
    WithoutNothing(before);
    while i < |groups|
      invariant 0 <= i <= |groups|
      invariant collection.docs == Without(before, ExtraIds(groups[..i]))
    {
      var extra := Members(groups[i].Tail());
      DeleteStep(before, groups, i, extra);
      collection.DeleteMany(extra);
      i := i + 1;
    }
    assert groups[..i] == groups;
  }

  /** The set of the ids listed in `s`, as `$in` reads a list. */
  function Members(s: seq<nat>): (r: set<nat>)
    ensures forall x :: x in r <==> x in s
  {
    set x | x in s
  }

  /** One round of the loop: deleting a group's tail extends the deleted ids by its extras. */
  lemma DeleteStep(before: seq<StoredDoc>, groups: seq<DuplicateGroup>, i: nat, extra: set<nat>)
    requires i < |groups|
    requires extra == Members(groups[i].Tail())
    ensures Without(Without(before, ExtraIds(groups[..i])), extra) == Without(before, ExtraIds(groups[..i + 1]))
  {
    assert extra == groups[i].Extras();
    WithoutTwice(before, ExtraIds(groups[..i]), extra);
    ExtraIdsPrefix(groups, i);
  }

  /** `insert_to_db`: inserts the documents, and does nothing at all when there are none. */
  method InsertToDb(collection: Collection, data: seq<StoredDoc>)
    modifies collection
    ensures collection.docs == old(collection.docs) + data
    ensures data == [] ==> unchanged(collection)
  {
    if |data| > 0 {
      collection.InsertMany(data);
    }
  }
}
