/**
 * The watch tracker: a table of titles, each with its list of episode
 * numbers and a watched flag, changed in place and written back to the
 * JSON file after every change.
 */
module TrackerOperations {
  import opened Wrappers

  /** `{'episode': n, 'watched': b}` */
  datatype Episode = Episode(episode: int, watched: bool)

  /** `{'title': t, 'episodes': [...]}` */
  datatype Anime = Anime(title: string, episodes: seq<Episode>)

  /** The tracker's JSON file as `read_json_file` finds it. */
  datatype StoredFile =
    | Missing                   // FileNotFoundError
    | Undecodable               // json.JSONDecodeError
    | Unreadable                // any other error, re-raised
    | Stored(list: seq<Anime>)  // a decoded list

  /**
   * The list `read_json_file` leaves in the tracker: the stored list, or an
   * empty one when the file is missing or not valid JSON; `Err` for the
   * other errors it re-raises.
   */
  function ReadJsonFile(f: StoredFile): (r: Result<seq<Anime>, string>)
    ensures r.Err? <==> f.Unreadable?
    ensures r.Ok? && !f.Stored? ==> r.value == []
    ensures f.Stored? ==> r == Ok(f.list)
  {
    match f
    case Missing => Ok([])
    case Undecodable => Ok([])
    case Unreadable => Err("Error reading JSON file")
    case Stored(list) => Ok(list)
  }

  /** `[{'episode': n, 'watched': False} for n in range(lo, hi + 1)]` */
  function EpisodeRange(lo: int, hi: int): (r: seq<Episode>)
    ensures |r| == if lo <= hi then hi - lo + 1 else 0
    ensures forall k :: 0 <= k < |r| ==> r[k] == Episode(lo + k, false)
  {
    if lo > hi then [] else seq(hi - lo + 1, k requires 0 <= k <= hi - lo => Episode(lo + k, false))
  }

  /** Episode numbers ascend one by one from the first. */
  predicate Contiguous(eps: seq<Episode>) {
    forall k :: 0 <= k < |eps| ==> eps[k].episode == eps[0].episode + k
  }

  /** `max(ep['episode'] for ep in episodes)`; an empty list makes Python raise. */
  function MaxEpisode(eps: seq<Episode>): (m: int)
    requires |eps| > 0
    ensures exists k :: 0 <= k < |eps| && eps[k].episode == m
    ensures forall k :: 0 <= k < |eps| ==> eps[k].episode <= m
  {
    if |eps| == 1 then eps[0].episode
    else
      var rest := MaxEpisode(eps[1..]);
      var k :| 0 <= k < |eps[1..]| && eps[1..][k].episode == rest;
      assert eps[k + 1].episode == rest;
      if eps[0].episode > rest then eps[0].episode else rest
  }

  /** `update_anime`'s effect on one record. */
  function MarkInAnime(a: Anime, name: string, n: int): (r: Anime)
    ensures r.title == a.title && |r.episodes| == |a.episodes|
    ensures forall k :: 0 <= k < |a.episodes| ==> r.episodes[k].episode == a.episodes[k].episode
    ensures forall k :: 0 <= k < |a.episodes| ==>
              r.episodes[k].watched == (a.episodes[k].watched || (a.title == name && a.episodes[k].episode == n))
  {
    if a.title != name then a
    else
      var eps := a.episodes;
      a.(episodes := seq(|eps|, k requires 0 <= k < |eps| =>
                           if eps[k].episode == n then eps[k].(watched := true) else eps[k]))
  }

  /** `update_anime`'s effect on the table: only entries matching both title and number are flagged. */
  function MarkWatched(list: seq<Anime>, name: string, n: int): (r: seq<Anime>)
    ensures |r| == |list|
    ensures forall i :: 0 <= i < |list| ==> r[i] == MarkInAnime(list[i], name, n)
  {
    seq(|list|, i requires 0 <= i < |list| => MarkInAnime(list[i], name, n))
  }

  /** Some record of the title holds the episode number: `update_anime` saves exactly then. */
  predicate HasEpisode(list: seq<Anime>, name: string, n: int) {
    exists i, k :: 0 <= i < |list| && 0 <= k < |list[i].episodes| && list[i].title == name && list[i].episodes[k].episode == n
  }

  /** Whether `check_for_new_episodes` extends this record. */
  predicate Grows(a: Anime, name: string, maxEpisode: int) {
    a.title == name && |a.episodes| > 0 && MaxEpisode(a.episodes) < maxEpisode
  }

  /**
   * `check_for_new_episodes` on one record: when the title matches and its
   * highest number is below `maxEpisode`, appends the missing numbers as
   * unwatched; the entries already there are kept as they are.
   */
  function ExtendAnime(a: Anime, name: string, maxEpisode: int): (r: Anime)
    ensures r.title == a.title
    ensures |a.episodes| <= |r.episodes| && r.episodes[..|a.episodes|] == a.episodes
    ensures forall k :: |a.episodes| <= k < |r.episodes| ==> !r.episodes[k].watched
    ensures !Grows(a, name, maxEpisode) ==> r == a
    ensures Grows(a, name, maxEpisode) ==> r.episodes[|a.episodes|..] == EpisodeRange(MaxEpisode(a.episodes) + 1, maxEpisode)
  {
    if Grows(a, name, maxEpisode) then
      a.(episodes := a.episodes + EpisodeRange(MaxEpisode(a.episodes) + 1, maxEpisode))
    else a
  }

  /**
   * A grown record gains `maxEpisode - max` entries, numbered one by one from
   * its old maximum plus one, all unwatched.
   */
  lemma ExtendAppendsNextNumbers(a: Anime, name: string, maxEpisode: int)
    requires Grows(a, name, maxEpisode)
    ensures var r := ExtendAnime(a, name, maxEpisode);
            && |r.episodes| == |a.episodes| + maxEpisode - MaxEpisode(a.episodes)
            && forall k :: |a.episodes| <= k < |r.episodes| ==>
                 r.episodes[k] == Episode(MaxEpisode(a.episodes) + 1 + k - |a.episodes|, false)
  {
    var r := ExtendAnime(a, name, maxEpisode);
    var added := r.episodes[|a.episodes|..];
    forall k | |a.episodes| <= k < |r.episodes|
      ensures r.episodes[k] == Episode(MaxEpisode(a.episodes) + 1 + k - |a.episodes|, false)
    {
      assert r.episodes[k] == added[k - |a.episodes|];
    }
  }

  /** Index of the first record of the title with no episodes, or the table's length when none. */
  function FirstEmptyIndex(list: seq<Anime>, name: string): (r: nat)
    ensures r <= |list|
    ensures r < |list| ==> list[r].title == name && list[r].episodes == []
    ensures forall i :: 0 <= i < r ==> !(list[i].title == name && list[i].episodes == [])
  {
    if |list| == 0 then 0
    else if list[0].title == name && list[0].episodes == [] then 0
    else 1 + FirstEmptyIndex(list[1..], name)
  }

  /** Index of the first record of the title, or the table's length when none. */
  function FindTitle(list: seq<Anime>, name: string): (r: nat)
    ensures r <= |list|
    ensures r < |list| ==> list[r].title == name
    ensures forall i :: 0 <= i < r ==> list[i].title != name
  {
    if |list| == 0 then 0
    else if list[0].title == name then 0
    else 1 + FindTitle(list[1..], name)
  }

  /** The table after `check_for_new_episodes` has dealt with the records before index `k`. */
  function ExtendUpTo(list: seq<Anime>, name: string, maxEpisode: int, k: nat): (r: seq<Anime>)
    ensures |r| == |list|
  {
    seq(|list|, i requires 0 <= i < |list| => if i < k then ExtendAnime(list[i], name, maxEpisode) else list[i])
  }

  predicate AnyGrows(list: seq<Anime>, name: string, maxEpisode: int, k: nat) {
    exists i :: 0 <= i < k && i < |list| && Grows(list[i], name, maxEpisode)
  }

  /** An entry `get_watched_list` reports: unwatched and within `lo..hi`. */
  predicate Pending(e: Episode, lo: int, hi: int) {
    !e.watched && lo <= e.episode <= hi
  }

  /**
   * The list comprehension of `get_watched_list`: the numbers in `lo..hi`
   * that are not watched, in stored order.
   */
  function Unwatched(eps: seq<Episode>, lo: int, hi: int): (r: seq<int>)
    ensures forall x :: x in r ==> lo <= x <= hi
    ensures forall x :: x in r <==> exists k :: 0 <= k < |eps| && eps[k].episode == x && Pending(eps[k], lo, hi)
  {
    if |eps| == 0 then []
    else
      var rest := Unwatched(eps[1..], lo, hi);
      var r := if Pending(eps[0], lo, hi) then [eps[0].episode] + rest else rest;
      assert forall x :: x in r <==> exists k :: 0 <= k < |eps| && eps[k].episode == x && Pending(eps[k], lo, hi) by {
        forall x
          ensures x in r <==> exists k :: 0 <= k < |eps| && eps[k].episode == x && Pending(eps[k], lo, hi)
        {
          if x in rest {
            var k :| 0 <= k < |eps[1..]| && eps[1..][k].episode == x && Pending(eps[1..][k], lo, hi);
            assert eps[k + 1] == eps[1..][k];
          }
          if exists k :: 0 <= k < |eps| && eps[k].episode == x && Pending(eps[k], lo, hi) {
            var k :| 0 <= k < |eps| && eps[k].episode == x && Pending(eps[k], lo, hi);
            if k > 0 {
              assert eps[1..][k - 1] == eps[k];
            }
          }
        }
      }
      r
  }

  /** The comprehension goes entry by entry: stored order and repetitions are kept. */
  lemma {:induction false} UnwatchedAppend(a: seq<Episode>, b: seq<Episode>, lo: int, hi: int)
    ensures Unwatched(a + b, lo, hi) == Unwatched(a, lo, hi) + Unwatched(b, lo, hi)
  {
    if |a| == 0 {
      assert a + b == b;
    } else {
      assert (a + b)[0] == a[0];
      assert (a + b)[1..] == a[1..] + b;
      UnwatchedAppend(a[1..], b, lo, hi);
    }
  }

  /** One entry contributes its number exactly when it is pending. */
  lemma UnwatchedOne(e: Episode, lo: int, hi: int)
    ensures Unwatched([e], lo, hi) == if Pending(e, lo, hi) then [e.episode] else []
  {
    assert [e][1..] == [];
  }

  /** The tracker: the in-memory table and the file it is saved to. */
  class EpisodeTracker {
    var episodeList: seq<Anime>
    var file: StoredFile

    /**
     * `__init__` followed by `read_json_file`: a missing file is created
     * holding an empty list; an undecodable one is left alone and the table
     * starts empty.
     */
    constructor (f: StoredFile)
      requires ReadJsonFile(f).Ok?
      ensures episodeList == ReadJsonFile(f).value
      ensures file == if f.Missing? then Stored([]) else f
    {
      match f {
        case Missing =>
          episodeList := [];
          file := Stored([]);
        case Undecodable =>
          episodeList := [];
          file := f;
        case Stored(list) =>
          episodeList := list;
          file := f;
      }
    }

    /** `save_json_file`: the file now holds the table. */
    method SaveJsonFile()
      modifies this`file
      ensures file == Stored(episodeList)
    {
      file := Stored(episodeList);
    }

    /** `add_anime`: appends one record with the episodes `lo..hi`, all unwatched, then saves. */
    method AddAnime(name: string, lo: int, hi: int)
      modifies this
      ensures episodeList == old(episodeList) + [Anime(name, EpisodeRange(lo, hi))]
      ensures file == Stored(episodeList)
    {
      episodeList := episodeList + [Anime(name, EpisodeRange(lo, hi))];
      SaveJsonFile();
    }

    /**
     * `update_anime`: flags as watched every entry with the title and the
     * number, saving after each; the table keeps its shape.
     */
    method UpdateAnime(name: string, n: int)
      modifies this
      ensures episodeList == MarkWatched(old(episodeList), name, n)
      ensures file == if HasEpisode(old(episodeList), name, n) then Stored(episodeList) else old(file)
    {
      ghost var start := episodeList;
      ghost var target := MarkWatched(start, name, n);
      var i := 0;
      while i < |episodeList|
        invariant 0 <= i <= |episodeList| == |start|
        invariant episodeList[..i] == target[..i] && episodeList[i..] == start[i..]
        invariant file == if HasEpisode(start[..i], name, n) then Stored(episodeList) else old(file)
      {
        assert episodeList[i] == start[i] && episodeList[i + 1..] == start[i + 1..] by {
          assert episodeList[i..][0] == start[i..][0];
          assert episodeList[i + 1..] == episodeList[i..][1..];
        }
        ghost var prev := episodeList;
        if episodeList[i].title == name {
          MarkRecord(i, name, n);
        } else {
          HasEpisodeNoTitle(start[i], name, n);
        }
        assert episodeList == prev[i := target[i]];
        assert episodeList[i + 1..] == prev[i + 1..];
        HasEpisodeSnoc(start, i, name, n);
        assert episodeList[..i + 1] == target[..i + 1];
        i := i + 1;
      }
      assert start[..i] == start;
    }

    /**
     * The inner loop of `update_anime` on record `i`, whose title matches:
     * every entry with the number is flagged, saving after each.
     */
    method MarkRecord(i: nat, name: string, n: int)
      requires i < |episodeList| && episodeList[i].title == name
      modifies this
      ensures episodeList == old(episodeList)[i := MarkInAnime(old(episodeList)[i], name, n)]
      ensures file == if HasEpisode([old(episodeList)[i]], name, n) then Stored(episodeList) else old(file)
      ensures !HasEpisode([old(episodeList)[i]], name, n) ==> episodeList == old(episodeList)
    {
      ghost var a := episodeList[i];
      ghost var target := MarkInAnime(a, name, n);
      assert a.episodes[..0] == [];
      var j := 0;
      while j < |episodeList[i].episodes|
        invariant i < |episodeList| == |old(episodeList)|
        invariant 0 <= j <= |episodeList[i].episodes| == |a.episodes|
        invariant episodeList == old(episodeList)[i := episodeList[i]]
        invariant episodeList[i].title == name
        invariant episodeList[i].episodes[..j] == target.episodes[..j]
        invariant episodeList[i].episodes[j..] == a.episodes[j..]
        invariant file == if HasEpisode([a.(episodes := a.episodes[..j])], name, n) then Stored(episodeList) else old(file)
        invariant !HasEpisode([a.(episodes := a.episodes[..j])], name, n) ==> episodeList == old(episodeList)
      {
        ghost var before := a.(episodes := a.episodes[..j]);
        ghost var after := a.(episodes := a.episodes[..j + 1]);
        assert after.episodes[j] == a.episodes[j];
        HasEpisodeOne(before, after, name, n);
        var eps := episodeList[i].episodes;
        if eps[j].episode == n {
          episodeList := episodeList[i := episodeList[i].(episodes := eps[j := eps[j].(watched := true)])];
          SaveJsonFile();
        }
        assert episodeList[i].episodes[j + 1..] == a.episodes[j..][1..];
        j := j + 1;
      }
      assert episodeList[i].episodes == target.episodes;
      assert a.episodes[..j] == a.episodes;
    }

    /**
     * The body of `check_for_new_episodes`'s loop for record `i`: a record
     * of the title whose highest number is below `maxEpisode` gets the
     * missing numbers appended, and the table is saved.
     */
    method ExtendRecord(i: nat, name: string, maxEpisode: int)
      requires i < |episodeList|
      requires !(episodeList[i].title == name && |episodeList[i].episodes| == 0)
      modifies this
      ensures episodeList == old(episodeList)[i := ExtendAnime(old(episodeList)[i], name, maxEpisode)]
      ensures file == if Grows(old(episodeList)[i], name, maxEpisode) then Stored(episodeList) else old(file)
    {
      var anime := episodeList[i];
      if anime.title == name {
        var currentMax := MaxEpisode(anime.episodes);
        if currentMax < maxEpisode {
          episodeList := episodeList[i := anime.(episodes := anime.episodes + EpisodeRange(currentMax + 1, maxEpisode))];
          SaveJsonFile();
        }
      }
    }

    /**
     * `check_for_new_episodes`: extends every record of the title whose
     * highest number is below `maxEpisode`, saving after each. A record of
     * the title with no episodes makes `max()` raise: the records before it
     * stay extended and `ok` is false.
     */
    method CheckForNewEpisodes(name: string, maxEpisode: int) returns (ok: bool)
      modifies this
      ensures ok <==> FirstEmptyIndex(old(episodeList), name) == |old(episodeList)|
      ensures episodeList == ExtendUpTo(old(episodeList), name, maxEpisode, FirstEmptyIndex(old(episodeList), name))
      ensures file == if AnyGrows(old(episodeList), name, maxEpisode, FirstEmptyIndex(old(episodeList), name))
                      then Stored(episodeList) else old(file)
    {
      ghost var start := episodeList;
      ghost var stop := FirstEmptyIndex(start, name);
      var i := 0;
      while i < |episodeList|
        invariant 0 <= i <= stop && |episodeList| == |start|
        invariant episodeList == ExtendUpTo(start, name, maxEpisode, i)
        invariant file == if AnyGrows(start, name, maxEpisode, i) then Stored(episodeList) else old(file)
      {
        var anime := episodeList[i];
        assert anime == start[i];
        if anime.title == name && |anime.episodes| == 0 {
          return false;
        }
        ExtendUpToStep(start, name, maxEpisode, i);
        AnyGrowsStep(start, name, maxEpisode, i);
        ExtendRecord(i, name, maxEpisode);
        i := i + 1;
      }
      return true;
    }

    /**
     * `get_watched_list`: for a known title, first extends the table up to
     * `hi`, then returns the unwatched numbers in `lo..hi` of the first
     * record of the title. An unknown title gets a new record with the
     * episodes `lo..hi`, and the answer is the empty list.
     */
    method GetWatchedList(name: string, lo: int, hi: int) returns (r: Result<seq<int>, string>)
      modifies this
      ensures var idx := FindTitle(old(episodeList), name);
              idx == |old(episodeList)| ==>
                && episodeList == old(episodeList) + [Anime(name, EpisodeRange(lo, hi))]
                && file == Stored(episodeList)
                && r == Ok([])
      ensures var idx := FindTitle(old(episodeList), name);
              var stop := FirstEmptyIndex(old(episodeList), name);
              idx < |old(episodeList)| ==>
                && episodeList == ExtendUpTo(old(episodeList), name, hi, stop)
                && (r.Ok? <==> stop == |old(episodeList)|)
                && file == (if AnyGrows(old(episodeList), name, hi, stop) then Stored(episodeList) else old(file))
                && (r.Ok? ==> r.value == Unwatched(episodeList[idx].episodes, lo, hi))
    {
      var i := 0;
      while i < |episodeList|
        invariant 0 <= i <= |episodeList|
        invariant episodeList == old(episodeList)
        invariant forall j :: 0 <= j < i ==> episodeList[j].title != name
      {
        if episodeList[i].title == name {
          assert FindTitle(old(episodeList), name) == i by {
            FindTitleIsFirst(old(episodeList), name, i);
          }
          var ok := CheckForNewEpisodes(name, hi);
          if !ok {
            return Err("max() arg is an empty sequence");
          }
          return Ok(Unwatched(episodeList[i].episodes, lo, hi));
        }
        i := i + 1;
      }
      assert FindTitle(old(episodeList), name) == |old(episodeList)| by {
        FindTitleIsFirst(old(episodeList), name, |old(episodeList)|);
      }
      AddAnime(name, lo, hi);
      return Ok([]);
    }
  }

  lemma ExtendUpToStep(list: seq<Anime>, name: string, maxEpisode: int, i: nat)
    requires i < |list|
    ensures ExtendUpTo(list, name, maxEpisode, i + 1) == ExtendUpTo(list, name, maxEpisode, i)[i := ExtendAnime(list[i], name, maxEpisode)]
  {
  }

  lemma AnyGrowsStep(list: seq<Anime>, name: string, maxEpisode: int, i: nat)
    requires i < |list|
    ensures AnyGrows(list, name, maxEpisode, i + 1) <==> AnyGrows(list, name, maxEpisode, i) || Grows(list[i], name, maxEpisode)
  {
  }

  lemma FindTitleIsFirst(list: seq<Anime>, name: string, i: nat)
    requires i <= |list|
    requires i < |list| ==> list[i].title == name
    requires forall j :: 0 <= j < i ==> list[j].title != name
    ensures FindTitle(list, name) == i
  {
    if i > 0 && list[0].title != name {
      FindTitleIsFirst(list[1..], name, i - 1);
    }
  }

  lemma HasEpisodeOne(before: Anime, after: Anime, name: string, n: int)
    requires after.title == before.title
    requires |after.episodes| == |before.episodes| + 1
    requires after.episodes[..|before.episodes|] == before.episodes
    ensures HasEpisode([after], name, n) <==>
              HasEpisode([before], name, n) || (after.title == name && after.episodes[|before.episodes|].episode == n)
  {
    if HasEpisode([after], name, n) {
      var i, k :| 0 <= i < 1 && 0 <= k < |[after][i].episodes| && [after][i].title == name && [after][i].episodes[k].episode == n;
      if k < |before.episodes| {
        assert [before][0].episodes[k] == after.episodes[k];
      }
    }
    if HasEpisode([before], name, n) {
      var i, k :| 0 <= i < 1 && 0 <= k < |[before][i].episodes| && [before][i].title == name && [before][i].episodes[k].episode == n;
      assert [after][0].episodes[k] == before.episodes[k];
    }
    if after.title == name && after.episodes[|before.episodes|].episode == n {
      assert [after][0].episodes[|before.episodes|].episode == n;
    }
  }

  lemma HasEpisodeNoTitle(a: Anime, name: string, n: int)
    requires a.title != name
    ensures !HasEpisode([a], name, n)
  {
  }

  lemma HasEpisodeSnoc(list: seq<Anime>, i: nat, name: string, n: int)
    requires i < |list|
    ensures HasEpisode(list[..i + 1], name, n) <==> HasEpisode(list[..i], name, n) || HasEpisode([list[i]], name, n)
  {
    var pre := list[..i + 1];
    if HasEpisode(pre, name, n) {
      var j, k :| 0 <= j < |pre| && 0 <= k < |pre[j].episodes| && pre[j].title == name && pre[j].episodes[k].episode == n;
      if j < i {
        assert list[..i][j] == pre[j];
      } else {
        assert [list[i]][0] == pre[j];
      }
    }
    if HasEpisode(list[..i], name, n) {
      var j, k :| 0 <= j < i && 0 <= k < |list[..i][j].episodes| && list[..i][j].title == name && list[..i][j].episodes[k].episode == n;
      assert pre[j] == list[..i][j];
    }
    if HasEpisode([list[i]], name, n) {
      var j, k :| 0 <= j < 1 && 0 <= k < |[list[i]][j].episodes| && [list[i]][j].title == name && [list[i]][j].episodes[k].episode == n;
      assert pre[i] == list[i];
    }
  }

  // ---------------------------------------------------------------------
  // Properties of the tracker's operations
  // ---------------------------------------------------------------------

  /** Every record numbers its episodes one by one, as `add_anime` creates them. */
  predicate AllContiguous(list: seq<Anime>) {
    forall i :: 0 <= i < |list| ==> Contiguous(list[i].episodes)
  }

  lemma MaxOfContiguous(eps: seq<Episode>)
    requires |eps| > 0 && Contiguous(eps)
    ensures MaxEpisode(eps) == eps[|eps| - 1].episode
  {
    var m := MaxEpisode(eps);
    var k :| 0 <= k < |eps| && eps[k].episode == m;
    assert eps[|eps| - 1].episode <= m;
  }

  /** A fresh record's numbers run from `lo` to `hi`, none watched. */
  lemma AddedRecordIsFresh(lo: int, hi: int)
    ensures Contiguous(EpisodeRange(lo, hi))
    ensures forall k :: 0 <= k < |EpisodeRange(lo, hi)| ==> !EpisodeRange(lo, hi)[k].watched
    ensures lo <= hi ==> EpisodeRange(lo, hi)[0].episode == lo && EpisodeRange(lo, hi)[hi - lo].episode == hi
    ensures lo > hi ==> EpisodeRange(lo, hi) == []
  {
  }

  /** Extending a contiguous record keeps it contiguous, and then it ends at `maxEpisode`. */
  lemma {:induction false} ExtendKeepsContiguous(a: Anime, name: string, maxEpisode: int)
    requires Contiguous(a.episodes)
    ensures Contiguous(ExtendAnime(a, name, maxEpisode).episodes)
    ensures Grows(a, name, maxEpisode) ==>
              var eps := ExtendAnime(a, name, maxEpisode).episodes;
              eps[|eps| - 1].episode == maxEpisode
  {
    if Grows(a, name, maxEpisode) {
      var old_ := a.episodes;
      MaxOfContiguous(old_);
      var added := EpisodeRange(MaxEpisode(old_) + 1, maxEpisode);
      var eps := old_ + added;
      assert ExtendAnime(a, name, maxEpisode).episodes == eps;
      forall k | 0 <= k < |eps|
        ensures eps[k].episode == eps[0].episode + k
      {
        if k >= |old_| {
          assert eps[k] == added[k - |old_|];
        }
      }
    }
  }

  /** After one extension to `maxEpisode`, a second one changes nothing. */
  lemma ExtendIsIdempotent(a: Anime, name: string, maxEpisode: int)
    ensures ExtendAnime(ExtendAnime(a, name, maxEpisode), name, maxEpisode) == ExtendAnime(a, name, maxEpisode)
  {
    if Grows(a, name, maxEpisode) {
      var b := ExtendAnime(a, name, maxEpisode);
      var added := EpisodeRange(MaxEpisode(a.episodes) + 1, maxEpisode);
      assert b.episodes == a.episodes + added;
      assert b.episodes[|b.episodes| - 1] == added[|added| - 1];
      assert MaxEpisode(b.episodes) >= maxEpisode;
    }
  }

  /** `check_for_new_episodes` keeps every record contiguous. */
  lemma ExtendUpToKeepsContiguous(list: seq<Anime>, name: string, maxEpisode: int, k: nat)
    requires AllContiguous(list)
    ensures AllContiguous(ExtendUpTo(list, name, maxEpisode, k))
  {
    forall i | 0 <= i < |list|
      ensures Contiguous(ExtendUpTo(list, name, maxEpisode, k)[i].episodes)
    {
      ExtendKeepsContiguous(list[i], name, maxEpisode);
    }
  }

  /** `update_anime` keeps every record contiguous. */
  lemma MarkWatchedKeepsContiguous(list: seq<Anime>, name: string, n: int)
    requires AllContiguous(list)
    ensures AllContiguous(MarkWatched(list, name, n))
  {
    var r := MarkWatched(list, name, n);
    forall i | 0 <= i < |list|
      ensures Contiguous(r[i].episodes)
    {
      assert r[i] == MarkInAnime(list[i], name, n);
    }
  }

  /** `add_anime` keeps every record contiguous. */
  lemma AddKeepsContiguous(list: seq<Anime>, name: string, lo: int, hi: int)
    requires AllContiguous(list)
    ensures AllContiguous(list + [Anime(name, EpisodeRange(lo, hi))])
  {
  }

  /** Marking an episode twice is the same as marking it once. */
  lemma MarkWatchedIsIdempotent(list: seq<Anime>, name: string, n: int)
    ensures MarkWatched(MarkWatched(list, name, n), name, n) == MarkWatched(list, name, n)
  {
    var once := MarkWatched(list, name, n);
    var twice := MarkWatched(once, name, n);
    forall i | 0 <= i < |list|
      ensures twice[i] == once[i]
    {
      assert twice[i].episodes == once[i].episodes by {
        forall k | 0 <= k < |once[i].episodes|
          ensures twice[i].episodes[k] == once[i].episodes[k]
        {
        }
      }
    }
  }

  /**
   * After `update_anime(title, n)` the number `n` is no longer reported by
   * `get_watched_list` for that record, and every other number is reported
   * exactly as before.
   */
  lemma MarkedIsNotPending(a: Anime, n: int, lo: int, hi: int, x: int)
    ensures x in Unwatched(MarkInAnime(a, a.title, n).episodes, lo, hi) <==>
              x in Unwatched(a.episodes, lo, hi) && x != n
  {
    var marked := MarkInAnime(a, a.title, n).episodes;
    if x in Unwatched(marked, lo, hi) {
      var k :| 0 <= k < |marked| && marked[k].episode == x && Pending(marked[k], lo, hi);
      assert a.episodes[k].episode == x && Pending(a.episodes[k], lo, hi);
    }
    if x in Unwatched(a.episodes, lo, hi) && x != n {
      var k :| 0 <= k < |a.episodes| && a.episodes[k].episode == x && Pending(a.episodes[k], lo, hi);
      assert marked[k].episode == x && Pending(marked[k], lo, hi);
    }
  }

  /**
   * A title added with an empty range (`lo > hi`) leaves a record that makes
   * every later `check_for_new_episodes` for it fail.
   */
  lemma EmptyRecordBlocksChecks(list: seq<Anime>, name: string, lo: int, hi: int)
    requires lo > hi
    ensures FirstEmptyIndex(list + [Anime(name, EpisodeRange(lo, hi))], name) < |list| + 1
  {
    var l := list + [Anime(name, EpisodeRange(lo, hi))];
    assert l[|list|].title == name && l[|list|].episodes == [];
  }

  /**
   * A record of the title with no episodes stays in the table through every
   * later `update_anime`, `check_for_new_episodes` and `add_anime`, so every
   * later check of that title fails.
   */
  lemma EmptyRecordPersists(list: seq<Anime>, name: string, other: string, n: int, maxEpisode: int, k: nat, added: Anime)
    requires FirstEmptyIndex(list, name) < |list|
    ensures FirstEmptyIndex(MarkWatched(list, other, n), name) < |list|
    ensures FirstEmptyIndex(ExtendUpTo(list, other, maxEpisode, k), name) < |list|
    ensures FirstEmptyIndex(list + [added], name) < |list|
  {
    var i := FirstEmptyIndex(list, name);
    var marked := MarkWatched(list, other, n);
    assert marked[i].title == name && marked[i].episodes == [];
    var extended := ExtendUpTo(list, other, maxEpisode, k);
    assert extended[i] == list[i];
    var appended := list + [added];
    assert appended[i] == list[i];
  }
}
