/**
 * The re-prompting input loops. The lines the user types are given as a
 * sequence; running out of lines stands for the source blocking on `input()`.
 */
module UserInteractions {
  import opened Wrappers
  import opened Text

  /** The acceptance test of `get_valid_index` on a parsed number. */
  predicate IsValidIndex(n: int, maxIndex: int) {
    n == 0 || 0 <= n <= maxIndex
  }

  /** A typed line is accepted when `int()` parses it to a valid index. */
  predicate AcceptsIndex(line: string, maxIndex: int) {
    ParseInt(line).Some? && IsValidIndex(ParseInt(line).value, maxIndex)
  }

  /**
   * `get_valid_index`: reads lines until one parses to an integer in
   * `0..max_index` and returns that integer; `None` when the lines run out.
   */
  method GetValidIndex(lines: seq<string>, maxIndex: int) returns (r: Option<int>)
    ensures r.Some? ==> 0 <= r.value && (r.value == 0 || r.value <= maxIndex)
    ensures r.Some? ==> exists k :: 0 <= k < |lines| && AcceptsIndex(lines[k], maxIndex) && ParseInt(lines[k]) == r
                                    && forall j :: 0 <= j < k ==> !AcceptsIndex(lines[j], maxIndex)
    ensures r.None? ==> forall j :: 0 <= j < |lines| ==> !AcceptsIndex(lines[j], maxIndex)
  {
    var i := 0;
    while i < |lines|
      invariant 0 <= i <= |lines|
      invariant forall j :: 0 <= j < i ==> !AcceptsIndex(lines[j], maxIndex)
    {
      var parsed := ParseInt(lines[i]);
      if parsed.Some? {
        var selected := parsed.value;
        if selected == 0 || 0 <= selected <= maxIndex {
          return Some(selected);
        }
      }
      i := i + 1;
    }
    return None;
  }

  /** The search results as printed: `1. <title>`, `2. <title>`, ... */
  function SearchListing<T>(titles: seq<T>): (rows: seq<(int, T)>)
    ensures |rows| == |titles|
    ensures forall i :: 0 <= i < |rows| ==> rows[i] == (i + 1, titles[i])
  {
    seq(|titles|, i requires 0 <= i < |titles| => (i + 1, titles[i]))
  }

  /**
   * `select_anime`: the answer is 0 (exit) or the 1-based number of one of
   * the listed titles.
   */
  method SelectAnime<T>(titles: seq<T>, lines: seq<string>) returns (r: Option<int>)
    ensures r.Some? ==> 0 <= r.value <= |titles|
    ensures r.Some? ==> exists k :: 0 <= k < |lines| && AcceptsIndex(lines[k], |titles|) && ParseInt(lines[k]) == r
                                    && forall j :: 0 <= j < k ==> !AcceptsIndex(lines[j], |titles|)
    ensures r.None? ==> forall j :: 0 <= j < |lines| ==> !AcceptsIndex(lines[j], |titles|)
  {
    r := GetValidIndex(lines, |titles|);
  }

  /** What `get_user_input` returns: `None` after '0', or the typed episode text. */
  datatype EpisodeAnswer = Exit | Chosen(text: string) | NoMoreInput

  /** An episode typed as digits only, within `start..max`. */
  predicate IsValidEpisodeText(line: string, startEpisode: int, maxEpisode: int) {
    IsDigits(line) && startEpisode <= DigitsValue(line) <= maxEpisode
  }

  predicate Rejected(line: string, startEpisode: int, maxEpisode: int) {
    line != "0" && !IsValidEpisodeText(line, startEpisode, maxEpisode)
  }

  /**
   * `get_user_input`: re-prompts until the line is exactly "0" (exit) or a
   * digit string for an episode in range, which is returned as typed,
   * leading zeros included.
   */
  method GetUserInput(startEpisode: int, maxEpisode: int, lines: seq<string>) returns (r: EpisodeAnswer)
    ensures r.Exit? <==> exists k :: 0 <= k < |lines| && lines[k] == "0"
                                   && forall j :: 0 <= j < k ==> Rejected(lines[j], startEpisode, maxEpisode)
    ensures r.Chosen? ==> r.text != "0" && IsValidEpisodeText(r.text, startEpisode, maxEpisode)
    ensures r.Chosen? ==> exists k :: 0 <= k < |lines| && lines[k] == r.text
                                     && forall j :: 0 <= j < k ==> Rejected(lines[j], startEpisode, maxEpisode)
    ensures r.NoMoreInput? <==> forall j :: 0 <= j < |lines| ==> Rejected(lines[j], startEpisode, maxEpisode)
  {
    var i := 0;
    while i < |lines|
      invariant 0 <= i <= |lines|
      invariant forall j :: 0 <= j < i ==> Rejected(lines[j], startEpisode, maxEpisode)
    {
      var line := lines[i];
      if line == "0" {
        return Exit;
      }
      if IsDigits(line) && startEpisode <= DigitsValue(line) <= maxEpisode {
        return Chosen(line);
      }
      i := i + 1;
    }
    return NoMoreInput;
  }

  /**
   * Leading zeros are kept and do not matter: a digit string with a `0` in
   * front is accepted exactly when the string itself is, and `GetUserInput`
   * returns whichever was typed.
   */
  lemma LeadingZerosKept(s: string, startEpisode: int, maxEpisode: int)
    ensures IsDigits(s) ==>
              (IsValidEpisodeText("0" + s, startEpisode, maxEpisode) <==> IsValidEpisodeText(s, startEpisode, maxEpisode))
  {
    if IsDigits(s) {
      var z := "0" + s;
      assert forall i :: 0 <= i < |z| ==> IsDigit(z[i]) by {
        forall i | 0 <= i < |z| ensures IsDigit(z[i]) {
          if i > 0 { assert z[i] == s[i - 1]; }
        }
      }
      DigitsValueLeadingZero(s);
    }
  }
}
