/**
 * The string transforms and the episode-range fold of the anime page
 * helpers. The browser calls that produce their inputs are not modelled.
 */
module WebOperations {
  import opened Wrappers
  import opened Text

  /** The characters the name formatter deletes: `:` `;` `\` `[` `]`. */
  predicate IsRemovedSymbol(c: char) {
    c == ':' || c == ';' || c == '\\' || c == '[' || c == ']'
  }

  /** What one character of a title becomes in its page slug. */
  function SlugChar(c: char): char {
    if c == ' ' then '-' else LowerChar(c)
  }

  /** Deletes every removed symbol, keeping the rest in order. */
  function RemoveSymbols(s: string): (r: string)
    ensures |r| <= |s|
    ensures forall i :: 0 <= i < |r| ==> !IsRemovedSymbol(r[i])
    ensures forall c :: c in r ==> c in s
  {
    if |s| == 0 then []
    else if IsRemovedSymbol(s[0]) then RemoveSymbols(s[1..])
    else [s[0]] + RemoveSymbols(s[1..])
  }

  /**
   * `format_anime_name`: spaces become `-`, letters are lowered, the symbols
   * `:;\[]` are deleted. The result is a slug with none of those characters.
   */
  function FormatAnimeName(name: string): (r: string)
    ensures forall i :: 0 <= i < |r| ==> r[i] != ' ' && !IsUpper(r[i]) && !IsRemovedSymbol(r[i])
    ensures |r| <= |name|
  {
    var dashed := seq(|name|, i requires 0 <= i < |name| => if name[i] == ' ' then '-' else name[i]);
    var lowered := Lower(dashed);
    assert forall c :: c in lowered ==> c != ' ' && !IsUpper(c);
    var r := RemoveSymbols(lowered);
    assert forall i :: 0 <= i < |r| ==> r[i] in r;
    r
  }

  lemma {:induction false} RemoveSymbolsAppend(a: string, b: string)
    ensures RemoveSymbols(a + b) == RemoveSymbols(a) + RemoveSymbols(b)
  {
    if |a| > 0 {
      assert (a + b)[1..] == a[1..] + b;
      RemoveSymbolsAppend(a[1..], b);
    } else {
      assert a + b == b;
    }
  }

  /**
   * The formatter works character by character: on a concatenation it is the
   * concatenation of the two results, and one character is either deleted or
   * mapped to its slug character.
   */
  lemma {:induction false} FormatAnimeNameAppend(a: string, b: string)
    ensures FormatAnimeName(a + b) == FormatAnimeName(a) + FormatAnimeName(b)
  {
    var da := seq(|a|, i requires 0 <= i < |a| => if a[i] == ' ' then '-' else a[i]);
    var db := seq(|b|, i requires 0 <= i < |b| => if b[i] == ' ' then '-' else b[i]);
    var ab := a + b;
    var dab := seq(|ab|, i requires 0 <= i < |ab| => if ab[i] == ' ' then '-' else ab[i]);
    assert dab == da + db;
    assert Lower(dab) == Lower(da) + Lower(db);
    RemoveSymbolsAppend(Lower(da), Lower(db));
  }

  lemma FormatAnimeNameChar(c: char)
    ensures FormatAnimeName([c]) == if IsRemovedSymbol(c) then [] else [SlugChar(c)]
  {
  }

  /** A string already in slug form is left alone. */
  lemma {:induction false} FormatAnimeNameFixesSlugs(s: string)
    requires forall i :: 0 <= i < |s| ==> s[i] != ' ' && !IsUpper(s[i]) && !IsRemovedSymbol(s[i])
    ensures FormatAnimeName(s) == s
  {
    if |s| > 0 {
      assert s == [s[0]] + s[1..];
      FormatAnimeNameAppend([s[0]], s[1..]);
      FormatAnimeNameChar(s[0]);
      FormatAnimeNameFixesSlugs(s[1..]);
    }
  }

  /** Formatting twice is formatting once. */
  lemma FormatAnimeNameIdempotent(name: string)
    ensures FormatAnimeName(FormatAnimeName(name)) == FormatAnimeName(name)
  {
    FormatAnimeNameFixesSlugs(FormatAnimeName(name));
  }

  const EpisodeSiteBase := "https://gogoanime3.net/"

  /** `format_episode_link`: the episode page of `animeName`, episode `episodeNumber`. */
  function FormatEpisodeLink(episodeNumber: int, animeName: string): (r: string)
    ensures StartsWith(r, EpisodeSiteBase)
    ensures r[|EpisodeSiteBase|..] == animeName + "-episode-" + IntToString(episodeNumber)
  {
    EpisodeSiteBase + animeName + "-episode-" + IntToString(episodeNumber)
  }

  /** The link ends with the episode number, which reads back as the same number. */
  lemma EpisodeLinkEndsWithNumber(episodeNumber: int, animeName: string)
    ensures var link := FormatEpisodeLink(episodeNumber, animeName);
            var digits := IntToString(episodeNumber);
            |digits| <= |link| && ParseInt(link[|link| - |digits|..]) == Some(episodeNumber)
  {
    var link := FormatEpisodeLink(episodeNumber, animeName);
    var digits := IntToString(episodeNumber);
    assert link[|link| - |digits|..] == digits;
    IntToStringRoundTrip(episodeNumber);
  }

  /** `(ep_start, ep_end)` read from one `<li>` of the episode pager. */
  datatype EpisodeRange = EpisodeRange(epStart: int, epEnd: int)

  /** The smallest `ep_start` and the largest `ep_end`, defined without reference to order. */
  ghost predicate IsBounds(ranges: seq<EpisodeRange>, minStart: int, maxEnd: int) {
    && (exists i :: 0 <= i < |ranges| && ranges[i].epStart == minStart)
    && (exists i :: 0 <= i < |ranges| && ranges[i].epEnd == maxEnd)
    && (forall i :: 0 <= i < |ranges| ==> minStart <= ranges[i].epStart && ranges[i].epEnd <= maxEnd)
  }

  /**
   * `get_number_episodes`: folds the pager ranges into `(min ep_start + 1, max ep_end)`.
   * With no ranges the source returns infinities; here that is `None`.
   */
  method GetNumberEpisodes(ranges: seq<EpisodeRange>) returns (r: Option<(int, int)>)
    ensures r.None? <==> |ranges| == 0
    ensures r.Some? ==> IsBounds(ranges, r.value.0 - 1, r.value.1)
  {
    if |ranges| == 0 {
      return None;
    }
    var minStart, maxEnd := ranges[0].epStart, ranges[0].epEnd;
    var i := 1;
    while i < |ranges|
      invariant 1 <= i <= |ranges|
      invariant IsBounds(ranges[..i], minStart, maxEnd)
    {
      assert ranges[..i + 1] == ranges[..i] + [ranges[i]];
      if ranges[i].epStart < minStart {
        minStart := ranges[i].epStart;
      }
      if ranges[i].epEnd > maxEnd {
        maxEnd := ranges[i].epEnd;
      }
      i := i + 1;
    }
    assert ranges[..i] == ranges;
    return Some((minStart + 1, maxEnd));
  }

  /** The fold's answer does not depend on the order of the ranges: it is determined by their set. */
  lemma BoundsAreUnique(a: seq<EpisodeRange>, b: seq<EpisodeRange>, s1: int, e1: int, s2: int, e2: int)
    requires multiset(a) == multiset(b)
    requires IsBounds(a, s1, e1) && IsBounds(b, s2, e2)
    ensures s1 == s2 && e1 == e2
  {
    var i :| 0 <= i < |a| && a[i].epStart == s1;
    var j :| 0 <= j < |b| && b[j].epStart == s2;
    assert a[i] in multiset(b);
    assert b[j] in multiset(a);
    var k :| 0 <= k < |a| && a[k].epEnd == e1;
    var l :| 0 <= l < |b| && b[l].epEnd == e2;
    assert a[k] in multiset(b);
    assert b[l] in multiset(a);
  }

  /** Selenium locator strategies, with the constant name `By.<NAME>` and the value it stands for. */
  datatype Locator = Id | XPath | LinkText | PartialLinkText | Name | TagName | ClassName | CssSelector
  {
    function ConstantName(): string {
      match this
      case Id => "ID"
      case XPath => "XPATH"
      case LinkText => "LINK_TEXT"
      case PartialLinkText => "PARTIAL_LINK_TEXT"
      case Name => "NAME"
      case TagName => "TAG_NAME"
      case ClassName => "CLASS_NAME"
      case CssSelector => "CSS_SELECTOR"
    }

    function Value(): string {
      match this
      case Id => "id"
      case XPath => "xpath"
      case LinkText => "link text"
      case PartialLinkText => "partial link text"
      case Name => "name"
      case TagName => "tag name"
      case ClassName => "class name"
      case CssSelector => "css selector"
    }
  }

  function UpperChar(c: char): char {
    if 'a' <= c <= 'z' then (c as int - 32) as char else c
  }

  /** `type_name.replace(' ', '_').upper()`: the attribute name looked up on `By`. */
  function SelectorConstantName(typeName: string): (r: string)
    ensures |r| == |typeName|
    ensures forall i :: 0 <= i < |r| ==> r[i] != ' ' && !('a' <= r[i] <= 'z')
    ensures forall i :: 0 <= i < |typeName| && typeName[i] == ' ' ==> r[i] == '_'
    ensures forall i :: 0 <= i < |typeName| && 'a' <= typeName[i] <= 'z' ==> r[i] as int == typeName[i] as int - 32
    ensures forall i :: 0 <= i < |typeName| && typeName[i] != ' ' && !('a' <= typeName[i] <= 'z') ==> r[i] == typeName[i]
  {
    seq(|typeName|, i requires 0 <= i < |typeName| => if typeName[i] == ' ' then '_' else UpperChar(typeName[i]))
  }

  /** `getattr(By, ...)`; `None` is the `AttributeError` for a name `By` does not have. */
  function LocatorByName(typeName: string): Option<Locator> {
    var name := SelectorConstantName(typeName);
    if name == "ID" then Some(Id)
    else if name == "XPATH" then Some(XPath)
    else if name == "LINK_TEXT" then Some(LinkText)
    else if name == "PARTIAL_LINK_TEXT" then Some(PartialLinkText)
    else if name == "NAME" then Some(Name)
    else if name == "TAG_NAME" then Some(TagName)
    else if name == "CLASS_NAME" then Some(ClassName)
    else if name == "CSS_SELECTOR" then Some(CssSelector)
    else None
  }

  /**
   * Passing a locator's own value (`By.CLASS_NAME == "class name"`) or its
   * constant name selects that same locator.
   */
  lemma LocatorByNameRoundTrip(loc: Locator)
    ensures LocatorByName(loc.Value()) == Some(loc)
    ensures LocatorByName(loc.ConstantName()) == Some(loc)
  {
    ValueMapsToConstantName(loc);
    ConstantNameIsFixed(loc.ConstantName());
  }

  lemma ValueMapsToConstantName(loc: Locator)
    ensures SelectorConstantName(loc.Value()) == loc.ConstantName()
  {
    if loc.Id? || loc.XPath? || loc.LinkText? || loc.PartialLinkText? {
      LinkValuesMapToConstantNames(loc);
    } else {
      ElementValuesMapToConstantNames(loc);
    }
  }

  /** The value-to-name mapping, checked literal by literal for the first four locators. */
  lemma LinkValuesMapToConstantNames(loc: Locator)
    requires loc.Id? || loc.XPath? || loc.LinkText? || loc.PartialLinkText?
    ensures SelectorConstantName(loc.Value()) == loc.ConstantName()
  {
  }

  /** The value-to-name mapping, checked literal by literal for the last four locators. */
  lemma ElementValuesMapToConstantNames(loc: Locator)
    requires loc.Name? || loc.TagName? || loc.ClassName? || loc.CssSelector?
    ensures SelectorConstantName(loc.Value()) == loc.ConstantName()
  {
  }

  /** A name with no space and no lower-case letter is its own constant name. */
  lemma ConstantNameIsFixed(n: string)
    requires forall i :: 0 <= i < |n| ==> n[i] != ' ' && !('a' <= n[i] <= 'z')
    ensures SelectorConstantName(n) == n
  {
  }
}
