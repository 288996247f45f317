/**
 * The stream-URL protocol of the episode host: the AES-CBC framing of the
 * site (padding and strip), the extraction of the three keys from the
 * embed page, URL and query-string handling, the form sent to the AJAX
 * endpoint and the choice of the stream file in the answer.
 *
 * AES, base64, HTTP and HTML/JSON decoding are parameters: a `Cipher` and
 * a `Site` record of functions.
 */
module UrlOperations {
  import opened Wrappers
  import opened Text

  // ---------------------------------------------------------------------
  // AES framing
  // ---------------------------------------------------------------------

  const BlockSize: nat := 16

  /** The characters `b"\x00...\x10"` that `aes_decrypt` strips. */
  predicate IsStripChar(c: char) { c as int <= 16 }

  /**
   * The `padding` lambda: appends `16 - n % 16` copies of the character
   * with code `n % 16`, where `n = |s|`.
   */
  function Padding(s: string): (r: string)
    ensures |r| % BlockSize == 0 && |s| < |r| <= |s| + BlockSize
    ensures r[..|s|] == s
    ensures forall k :: |s| <= k < |r| ==> r[k] == (|s| % BlockSize) as char
    ensures |s| % BlockSize == 0 ==> |r| == |s| + BlockSize && forall k :: |s| <= k < |r| ==> r[k] == 0 as char
  {
    var n := |s| % BlockSize;
    s + seq(BlockSize - n, _ => n as char)
  }

  /** `lstrip` of the strip characters. */
  function StripLeading(s: string): (r: string)
    ensures |r| <= |s| && r == s[|s| - |r|..]
    ensures |r| > 0 ==> !IsStripChar(r[0])
    ensures forall k :: 0 <= k < |s| - |r| ==> IsStripChar(s[k])
  {
    if |s| > 0 && IsStripChar(s[0]) then StripLeading(s[1..]) else s
  }

  /** `rstrip` of the strip characters. */
  function StripTrailing(s: string): (r: string)
    ensures |r| <= |s| && r == s[..|r|]
    ensures |r| > 0 ==> !IsStripChar(r[|r| - 1])
    ensures forall k :: |r| <= k < |s| ==> IsStripChar(s[k])
  {
    if |s| > 0 && IsStripChar(s[|s| - 1]) then StripTrailing(s[..|s| - 1]) else s
  }

  /**
   * `bytes.strip` of the 17 characters: the longest slice that neither
   * begins nor ends with one of them; everything cut off is one of them.
   */
  function Strip(s: string): (r: string)
    ensures exists i :: StrippedAt(s, r, i)
    ensures |r| > 0 ==> !IsStripChar(r[0]) && !IsStripChar(r[|r| - 1])
  {
    var lead := StripLeading(s);
    StripLeavesSlice(s, lead, StripTrailing(lead));
    StripTrailing(lead)
  }

  /**
   * Cutting strip characters off the front of `s` to give `lead`, then off
   * the back of `lead` to give `r`, leaves `r` as a slice of `s`.
   */
  lemma StripLeavesSlice(s: string, lead: string, r: string)
    requires |lead| <= |s| && lead == s[|s| - |lead|..]
    requires forall k :: 0 <= k < |s| - |lead| ==> IsStripChar(s[k])
    requires |r| <= |lead| && r == lead[..|r|]
    requires forall k :: |r| <= k < |lead| ==> IsStripChar(lead[k])
    ensures StrippedAt(s, r, |s| - |lead|)
    ensures |r| > 0 ==> r[0] == lead[0]
  {
    var i := |s| - |lead|;
    assert forall k :: i + |r| <= k < |s| ==> s[k] == lead[k - i];
  }

  /** `r` is the slice of `s` at `i`, and everything around it is a strip character. */
  predicate StrippedAt(s: string, r: string, i: nat) {
    i + |r| <= |s| && r == s[i..i + |r|] &&
    (forall k :: 0 <= k < i ==> IsStripChar(s[k])) &&
    (forall k :: i + |r| <= k < |s| ==> IsStripChar(s[k]))
  }

  /** The texts that survive padding then stripping. */
  predicate Unpadded(s: string) {
    |s| == 0 || (!IsStripChar(s[0]) && !IsStripChar(s[|s| - 1]))
  }

  lemma {:induction false} StripTrailingOfPad(t: string, pad: string)
    requires forall k :: 0 <= k < |pad| ==> IsStripChar(pad[k])
    requires |t| == 0 || !IsStripChar(t[|t| - 1])
    ensures StripTrailing(t + pad) == t
    decreases |pad|
  {
    if |pad| == 0 {
      assert t + pad == t;
    } else {
      var s := t + pad;
      assert IsStripChar(s[|s| - 1]);
      assert s[..|s| - 1] == t + pad[..|pad| - 1];
      StripTrailingOfPad(t, pad[..|pad| - 1]);
    }
  }

  lemma {:induction false} StripLeadingOfPad(pad: string)
    requires forall k :: 0 <= k < |pad| ==> IsStripChar(pad[k])
    ensures StripLeading(pad) == []
    decreases |pad|
  {
    if |pad| > 0 {
      StripLeadingOfPad(pad[1..]);
    }
  }

  /**
   * Stripping undoes padding exactly for the texts that neither begin nor
   * end with a character in 0x00-0x10.
   */
  lemma StripPaddingRoundTrip(s: string)
    ensures Strip(Padding(s)) == s <==> Unpadded(s)
  {
    var p := Padding(s);
    var pad := p[|s|..];
    assert p == s + pad;
    assert forall k :: 0 <= k < |pad| ==> IsStripChar(pad[k]) by {
      forall k | 0 <= k < |pad|
        ensures IsStripChar(pad[k])
      {
        assert pad[k] == p[|s| + k];
      }
    }
    if Unpadded(s) {
      if |s| == 0 {
        assert p == pad;
        StripLeadingOfPad(pad);
      } else {
        assert StripLeading(p) == p;
        StripTrailingOfPad(s, pad);
      }
    }
  }

  /**
   * The block cipher with base64 around it. `seal(key, iv, text)` is
   * `b64encode(AES-CBC encrypt)`; `open(key, iv, text)` is
   * `AES-CBC decrypt(b64decode)`, `None` when the input cannot be decoded.
   */
  datatype Cipher = Cipher(
    seal: (string, string, string) -> string,
    open: (string, string, string) -> Option<string>)

  /** Decryption inverts encryption on whole blocks. */
  ghost predicate InvertsBlocks(c: Cipher) {
    forall key, iv, p {:trigger c.seal(key, iv, p)} :: |p| % BlockSize == 0 ==> c.open(key, iv, c.seal(key, iv, p)) == Some(p)
  }

  /**
   * `AES.new(key, AES.MODE_CBC, iv=iv)` accepts an AES-128, -192 or -256 key
   * and a one-block IV; anything else raises `ValueError`. The keys of this
   * core are ASCII digit strings, so their byte length is their length.
   */
  predicate AesAccepts(key: string, iv: string) {
    (|key| == 16 || |key| == 24 || |key| == 32) && |iv| == BlockSize
  }

  /** `aes_encrypt`: pads, then encrypts; fails when `AES.new` refuses the key or the IV. */
  function AesEncrypt(c: Cipher, data: string, key: string, iv: string): (r: Result<string, string>)
    ensures r.Ok? <==> AesAccepts(key, iv)
    ensures r.Ok? ==> r.value == c.seal(key, iv, Padding(data))
    ensures r.Ok? && InvertsBlocks(c) ==> c.open(key, iv, r.value) == Some(Padding(data))
  {
    if !AesAccepts(key, iv) then Err("Incorrect AES key or IV length")
    else
      var p := Padding(data);
      assert c.open(key, iv, c.seal(key, iv, p)) == Some(p) <== InvertsBlocks(c);
      Ok(c.seal(key, iv, p))
  }

  /**
   * `aes_decrypt`: decrypts, then strips. A key or IV `AES.new` refuses, or
   * an input that cannot be decoded, is an error.
   */
  function AesDecrypt(c: Cipher, data: string, key: string, iv: string): (r: Result<string, string>)
    ensures r.Ok? <==> AesAccepts(key, iv) && c.open(key, iv, data).Some?
    ensures r.Ok? ==> r.value == Strip(c.open(key, iv, data).value)
  {
    if !AesAccepts(key, iv) then Err("Error during AES decryption of data: Incorrect AES key or IV length")
    else
      match c.open(key, iv, data)
      case None => Err("Error during AES decryption of data")
      case Some(plain) => Ok(Strip(plain))
  }

  /**
   * Decrypting what was encrypted with the same key and IV gives the text
   * back exactly when it neither begins nor ends with a stripped character.
   */
  lemma AesRoundTrip(c: Cipher, key: string, iv: string, s: string)
    requires InvertsBlocks(c)
    ensures AesAccepts(key, iv) ==>
              (AesDecrypt(c, AesEncrypt(c, s, key, iv).value, key, iv) == Ok(s) <==> Unpadded(s))
  {
    var p := Padding(s);
    assert c.open(key, iv, c.seal(key, iv, p)) == Some(p);
    StripPaddingRoundTrip(s);
  }

  // ---------------------------------------------------------------------
  // The embed URL and the keys
  // ---------------------------------------------------------------------

  const HttpsPrefix := "https:"

  /** `create_embedded_url`: the `data-video` value, made absolute with `https:` when it is not already. */
  function CreateEmbeddedUrl(dataVideo: string): (r: string)
    ensures StartsWith(r, HttpsPrefix)
    ensures StartsWith(dataVideo, HttpsPrefix) ==> r == dataVideo
    ensures !StartsWith(dataVideo, HttpsPrefix) ==> r == HttpsPrefix + dataVideo
  {
    if StartsWith(dataVideo, HttpsPrefix) then dataVideo else HttpsPrefix + dataVideo
  }

  lemma EmbeddedUrlIsIdempotent(dataVideo: string)
    ensures CreateEmbeddedUrl(CreateEmbeddedUrl(dataVideo)) == CreateEmbeddedUrl(dataVideo)
  {
  }

  const ContainerTag := "container-"
  const VideoContentTag := "videocontent-"

  /** Length of the tag `(?:container|videocontent)-` starting at `i`, or 0 when none does. */
  function TagAt(page: string, i: nat): (n: nat)
    ensures n == 0 || n == |ContainerTag| || n == |VideoContentTag|
    ensures n > 0 ==> i + n <= |page|
  {
    if i + |ContainerTag| <= |page| && page[i..i + |ContainerTag|] == ContainerTag then |ContainerTag|
    else if i + |VideoContentTag| <= |page| && page[i..i + |VideoContentTag|] == VideoContentTag then |VideoContentTag|
    else 0
  }

  /** Length of the run of digits (`\d+`, greedy) starting at `i`. */
  function DigitRun(page: string, i: nat): (n: nat)
    ensures i + n <= |page| || n == 0
    decreases |page| - i
  {
    if i < |page| && IsDigit(page[i]) then 1 + DigitRun(page, i + 1) else 0
  }

  /** The run is all digits and is maximal: the character after it is not a digit. */
  lemma {:induction false} DigitRunIsMaximal(page: string, i: nat)
    ensures forall k :: i <= k < i + DigitRun(page, i) ==> IsDigit(page[k])
    ensures i + DigitRun(page, i) < |page| ==> !IsDigit(page[i + DigitRun(page, i)])
    decreases |page| - i
  {
    if i < |page| && IsDigit(page[i]) {
      DigitRunIsMaximal(page, i + 1);
    }
  }

  /** Whether the pattern matches at `i`: a tag followed by at least one digit. */
  predicate MatchAt(page: string, i: nat) {
    TagAt(page, i) > 0 && DigitRun(page, i + TagAt(page, i)) > 0
  }

  /**
   * `re.findall(r"(?:container|videocontent)-(\d+)", page[i:])`: the digit
   * runs of the non-overlapping matches, left to right.
   */
  function FindKeys(page: string, i: nat): (r: seq<string>)
    ensures forall k :: 0 <= k < |r| ==> IsDigits(r[k])
    decreases |page| - i
  {
    if i >= |page| then []
    else if MatchAt(page, i) then
      var start := i + TagAt(page, i);
      var n := DigitRun(page, start);
      var run := page[start..start + n];
      DigitRunIsMaximal(page, start);
      assert forall k :: 0 <= k < n ==> run[k] == page[start + k];
      [run] + FindKeys(page, start + n)
    else FindKeys(page, i + 1)
  }

  /** Where nothing matches, the scan moves on by one character. */
  lemma FindKeysAtNoMatch(page: string, i: nat)
    requires i < |page| && !MatchAt(page, i)
    ensures FindKeys(page, i) == FindKeys(page, i + 1)
  {
  }

  predicate NoMatchBetween(page: string, i: nat, j: nat) {
    forall k :: i <= k < j ==> !MatchAt(page, k)
  }

  /** Stretches with no match are skipped. */
  lemma {:induction false} FindKeysSkips(page: string, i: nat, j: nat)
    requires i <= j <= |page|
    requires NoMatchBetween(page, i, j)
    ensures FindKeys(page, i) == FindKeys(page, j)
    decreases j - i
  {
    if i < j {
      FindKeysAtNoMatch(page, i);
      FindKeysSkips(page, i + 1, j);
    }
  }

  /** A tag followed by a digit run yields that run, and the scan goes on after it. */
  lemma FindKeysTakes(page: string, i: nat, tag: string, digits: string)
    requires tag == ContainerTag || tag == VideoContentTag
    requires IsDigits(digits)
    requires i + |tag| + |digits| <= |page| && page[i..i + |tag| + |digits|] == tag + digits
    requires i + |tag| + |digits| < |page| ==> !IsDigit(page[i + |tag| + |digits|])
    ensures FindKeys(page, i) == [digits] + FindKeys(page, i + |tag| + |digits|)
  {
    SliceOfConcat(page, i, tag, digits);
    TagAtOf(page, i, tag);
    FindKeysTakesAt(page, i, |tag|, digits);
  }

  lemma FindKeysTakesAt(page: string, i: nat, tagLen: nat, digits: string)
    requires tagLen > 0 && TagAt(page, i) == tagLen
    requires IsDigits(digits)
    requires i + tagLen + |digits| <= |page| && page[i + tagLen..i + tagLen + |digits|] == digits
    requires i + tagLen + |digits| < |page| ==> !IsDigit(page[i + tagLen + |digits|])
    ensures FindKeys(page, i) == [digits] + FindKeys(page, i + tagLen + |digits|)
  {
    var start := i + tagLen;
    DigitRunOf(page, start, digits);
    FindKeysAtMatch(page, i, start, |digits|);
  }

  /** Unfolds the scan at a match whose digits span `start..start + n`. */
  lemma FindKeysAtMatch(page: string, i: nat, start: nat, n: nat)
    requires i < start && start == i + TagAt(page, i) && n == DigitRun(page, start) && n > 0
    ensures FindKeys(page, i) == [page[start..start + n]] + FindKeys(page, start + n)
  {
  }

  lemma SliceOfConcat(s: string, i: nat, a: string, b: string)
    requires i + |a| + |b| <= |s| && s[i..i + |a| + |b|] == a + b
    ensures s[i..i + |a|] == a
    ensures s[i + |a|..i + |a| + |b|] == b
  {
    assert s[i..i + |a|] == s[i..i + |a| + |b|][..|a|];
    assert s[i + |a|..i + |a| + |b|] == s[i..i + |a| + |b|][|a|..];
  }

  lemma TagAtOf(page: string, i: nat, tag: string)
    requires tag == ContainerTag || tag == VideoContentTag
    requires i + |tag| <= |page| && page[i..i + |tag|] == tag
    ensures TagAt(page, i) == |tag|
  {
    assert page[i] == page[i..i + |tag|][0];
  }

  lemma {:induction false} DigitRunOf(page: string, start: nat, digits: string)
    requires IsDigits(digits)
    requires start + |digits| <= |page| && page[start..start + |digits|] == digits
    requires start + |digits| < |page| ==> !IsDigit(page[start + |digits|])
    ensures DigitRun(page, start) == |digits|
    decreases |digits|
  {
    assert page[start] == digits[0];
    if |digits| > 1 {
      assert page[start + 1..start + |digits|] == digits[1..];
      DigitRunOf(page, start + 1, digits[1..]);
    } else {
      assert DigitRun(page, start + 1) == 0;
    }
  }

  /** The dictionary `get_encryption_key` returns. */
  datatype KeySet = KeySet(key: string, iv: string, secondKey: string)

  /**
   * `get_encryption_key`: the page must match exactly three times; the
   * runs, in order, are key, IV and second key. Any other count is an error.
   */
  function GetEncryptionKey(page: string): (r: Result<KeySet, string>)
    ensures r.Ok? <==> |FindKeys(page, 0)| == 3
    ensures r.Ok? ==> [r.value.key, r.value.iv, r.value.secondKey] == FindKeys(page, 0)
    ensures r.Ok? ==> IsDigits(r.value.key) && IsDigits(r.value.iv) && IsDigits(r.value.secondKey)
  {
    var keys := FindKeys(page, 0);
    if |keys| != 3 then Err("No encryption keys were found.")
    else Ok(KeySet(keys[0], keys[1], keys[2]))
  }

  /** Text in which no tag can start: both tags begin with `c` or `v`. */
  predicate NoTagStart(sep: string) {
    forall k :: 0 <= k < |sep| ==> sep[k] != 'c' && sep[k] != 'v'
  }

  lemma NoTagAt(page: string, k: nat)
    requires k < |page| && page[k] != 'c' && page[k] != 'v'
    ensures TagAt(page, k) == 0
  {
    if k + |ContainerTag| <= |page| {
      assert page[k..k + |ContainerTag|][0] == page[k];
    }
    if k + |VideoContentTag| <= |page| {
      assert page[k..k + |VideoContentTag|][0] == page[k];
    }
  }

  lemma SeparatorCharNoMatch(page: string, i: nat, sep: string, k: nat)
    requires NoTagStart(sep)
    requires i + |sep| <= |page| && page[i..i + |sep|] == sep
    requires i <= k < i + |sep|
    ensures !MatchAt(page, k)
  {
    assert page[k] == sep[k - i];
    NoTagAt(page, k);
  }

  /** Text in which no tag can start is skipped by the scan. */
  lemma FindKeysSkipsSeparator(page: string, i: nat, sep: string)
    requires NoTagStart(sep)
    requires i + |sep| <= |page| && page[i..i + |sep|] == sep
    ensures FindKeys(page, i) == FindKeys(page, i + |sep|)
  {
    assert NoMatchBetween(page, i, i + |sep|) by {
      forall k | i <= k < i + |sep|
        ensures !MatchAt(page, k)
      {
        SeparatorCharNoMatch(page, i, sep, k);
      }
    }
    FindKeysSkips(page, i, i + |sep|);
  }

  // ---------------------------------------------------------------------
  // URLs (`urlparse` and `urlunsplit`, simplified)
  // ---------------------------------------------------------------------

  predicate IsAlpha(c: char) { 'a' <= c <= 'z' || 'A' <= c <= 'Z' }

  /** The characters `urlsplit` accepts in a scheme. */
  predicate IsSchemeChar(c: char) { IsAlpha(c) || IsDigit(c) || c == '+' || c == '-' || c == '.' }

  /** No character of `s` is one of `chars`. */
  predicate Avoids(s: string, chars: string) {
    forall k :: 0 <= k < |s| ==> s[k] !in chars
  }

  /** Index of the first character of `s` that is one of `chars`, or `|s|`. */
  function IndexOfAny(s: string, chars: string): (r: nat)
    ensures r <= |s|
    ensures r < |s| ==> s[r] in chars
    ensures forall k :: 0 <= k < r ==> s[k] !in chars
  {
    if |s| == 0 || s[0] in chars then 0 else 1 + IndexOfAny(s[1..], chars)
  }

  lemma IndexOfAnyIsFirst(s: string, chars: string, r: nat)
    requires r <= |s|
    requires r < |s| ==> s[r] in chars
    requires forall k :: 0 <= k < r ==> s[k] !in chars
    ensures IndexOfAny(s, chars) == r
  {
  }

  lemma IndexOfAnyAppend(a: string, b: string, chars: string)
    requires Avoids(a, chars)
    requires |b| == 0 || b[0] in chars
    ensures IndexOfAny(a + b, chars) == |a|
  {
    var s := a + b;
    assert forall k :: 0 <= k < |a| ==> s[k] !in chars by {
      forall k | 0 <= k < |a|
        ensures s[k] !in chars
      {
        assert s[k] == a[k];
      }
    }
    if |b| > 0 {
      assert s[|a|] == b[0];
    }
    IndexOfAnyIsFirst(s, chars, |a|);
  }

  /** The parts of a URL that `urlparse` yields and this core reads (`params` is left in the path). */
  datatype Url = Url(scheme: string, netloc: string, path: string, query: string, fragment: string)

  const NetlocEnd := "/?#"

  /**
   * The scheme: the text before the first `:` when it begins with a letter
   * and is made of scheme characters, lower-cased; otherwise none.
   */
  function SplitScheme(s: string): (r: (string, string))
    ensures |r.0| + |r.1| < |s| || r == ("", s)
  {
    var colon := IndexOf(s, ':');
    if 0 < colon < |s| && IsAlpha(s[0]) && (forall k :: 0 <= k < colon ==> IsSchemeChar(s[k])) then
      (Lower(s[..colon]), s[colon + 1..])
    else ("", s)
  }

  /** The network location: after `//`, up to the first of `/?#`. */
  function SplitNetloc(rest: string): (r: (string, string))
    ensures Avoids(r.0, NetlocEnd)
  {
    if StartsWith(rest, "//") then
      var end := IndexOfAny(rest[2..], NetlocEnd);
      var netloc := rest[2..][..end];
      assert forall k :: 0 <= k < |netloc| ==> netloc[k] == rest[2..][k];
      (netloc, rest[2..][end..])
    else ("", rest)
  }

  /** Text before and after the first `c`; nothing after when there is none. */
  function SplitAt(s: string, c: char): (r: (string, string))
    ensures c !in r.0
  {
    var i := IndexOf(s, c);
    assert forall k :: 0 <= k < i ==> s[..i][k] == s[k];
    if i < |s| then (s[..i], s[i + 1..]) else (s, "")
  }

  /**
   * `urlparse`: scheme, then network location, then the fragment after
   * the first `#`, then the query after the first `?`; the rest is the
   * path.
   */
  function ParseUrl(s: string): (u: Url)
    ensures Avoids(u.netloc, NetlocEnd)
    ensures '#' !in u.query && '#' !in u.path && '?' !in u.path
  {
    var (scheme, rest) := SplitScheme(s);
    var (netloc, tail) := SplitNetloc(rest);
    var (beforeHash, fragment) := SplitAt(tail, '#');
    var (path, query) := SplitAt(beforeHash, '?');
    assert forall k :: 0 <= k < |query| ==> query[k] in beforeHash;
    assert forall k :: 0 <= k < |path| ==> path[k] in beforeHash;
    Url(scheme, netloc, path, query, fragment)
  }

  /** `urlunsplit` of a URL with a scheme and a network location. */
  function ComposeUrl(u: Url): string {
    u.scheme + ":" + ("//" + u.netloc + PathOnward(u))
  }

  /** Path, `?query` when there is a query, `#fragment` when there is a fragment. */
  function PathOnward(u: Url): string {
    QueryOnward(u.path, u.query) + (if u.fragment != "" then ['#'] + u.fragment else [])
  }

  function QueryOnward(path: string, query: string): string {
    path + (if query != "" then ['?'] + query else [])
  }

  /** The URLs that `ComposeUrl` writes unambiguously. */
  predicate WellFormedUrl(u: Url) {
    && |u.scheme| > 0 && IsAlpha(u.scheme[0])
    && (forall k :: 0 <= k < |u.scheme| ==> IsSchemeChar(u.scheme[k]) && !IsUpper(u.scheme[k]))
    && Avoids(u.netloc, NetlocEnd)
    && (|u.path| == 0 || u.path[0] == '/') && Avoids(u.path, "?#")
    && '#' !in u.query
  }

  lemma SplitSchemeOf(scheme: string, rest: string)
    requires |scheme| > 0 && IsAlpha(scheme[0])
    requires forall k :: 0 <= k < |scheme| ==> IsSchemeChar(scheme[k]) && !IsUpper(scheme[k])
    ensures SplitScheme(scheme + ":" + rest) == (scheme, rest)
  {
    var s := scheme + ":" + rest;
    assert s == scheme + (":" + rest);
    IndexOfAppend(scheme, ":" + rest, ':');
    assert s[..|scheme|] == scheme;
    assert s[|scheme| + 1..] == rest;
    assert Lower(scheme) == scheme;
  }

  lemma SplitNetlocOf(netloc: string, tail: string)
    requires Avoids(netloc, NetlocEnd)
    requires |tail| == 0 || tail[0] in NetlocEnd
    ensures SplitNetloc("//" + netloc + tail) == (netloc, tail)
  {
    var rest := "//" + netloc + tail;
    assert rest[..2] == "//";
    assert rest[2..] == netloc + tail;
    IndexOfAnyAppend(netloc, tail, NetlocEnd);
    assert (netloc + tail)[..|netloc|] == netloc;
    assert (netloc + tail)[|netloc|..] == tail;
  }

  lemma SplitAtAbsent(a: string, c: char)
    requires c !in a
    ensures SplitAt(a, c) == (a, "")
  {
    IndexOfIsFirst(a, c, |a|);
  }

  lemma SplitAtFirst(a: string, c: char, b: string)
    requires c !in a
    ensures SplitAt(a + [c] + b, c) == (a, b)
  {
    var s := a + [c] + b;
    assert s == a + ([c] + b);
    IndexOfAppend(a, [c] + b, c);
    assert s[..|a|] == a;
    assert s[|a| + 1..] == b;
  }

  /** `SplitAt(s, c)` of text written as `before`, then `c` and `after` when `present`. */
  lemma SplitAtOf(before: string, c: char, present: bool, after: string, s: string)
    requires c !in before
    requires s == before + (if present then [c] + after else [])
    ensures SplitAt(s, c) == if present then (before, after) else (before, "")
  {
    if present {
      assert s == before + [c] + after;
      SplitAtFirst(before, c, after);
    } else {
      assert s == before;
      SplitAtAbsent(before, c);
    }
  }

  /** Parsing a composed URL gives back its parts. */
  lemma ParseComposeRoundTrip(u: Url)
    requires WellFormedUrl(u)
    ensures ParseUrl(ComposeUrl(u)) == u
  {
    var beforeHash := QueryOnward(u.path, u.query);
    var tail := PathOnward(u);
    SplitSchemeOf(u.scheme, "//" + u.netloc + tail);
    NetlocEndFollows(u);
    SplitNetlocOf(u.netloc, tail);
    QueryOnwardAvoidsHash(u.path, u.query);
    SplitAtOf(beforeHash, '#', u.fragment != "", u.fragment, tail);
    SplitAtOf(u.path, '?', u.query != "", u.query, beforeHash);
  }

  lemma NetlocEndFollows(u: Url)
    requires WellFormedUrl(u)
    ensures |PathOnward(u)| == 0 || PathOnward(u)[0] in NetlocEnd
  {
    var t := PathOnward(u);
    if |u.path| > 0 {
      assert t[0] == u.path[0];
    } else if u.query != "" {
      assert t[0] == '?';
    } else if u.fragment != "" {
      assert t[0] == '#';
    }
  }

  lemma QueryOnwardAvoidsHash(path: string, query: string)
    requires '#' !in path && '#' !in query
    ensures '#' !in QueryOnward(path, query)
  {
  }

  // ---------------------------------------------------------------------
  // Query strings (`parse_qsl`) and dictionaries
  // ---------------------------------------------------------------------

  /** `s.split(sep)`. */
  function Split(s: string, sep: char): (r: seq<string>)
    ensures |r| > 0
    decreases |s|
  {
    var i := IndexOf(s, sep);
    if i == |s| then [s] else [s[..i]] + Split(s[i + 1..], sep)
  }

  /** No piece of a split holds the separator. */
  lemma {:induction false} SplitPiecesAvoidSeparator(s: string, sep: char)
    ensures forall k :: 0 <= k < |Split(s, sep)| ==> sep !in Split(s, sep)[k]
    decreases |s|
  {
    var i := IndexOf(s, sep);
    if i < |s| {
      var rest := s[i + 1..];
      SplitPiecesAvoidSeparator(rest, sep);
      var parts := Split(s, sep);
      assert parts == [s[..i]] + Split(rest, sep);
      forall k | 0 <= k < |parts| ensures sep !in parts[k] {
        if k > 0 {
          assert parts[k] == Split(rest, sep)[k - 1];
        }
      }
    }
  }

  /** `sep.join(parts)`. */
  function Join(parts: seq<string>, sep: char): string
    requires |parts| > 0
  {
    if |parts| == 1 then parts[0] else parts[0] + [sep] + Join(parts[1..], sep)
  }

  /** Splitting loses nothing: joining the pieces gives the text back. */
  lemma {:induction false} SplitJoin(s: string, sep: char)
    ensures Join(Split(s, sep), sep) == s
    decreases |s|
  {
    var i := IndexOf(s, sep);
    if i < |s| {
      var rest := s[i + 1..];
      var tail := Split(rest, sep);
      var parts := Split(s, sep);
      assert parts == [s[..i]] + tail;
      assert |parts| > 1 && parts[0] == s[..i] && parts[1..] == tail;
      SplitJoin(rest, sep);
      assert s == s[..i] + [sep] + rest;
    }
  }

  /** `s.replace('+', ' ')`. */
  function PlusToSpace(s: string): (r: string)
    ensures |r| == |s| && '+' !in r
    ensures forall k :: 0 <= k < |s| ==> r[k] == if s[k] == '+' then ' ' else s[k]
  {
    seq(|s|, k requires 0 <= k < |s| => if s[k] == '+' then ' ' else s[k])
  }

  /**
   * One `&`-separated field as `parse_qsl` reads it: split at the first
   * `=`; a field without `=` or with an empty value is dropped; `+` stands
   * for a space.
   */
  function QueryField(field: string): (r: Option<(string, string)>)
    ensures r.Some? <==> IndexOf(field, '=') + 1 < |field|
    ensures r.Some? ==> '=' !in r.value.0 && |r.value.1| > 0 && '+' !in r.value.0 && '+' !in r.value.1
    ensures r.Some? ==> r.value.1 == PlusToSpace(field[IndexOf(field, '=') + 1..])
  {
    var i := IndexOf(field, '=');
    if i + 1 >= |field| then None
    else
      var name := PlusToSpace(field[..i]);
      assert forall k :: 0 <= k < |name| ==> name[k] != '=';
      Some((name, PlusToSpace(field[i + 1..])))
  }

  function QueryPairs(fields: seq<string>): (r: seq<(string, string)>)
    ensures forall k :: 0 <= k < |r| ==> |r[k].1| > 0 && '+' !in r[k].0 && '+' !in r[k].1
  {
    if |fields| == 0 then []
    else
      var rest := QueryPairs(fields[1..]);
      match QueryField(fields[0])
      case None => rest
      case Some(pair) => [pair] + rest
  }

  /** `parse_qsl(query)` without percent-decoding. */
  function ParseQsl(query: string): (r: seq<(string, string)>)
    ensures forall k :: 0 <= k < |r| ==> |r[k].1| > 0 && '+' !in r[k].0 && '+' !in r[k].1
  {
    QueryPairs(Split(query, '&'))
  }

  /** A single `id=...` field splits at its first `=`: the value may itself hold `=`. */
  lemma IdFieldSplitsAtFirstEquals(v: string)
    requires |v| > 0 && '&' !in v && '+' !in v
    ensures ParseQsl("id=" + v) == [("id", v)]
  {
    var field := "id=" + v;
    assert forall k :: 0 <= k < |field| ==> field[k] != '&';
    assert Split(field, '&') == [field];
    assert field[..2] == "id" && field[3..] == v;
    IndexOfIsFirst(field, '=', 2);
    assert PlusToSpace("id") == "id";
    assert PlusToSpace(v) == v;
    assert QueryPairs([field]) == [("id", v)];
  }

  /** An insertion-ordered Python `dict` of strings. */
  type Dict = seq<(string, string)>

  /** A Python `dict` holds each key at most once. */
  predicate DistinctKeys(d: Dict) {
    forall i, j :: 0 <= i < j < |d| ==> d[i].0 != d[j].0
  }

  /** `d.get(key)`. */
  function Get(d: Dict, key: string): (r: Option<string>)
    ensures r.None? <==> forall i :: 0 <= i < |d| ==> d[i].0 != key
    ensures r.Some? ==> exists i :: 0 <= i < |d| && d[i] == (key, r.value)
  {
    if |d| == 0 then None
    else if d[0].0 == key then Some(d[0].1)
    else
      var r := Get(d[1..], key);
      assert forall i :: 1 <= i < |d| ==> d[i] == d[1..][i - 1];
      r
  }

  /**
   * `d[key] = value`: an existing key keeps its place and takes the new
   * value; a new key goes at the end. Nothing else changes.
   */
  function Put(d: Dict, key: string, value: string): (r: Dict)
    ensures Get(r, key) == Some(value)
    ensures forall k :: k != key ==> Get(r, k) == Get(d, k)
    ensures Get(d, key).Some? ==> |r| == |d| && forall i :: 0 <= i < |d| ==> r[i].0 == d[i].0
    ensures Get(d, key).None? ==> r == d + [(key, value)]
    ensures DistinctKeys(d) ==> DistinctKeys(r)
  {
    if |d| == 0 then [(key, value)]
    else
      assert d == [d[0]] + d[1..];
      GetCons(d[0], d[1..]);
      var r :=
        (if d[0].0 == key then
           GetCons((key, value), d[1..]);
           [(key, value)] + d[1..]
         else
           var rest := Put(d[1..], key, value);
           GetCons(d[0], rest);
           [d[0]] + rest);
      PutShapeKeepsDistinct(d, key, value, r);
      r
  }

  /** Keeping every key in place, or appending one absent key, keeps the keys distinct. */
  lemma PutShapeKeepsDistinct(d: Dict, key: string, value: string, r: Dict)
    requires Get(d, key).Some? ==> |r| == |d| && forall i :: 0 <= i < |d| ==> r[i].0 == d[i].0
    requires Get(d, key).None? ==> r == d + [(key, value)]
    ensures DistinctKeys(d) ==> DistinctKeys(r)
  {
  }

  /** Looking up in a dict with a first entry `h`. */
  lemma GetCons(h: (string, string), t: Dict)
    ensures forall key :: Get([h] + t, key) == if h.0 == key then Some(h.1) else Get(t, key)
  {
    assert ([h] + t)[1..] == t;
  }

  /** `dict(pairs)`: later pairs overwrite earlier ones. */
  function ToDict(pairs: seq<(string, string)>): (r: Dict)
    ensures DistinctKeys(r)
  {
    if |pairs| == 0 then []
    else
      var last := pairs[|pairs| - 1];
      Put(ToDict(pairs[..|pairs| - 1]), last.0, last.1)
  }

  /** The value of the last pair with this key. */
  function LastValue(pairs: seq<(string, string)>, key: string): Option<string> {
    if |pairs| == 0 then None
    else if pairs[|pairs| - 1].0 == key then Some(pairs[|pairs| - 1].1)
    else LastValue(pairs[..|pairs| - 1], key)
  }

  /** In `dict(pairs)` the last occurrence of a key wins. */
  lemma {:induction false} ToDictLastWins(pairs: seq<(string, string)>, key: string)
    ensures Get(ToDict(pairs), key) == LastValue(pairs, key)
  {
    if |pairs| > 0 {
      ToDictLastWins(pairs[..|pairs| - 1], key);
    }
  }

  /**
   * `create_id`: the `id` parameter of the URL's query string; a missing
   * `id` is the `KeyError` the source raises.
   */
  function CreateId(epUrl: string): (r: Result<string, string>)
    ensures r.Ok? <==> LastValue(ParseQsl(ParseUrl(epUrl).query), "id").Some?
    ensures r.Ok? ==> r == Ok(LastValue(ParseQsl(ParseUrl(epUrl).query), "id").value)
  {
    var pairs := ParseQsl(ParseUrl(epUrl).query);
    ToDictLastWins(pairs, "id");
    match Get(ToDict(pairs), "id")
    case None => Err("'id'")
    case Some(id) => Ok(id)
  }

  /** A URL whose query is a single `id=...` field yields that value, `=` signs included. */
  lemma CreateIdOfIdQuery(u: Url, v: string)
    requires WellFormedUrl(u) && u.query == "id=" + v
    requires |v| > 0 && '&' !in v && '+' !in v
    ensures CreateId(ComposeUrl(u)) == Ok(v)
  {
    ParseComposeRoundTrip(u);
    IdFieldSplitsAtFirstEquals(v);
  }

  /**
   * The form-dict merge of `create_dict_data`: the decrypted query string
   * parsed into a dict, then `id` set to the encrypted id. Every other key
   * keeps the last value parsed for it.
   */
  function FormData(decrypted: string, encryptedId: string): (r: Dict)
    ensures Get(r, "id") == Some(encryptedId)
    ensures forall k :: k != "id" ==> Get(r, k) == LastValue(ParseQsl(decrypted), k)
    ensures forall k :: k != "id" && Get(r, k).Some? ==> '+' !in Get(r, k).value
    ensures DistinctKeys(r)
  {
    var pairs := ParseQsl(decrypted);
    var parsed := ToDict(pairs);
    assert forall k :: Get(parsed, k) == LastValue(pairs, k) by {
      forall k
        ensures Get(parsed, k) == LastValue(pairs, k)
      {
        ToDictLastWins(pairs, k);
      }
    }
    assert forall k :: LastValue(pairs, k).Some? ==> '+' !in LastValue(pairs, k).value by {
      forall k | LastValue(pairs, k).Some?
        ensures '+' !in LastValue(pairs, k).value
      {
        LastValueIsAValue(pairs, k);
      }
    }
    Put(parsed, "id", encryptedId)
  }

  lemma {:induction false} LastValueIsAValue(pairs: seq<(string, string)>, key: string)
    requires LastValue(pairs, key).Some?
    ensures exists i :: 0 <= i < |pairs| && pairs[i] == (key, LastValue(pairs, key).value)
  {
    if pairs[|pairs| - 1].0 != key {
      LastValueIsAValue(pairs[..|pairs| - 1], key);
      var i :| 0 <= i < |pairs| - 1 && pairs[..|pairs| - 1][i] == (key, LastValue(pairs, key).value);
      assert pairs[i] == pairs[..|pairs| - 1][i];
    }
  }

  /** `create_headers`. */
  function CreateHeaders(epUrl: string): (r: Dict)
    ensures Get(r, "x-requested-with") == Some("XMLHttpRequest")
    ensures Get(r, "referer") == Some(epUrl)
    ensures |r| == 2
  {
    [("x-requested-with", "XMLHttpRequest"), ("referer", epUrl)]
  }

  // ---------------------------------------------------------------------
  // The AJAX exchange
  // ---------------------------------------------------------------------

  /** The initial value of the `ajax_url` field. */
  const AjaxPath := "/encrypt-ajax.php?"

  /** `create_ajax_url`: scheme and network location of the URL, followed by the field's current value. */
  function AjaxUrlFor(field: string, epUrl: string): string {
    var u := ParseUrl(epUrl);
    u.scheme + "://" + u.netloc + field
  }

  /** With the field at its initial value, the endpoint is on the embed URL's host. */
  lemma AjaxUrlOfComposedUrl(u: Url, field: string)
    requires WellFormedUrl(u)
    ensures AjaxUrlFor(field, ComposeUrl(u)) == u.scheme + "://" + u.netloc + field
  {
    ParseComposeRoundTrip(u);
  }

  /**
   * Once `get_streaming_url` has stored the absolute endpoint in the field,
   * a second call on the same object prefixes the scheme and host again.
   */
  lemma AjaxUrlGrowsOnReuse(u: Url)
    requires WellFormedUrl(u)
    ensures var first := AjaxUrlFor(AjaxPath, ComposeUrl(u));
            var second := AjaxUrlFor(first, ComposeUrl(u));
            first == u.scheme + "://" + u.netloc + AjaxPath &&
            second == u.scheme + "://" + u.netloc + first &&
            |second| > |first|
  {
    ParseComposeRoundTrip(u);
  }

  /** What the HTTP library reports about a response. */
  datatype Response = Response(statusCode: int, url: string, data: Option<string>)
  {
    /** `requests.Response.ok`: no 4xx or 5xx status. */
    predicate Succeeded() { !(400 <= statusCode < 600) }
  }

  /** `check_response_error`: `None` when the request succeeded, otherwise the error it raises. */
  function CheckResponseError(response: Response, url: string): (r: Option<string>)
    ensures r.None? <==> !(400 <= response.statusCode < 600)
    ensures r.Some? ==> r.value == "Error while requesting " + url + ": " + IntToString(response.statusCode)
  {
    if response.Succeeded() then None
    else Some("Error while requesting " + url + ": " + IntToString(response.statusCode))
  }

  /** `source_data[0]["file"]`: fails on an empty list or a first source without `file`. */
  function GetStreamFile(sources: seq<map<string, string>>): (r: Result<string, string>)
    ensures r.Ok? <==> |sources| > 0 && "file" in sources[0]
    ensures r.Ok? ==> r.value == sources[0]["file"]
  {
    if |sources| == 0 then Err("list index out of range")
    else if "file" !in sources[0] then Err("'file'")
    else Ok(sources[0]["file"])
  }

  /** The request `send_post_request` sends: `url + urlencode(form) + "&alias=" + alias`. */
  datatype PostRequest = PostRequest(url: string, form: Dict, alias: string, headers: Dict)

  /**
   * The network and the HTML/JSON libraries, as the core sees them:
   * the `data-video` attribute of the active server link of an episode
   * page (`None` when the page or the link is missing), the text of a page,
   * the `data-value` of the episode script of a page, the response to a
   * POST, and the `source` list of a decoded JSON text.
   */
  datatype Site = Site(
    activeLinkVideo: string -> Option<string>,
    pageText: string -> string,
    episodeData: string -> Option<string>,
    post: PostRequest -> Response,
    sources: string -> Option<seq<map<string, string>>>)

  /** The embed URL of an episode and the keys found on its page. */
  datatype Embed = Embed(url: string, keys: KeySet)

  /** `get_embedded_video_url` then `get_encryption_key`. */
  function EmbedAndKeys(site: Site, epUrl: string): (r: Result<Embed, string>)
    ensures r.Ok? <==> site.activeLinkVideo(epUrl).Some? &&
                       GetEncryptionKey(site.pageText(CreateEmbeddedUrl(site.activeLinkVideo(epUrl).value))).Ok?
    ensures r.Ok? ==> r.value.url == CreateEmbeddedUrl(site.activeLinkVideo(epUrl).value) && StartsWith(r.value.url, HttpsPrefix)
    ensures r.Ok? ==> r.value.keys == GetEncryptionKey(site.pageText(r.value.url)).value
  {
    match site.activeLinkVideo(epUrl)
    case None => Err("Error while getting embedded video player URL")
    case Some(dataVideo) =>
      var url := CreateEmbeddedUrl(dataVideo);
      match GetEncryptionKey(site.pageText(url))
      case Err(e) => Err(e)
      case Ok(keys) => Ok(Embed(url, keys))
  }

  /**
   * `create_dict_data`: decrypts the episode data of the embed page with
   * the first key, then merges in the encrypted id.
   */
  function CreateDictData(site: Site, c: Cipher, embed: Embed, encryptedId: string): (r: Result<Dict, string>)
    ensures r.Ok? <==> site.episodeData(embed.url).Some? &&
                       AesDecrypt(c, site.episodeData(embed.url).value, embed.keys.key, embed.keys.iv).Ok?
    ensures r.Ok? ==> r.value == FormData(AesDecrypt(c, site.episodeData(embed.url).value, embed.keys.key, embed.keys.iv).value, encryptedId)
    ensures r.Ok? ==> Get(r.value, "id") == Some(encryptedId)
  {
    match site.episodeData(embed.url)
    case None => Err("Error while getting data")
    case Some(data) =>
      match AesDecrypt(c, data, embed.keys.key, embed.keys.iv)
      case Err(e) => Err(e)
      case Ok(text) => Ok(FormData(text, encryptedId))
  }

  /**
   * The request `get_streaming_url` sends to the endpoint `ajax`: the id
   * encrypted with the first key as the form's `id`, the plain id as the
   * alias, the embed URL as the referer.
   */
  function BuildPost(site: Site, c: Cipher, ajax: string, embed: Embed): (r: Result<PostRequest, string>)
    ensures r.Ok? <==> CreateId(embed.url).Ok? && AesAccepts(embed.keys.key, embed.keys.iv) &&
                       CreateDictData(site, c, embed, AesEncrypt(c, CreateId(embed.url).value, embed.keys.key, embed.keys.iv).value).Ok?
    ensures r.Ok? ==> r.value.url == ajax && r.value.alias == CreateId(embed.url).value
    ensures r.Ok? ==> var encryptedId := AesEncrypt(c, r.value.alias, embed.keys.key, embed.keys.iv).value;
                      && r.value.form == CreateDictData(site, c, embed, encryptedId).value
                      && Get(r.value.form, "id") == Some(encryptedId)
    ensures r.Ok? ==> r.value.headers == CreateHeaders(embed.url)
  {
    match CreateId(embed.url)
    case Err(e) => Err(e)
    case Ok(id) =>
      match AesEncrypt(c, id, embed.keys.key, embed.keys.iv)
      case Err(e) => Err(e)
      case Ok(encryptedId) =>
        match CreateDictData(site, c, embed, encryptedId)
        case Err(e) => Err(e)
        case Ok(form) => Ok(PostRequest(ajax, form, id, CreateHeaders(embed.url)))
  }

  /**
   * The end of `get_streaming_url`: a failed response is an error;
   * otherwise its `data` is decrypted with the second key and the `file`
   * of the first source is the answer.
   */
  function Answer(site: Site, c: Cipher, keys: KeySet, response: Response): (r: Result<string, string>)
    ensures !response.Succeeded() ==> r.Err?
    ensures r.Ok? ==> response.data.Some? &&
                      AesDecrypt(c, response.data.value, keys.secondKey, keys.iv).Ok? &&
                      site.sources(AesDecrypt(c, response.data.value, keys.secondKey, keys.iv).value).Some?
    ensures r.Ok? ==> var sources := site.sources(AesDecrypt(c, response.data.value, keys.secondKey, keys.iv).value).value;
                      |sources| > 0 && "file" in sources[0] && r.value == sources[0]["file"]
    ensures response.Succeeded() && response.data.Some? &&
            AesDecrypt(c, response.data.value, keys.secondKey, keys.iv).Ok? &&
            site.sources(AesDecrypt(c, response.data.value, keys.secondKey, keys.iv).value).Some? ==>
              r == GetStreamFile(site.sources(AesDecrypt(c, response.data.value, keys.secondKey, keys.iv).value).value)
  {
    match CheckResponseError(response, response.url)
    case Some(message) => Err(message)
    case None =>
      match response.data
      case None => Err("a bytes-like object is required, not 'NoneType'")
      case Some(data) =>
        match AesDecrypt(c, data, keys.secondKey, keys.iv)
        case Err(e) => Err(e)
        case Ok(text) =>
          match site.sources(text)
          case None => Err("Expecting value")
          case Some(sources) => GetStreamFile(sources)
  }

  /**
   * The id posted in the form decrypts, with the same key and IV, to the
   * alias sent beside it, unless the id begins or ends with a stripped
   * character.
   */
  lemma PostedIdDecryptsToAlias(site: Site, c: Cipher, ajax: string, embed: Embed)
    requires InvertsBlocks(c)
    requires BuildPost(site, c, ajax, embed).Ok?
    ensures var request := BuildPost(site, c, ajax, embed).value;
            var decrypted := AesDecrypt(c, Get(request.form, "id").value, embed.keys.key, embed.keys.iv);
            decrypted == Ok(request.alias) <==> Unpadded(request.alias)
  {
    var request := BuildPost(site, c, ajax, embed).value;
    AesRoundTrip(c, embed.keys.key, embed.keys.iv, request.alias);
  }

  /** The object holding the session and the `ajax_url` field. */
  class UrlInteractions {
    var ajaxUrl: string

    constructor ()
      ensures ajaxUrl == AjaxPath
    {
      ajaxUrl := AjaxPath;
    }

    /** `create_ajax_url`, which reads the field. */
    function CreateAjaxUrl(epUrl: string): (r: string)
      reads this
      ensures |r| >= |ajaxUrl| && r[|r| - |ajaxUrl|..] == ajaxUrl
    {
      AjaxUrlFor(ajaxUrl, epUrl)
    }

    /**
     * `get_streaming_url`. Once the embed URL and the keys are known, the
     * field is overwritten with the endpoint built from it, and the request
     * is posted there.
     */
    method GetStreamingUrl(site: Site, c: Cipher, epUrl: string) returns (r: Result<string, string>)
      modifies this
      ensures EmbedAndKeys(site, epUrl).Err? ==> ajaxUrl == old(ajaxUrl) && r.Err?
      ensures EmbedAndKeys(site, epUrl).Ok? ==> ajaxUrl == AjaxUrlFor(old(ajaxUrl), EmbedAndKeys(site, epUrl).value.url)
      ensures EmbedAndKeys(site, epUrl).Ok? ==>
                var embed := EmbedAndKeys(site, epUrl).value;
                var request := BuildPost(site, c, ajaxUrl, embed);
                && (request.Err? ==> r.Err?)
                && (request.Ok? ==> r == Answer(site, c, embed.keys, site.post(request.value)))
    {
      var embed := EmbedAndKeys(site, epUrl);
      if embed.Err? {
        return Err(embed.error);
      }
      ajaxUrl := CreateAjaxUrl(embed.value.url);
      var request := BuildPost(site, c, ajaxUrl, embed.value);
      if request.Err? {
        return Err(request.error);
      }
      var response := site.post(request.value);
      r := Answer(site, c, embed.value.keys, response);
    }
  }
}
