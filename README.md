# AnimeWatcher core in Dafny

A verified model of the deterministic core of the AnimeWatcher command-line
anime player and its MongoDB title index. The model covers:

- the stream-URL protocol helpers (`UrlInteractions`): AES-CBC framing,
  key extraction from the embed page, URL normalisation, the AJAX URL and form
  dictionary, and the final choice of `source[0]["file"]`;
- the JSON watch tracker (`EpisodeTracker`);
- the episode menu (`EpisodeMenu`);
- name and link formatting and the episode-range fold (`AnimeInteractions`);
- the curses list navigator;
- the prompt validators;
- the title search and duplicate removal in `database.py`.

One Dafny module per source file:

| module | file | source |
|---|---|---|
| `UrlOperations` | `url_operations.dfy` | `AnimeWatcher/UrlOperations.py` |
| `TrackerOperations` | `tracker_operations.dfy` | `AnimeWatcher/TrackerOperations.py` |
| `EpisodeOperations` | `episode_operations.dfy` | `AnimeWatcher/EpisodeOperations.py` |
| `WebOperations` | `web_operations.dfy` | `AnimeWatcher/WebOperations.py` |
| `EpisodesList` | `episodes_list.dfy` | `AnimeWatcher/EpisodesList.py` |
| `UserInteractions` | `user_interactions.dfy` | `AnimeWatcher/UserInteractions.py` |
| `Database` | `database.dfy` | `database.py` |

Two further modules support them:

- `Wrappers` (`wrappers.dfy`): `Option` and `Result`.
- `Text` (`text.dfy`): the Python string built-ins the core relies on:
  - `str.lower`, `str.isdigit` and `str.startswith`;
  - `int()` on a digit string and `str()` on an integer;
  - the `in` substring test;
  - `str.find` of one character.

### How the model is shaped

- **Object state becomes classes.** The tracker's `episode_list`, the
  `ajax_url` field of `UrlInteractions` and the MongoDB collection are classes
  whose methods reassign `seq` fields. Each method's `ensures` ties the new
  state to a specification function of the old state, such as `MarkWatched`,
  `ExtendUpTo`, `AjaxUrlFor` or `Without`. Lemmas then prove what the code
  promises about those functions.
- **Loops stay methods with invariants.** These are:
  - `update_anime`;
  - `check_for_new_episodes`;
  - `get_number_episodes`;
  - `displayEpisodes` and `displayAnimes`;
  - the key loop of `curses_anime_list`;
  - the re-prompt loops;
  - `delete_duplicates`.
- **Outside effects become parameters.** Each of these is a parameter the
  caller supplies:
  - network access, HTML scraping and JSON decoding: a `Site` record of
    functions;
  - AES and base64: a `Cipher` record;
  - the tracker's JSON file: a `StoredFile` value;
  - key presses and typed lines: sequences of events.
- **The decrypt-after-encrypt law is a precondition.** It is the ghost
  predicate `InvertsBlocks`. Lemmas that need it take it as a `requires`.

### Behaviour of the code worth knowing

- **Padding of a 16-aligned plaintext.** When the length is a multiple of
  16, the padding lambda (`AnimeWatcher/UrlOperations.py:44`) appends sixteen
  copies of `chr(0)`. The decrypt strip removes them, so such a plaintext
  round-trips.
- **Key count.** Key extraction succeeds only when the page yields exactly
  three matches (`AnimeWatcher/UrlOperations.py:195-196`).
- **Blank query values.** `parse_qsl` drops pairs with an empty value, as it
  does by default. The expectation in `Test/test.py:394-421` that blank fields
  survive is therefore not what the code does.

## Model

| member | source | states |
|---|---|---|
| `UrlOperations.Padding` | AnimeWatcher/UrlOperations.py:44 | The padded text is a multiple of 16 long. It is strictly longer than the input by at most 16. The input is a prefix. Every added character has code `len mod 16`. An aligned input gets sixteen `chr(0)`. |
| `UrlOperations.Strip` | AnimeWatcher/UrlOperations.py:240 | The result is a contiguous slice of the input. Everything cut away on either side is a character 0x00–0x10. Neither end of the result is such a character. |
| `UrlOperations.StripLeavesSlice` | AnimeWatcher/UrlOperations.py:240 | Cutting strip characters off the front, then off the back, leaves a slice of the input surrounded only by strip characters. |
| `UrlOperations.StripPaddingRoundTrip` | AnimeWatcher/UrlOperations.py:236-241 | Stripping the padded text gives back the input exactly when the input neither starts nor ends with a character 0x00–0x10. |
| `UrlOperations.AesEncrypt` | AnimeWatcher/UrlOperations.py:208-222 | It fails exactly when `AES.new` refuses the key or iv length (a key of 16, 24 or 32 bytes and a 16-byte iv are accepted). For a cipher whose opening inverts its sealing, opening the result gives back the padded plaintext. |
| `UrlOperations.AesDecrypt` | AnimeWatcher/UrlOperations.py:224-243 | Decryption fails exactly when `AES.new` refuses the key or iv length or the ciphertext cannot be opened. Otherwise the result is the opened text stripped at both ends. |
| `UrlOperations.AesRoundTrip` | AnimeWatcher/UrlOperations.py:208-243 | For a cipher whose opening inverts its sealing and an accepted key and iv, decrypting an encryption returns the plaintext exactly when the plaintext has no character 0x00–0x10 at either end. |
| `UrlOperations.CreateEmbeddedUrl` | AnimeWatcher/UrlOperations.py:121-122 | The result always starts with `https:`. An input already starting with it is returned unchanged. Any other input gets `https:` prefixed. |
| `UrlOperations.EmbeddedUrlIsIdempotent` | AnimeWatcher/UrlOperations.py:121-122 | Normalising twice equals normalising once. |
| `UrlOperations.FindKeys` | AnimeWatcher/UrlOperations.py:193 | Every match the scan returns is a non-empty run of digits. |
| `UrlOperations.DigitRunIsMaximal` | AnimeWatcher/UrlOperations.py:193 | The `\d+` run at a position holds only digits and stops at the first non-digit or at the end of the page. |
| `UrlOperations.FindKeysTakes` | AnimeWatcher/UrlOperations.py:193 | At `container-` or `videocontent-` followed by a maximal digit run, the scan returns that run and continues after it. |
| `UrlOperations.FindKeysSkipsSeparator` | AnimeWatcher/UrlOperations.py:193 | Text holding no `c` or `v` adds no match. |
| `UrlOperations.GetEncryptionKey` | AnimeWatcher/UrlOperations.py:191-206 | Extraction succeeds exactly when there are three matches. Key, iv and second key are then the three digit runs in page order. |
| `UrlOperations.IndexOfAny` | AnimeWatcher/UrlOperations.py:255 | The result is the first position holding one of the delimiter characters, or the length when there is none. |
| `UrlOperations.ParseUrl` | AnimeWatcher/UrlOperations.py:255 | The parsed netloc holds no `/`, `?` or `#`. The path holds no `?` or `#`. The query holds no `#`. |
| `UrlOperations.ParseComposeRoundTrip` | AnimeWatcher/UrlOperations.py:255-256 | Parsing a composed well-formed URL gives back its scheme, netloc, path, query and fragment. |
| `UrlOperations.NetlocEndFollows` | AnimeWatcher/UrlOperations.py:255-256 | In a composed URL, the part after the netloc is empty or starts with `/`, `?` or `#`. |
| `UrlOperations.SplitJoin` | AnimeWatcher/UrlOperations.py:316 | Joining the `&`-split fields with `&` gives back the query string. |
| `UrlOperations.SplitPiecesAvoidSeparator` | AnimeWatcher/UrlOperations.py:316 | No field produced by the split contains the separator. |
| `UrlOperations.PlusToSpace` | AnimeWatcher/UrlOperations.py:316 | The decoded text has the same length, with every `+` read as a space and nothing else changed. |
| `UrlOperations.QueryField` | AnimeWatcher/UrlOperations.py:316 | A field splits at its first `=`. The field is dropped when it has no `=` or an empty value. The name has no `=`. |
| `UrlOperations.IdFieldSplitsAtFirstEquals` | AnimeWatcher/UrlOperations.py:315-316 | The query `id=` + v parses to the single pair (`id`, v), even when v contains `=`. |
| `UrlOperations.Get` | AnimeWatcher/UrlOperations.py:286-288 | A lookup finds nothing exactly when no entry has the key. Otherwise it returns the value of an entry with that key. |
| `UrlOperations.Put` | AnimeWatcher/UrlOperations.py:288 | After the update the key maps to the new value. Every other key keeps its lookup. An existing key keeps its position. A new key is appended. A dict with distinct keys keeps them distinct. |
| `UrlOperations.ToDict` | AnimeWatcher/UrlOperations.py:286 | `dict(pairs)` holds each key at most once. |
| `UrlOperations.ToDictLastWins` | AnimeWatcher/UrlOperations.py:286 | Building a dict from pairs makes each key map to its last value in the pair list. |
| `UrlOperations.CreateId` | AnimeWatcher/UrlOperations.py:305-316 | It succeeds exactly when the query has an `id` pair. The value is that of the last `id` pair. |
| `UrlOperations.CreateIdOfIdQuery` | AnimeWatcher/UrlOperations.py:315-316 | For a URL whose query is `id=` + v, the id is v. |
| `UrlOperations.FormData` | AnimeWatcher/UrlOperations.py:284-290 | `id` maps to the encrypted id, overriding any parsed id. Every other key maps to its last parsed value, with `+` read as a space. No value except `id` holds `+`. No key occurs twice, so the posted form has a single `id`. |
| `UrlOperations.LastValueIsAValue` | AnimeWatcher/UrlOperations.py:286 | A key's last value is the value of one of the pairs. |
| `UrlOperations.CreateDictData` | AnimeWatcher/UrlOperations.py:271-290 | It succeeds exactly when the page's episode data is found and decrypts. The dict is then the form data of the decrypted text. |
| `UrlOperations.CreateHeaders` | AnimeWatcher/UrlOperations.py:318-331 | The headers are exactly `x-requested-with: XMLHttpRequest` and a `referer` equal to the episode URL. |
| `UrlOperations.AjaxUrlOfComposedUrl` | AnimeWatcher/UrlOperations.py:245-256 | For a composed URL, the AJAX URL is its scheme, `://`, its netloc, then the current field. |
| `UrlOperations.AjaxUrlGrowsOnReuse` | AnimeWatcher/UrlOperations.py:256 | A first build yields `scheme://netloc/encrypt-ajax.php?`. A second build, on the field as `get_stream_url` overwrites it with the first result, prefixes `scheme://netloc` again and is strictly longer. |
| `UrlOperations.CheckResponseError` | AnimeWatcher/UrlOperations.py:50-69 | It reports nothing exactly when the status is outside 400–599. Otherwise it reports an error. |
| `UrlOperations.GetStreamFile` | AnimeWatcher/UrlOperations.py:365-412 | It succeeds exactly when the source list is non-empty and its first element has a `file` key. The value is that `file`. |
| `UrlOperations.EmbedAndKeys` | AnimeWatcher/UrlOperations.py:126-206 | It fails when no active video link is found or the keys cannot be extracted. Otherwise the embed URL is the normalised link and the keys are those of its page. |
| `UrlOperations.BuildPost` | AnimeWatcher/UrlOperations.py:393-404 | It succeeds exactly when the id is found, the key and iv are accepted and the form data is built. The request then goes to the AJAX URL, with alias equal to the embed URL's id. Its form is the whole `create_dict_data` result for the encrypted alias, so `id` maps to the encrypted alias. Its headers are `create_headers` of the embed URL. |
| `UrlOperations.PostedIdDecryptsToAlias` | AnimeWatcher/UrlOperations.py:292-303 | For a cipher whose opening inverts its sealing, the posted form's `id` decrypts back to the alias exactly when the alias has no character 0x00–0x10 at either end. |
| `UrlOperations.Answer` | AnimeWatcher/UrlOperations.py:351-363 | An error status fails. A success means the body was present and decrypted with the second key, and the answer is the `file` of the first decoded source. Conversely, a successful response whose body decrypts and decodes gives exactly the stream-file choice on its sources. |
| `UrlOperations.UrlInteractions.constructor` | AnimeWatcher/UrlOperations.py:40 | The `ajax_url` field starts as `/encrypt-ajax.php?`. |
| `UrlOperations.UrlInteractions.CreateAjaxUrl` | AnimeWatcher/UrlOperations.py:245-256 | The AJAX URL ends with the current `ajax_url` field. |
| `UrlOperations.UrlInteractions.GetStreamingUrl` | AnimeWatcher/UrlOperations.py:377-414 | The embed step or key step can fail. Then the field is untouched and the call fails. Otherwise the field is overwritten with the absolute AJAX URL. After that, the call fails if the request cannot be built, and otherwise returns the answer to the posted request. |
| `TrackerOperations.ReadJsonFile` | AnimeWatcher/TrackerOperations.py:21-36 | A missing or undecodable file loads as the empty list. An unreadable file is an error. A stored list loads as itself. |
| `TrackerOperations.EpisodeTracker.constructor` | AnimeWatcher/TrackerOperations.py:17-36 | The table is the loaded list. A missing file is replaced by an empty stored file. |
| `TrackerOperations.EpisodeTracker.SaveJsonFile` | AnimeWatcher/TrackerOperations.py:60-67 | The stored file becomes the current table. The table is unchanged. |
| `TrackerOperations.EpisodeTracker.AddAnime` | AnimeWatcher/TrackerOperations.py:43-48 | Exactly one record is appended: the title with episodes start..end, all unwatched. The table is then saved. |
| `TrackerOperations.EpisodeRange` | AnimeWatcher/TrackerOperations.py:47 | The range has `max(0, hi - lo + 1)` entries. Entry k is episode `lo + k`, unwatched. |
| `TrackerOperations.MaxEpisode` | AnimeWatcher/TrackerOperations.py:73 | The result is the number of some entry, and no entry's number exceeds it. |
| `TrackerOperations.MarkInAnime` | AnimeWatcher/TrackerOperations.py:52-56 | The record keeps its title, length and episode numbers. An entry is watched afterwards iff it was before, or the title and number match. |
| `TrackerOperations.MarkWatched` | AnimeWatcher/TrackerOperations.py:52-56 | Same for the whole table: same records, titles, lengths and numbers; `watched` is set only on entries matching both title and number. |
| `TrackerOperations.EpisodeTracker.MarkRecord` | AnimeWatcher/TrackerOperations.py:53-57 | The inner loop over one record of the title leaves that record marked and the rest of the table unchanged. The file is saved exactly when an entry of the record had the number. |
| `TrackerOperations.EpisodeTracker.UpdateAnime` | AnimeWatcher/TrackerOperations.py:50-57 | The nested loops leave the table equal to the marked table. It is saved exactly when some entry matched. |
| `TrackerOperations.MarkWatchedIsIdempotent` | AnimeWatcher/TrackerOperations.py:50-57 | Marking the same episode twice equals marking it once. |
| `TrackerOperations.MarkWatchedKeepsContiguous` | AnimeWatcher/TrackerOperations.py:50-57 | Marking keeps every record's numbers a contiguous ascending run. |
| `TrackerOperations.ExtendAnime` | AnimeWatcher/TrackerOperations.py:72-76 | The title is kept and the old entries are a prefix. Nothing changes unless the record has entries with a maximum below the new maximum. When it grows, the appended entries are exactly the range from the old maximum + 1 to the new maximum, unwatched. |
| `TrackerOperations.ExtendAppendsNextNumbers` | AnimeWatcher/TrackerOperations.py:73-76 | A growing record gains `max_episode - current_max` entries, numbered current_max + 1, current_max + 2, ... in order, all unwatched. |
| `TrackerOperations.FirstEmptyIndex` | AnimeWatcher/TrackerOperations.py:71-73 | The result is the first record with this title and no episodes, or the table length. |
| `TrackerOperations.FindTitle` | AnimeWatcher/TrackerOperations.py:82-83 | The result is the first record with this title, or the table length when there is none. |
| `TrackerOperations.EpisodeTracker.CheckForNewEpisodes` | AnimeWatcher/TrackerOperations.py:69-78 | It succeeds exactly when no record of the title is empty. The table is the old table with every record before the first empty one passed through `ExtendAnime`, and the records from there on unchanged. It is saved exactly when one of them grew. |
| `TrackerOperations.EpisodeTracker.ExtendRecord` | AnimeWatcher/TrackerOperations.py:71-77 | One pass of the check loop extends the record at that position and leaves the rest of the table unchanged. The file is saved exactly when that record grew. |
| `TrackerOperations.ExtendKeepsContiguous` | AnimeWatcher/TrackerOperations.py:74-76 | Extension keeps a record's numbers a contiguous ascending run. A record that grows ends at the new maximum. |
| `TrackerOperations.ExtendUpToKeepsContiguous` | AnimeWatcher/TrackerOperations.py:69-78 | The same holds for the whole table after the check loop. |
| `TrackerOperations.ExtendIsIdempotent` | AnimeWatcher/TrackerOperations.py:74 | A second extension to the same maximum changes nothing. |
| `TrackerOperations.AddedRecordIsFresh` | AnimeWatcher/TrackerOperations.py:47 | A new record is contiguous and all unwatched. With start > end its episode list is empty. |
| `TrackerOperations.AddKeepsContiguous` | AnimeWatcher/TrackerOperations.py:43-48 | Appending a record keeps every record contiguous. |
| `TrackerOperations.EmptyRecordBlocksChecks` | AnimeWatcher/TrackerOperations.py:47-73 | Right after a record is created with start > end, the table holds an empty record of that title, so the next check of that title fails. |
| `TrackerOperations.EmptyRecordPersists` | AnimeWatcher/TrackerOperations.py:43-78 | An empty record of the title survives every later `update_anime`, `check_for_new_episodes` (of any title) and `add_anime`, so every later check of that title fails too. |
| `TrackerOperations.Unwatched` | AnimeWatcher/TrackerOperations.py:85 | Every returned number lies in start..end. A number is returned iff some entry with that number is unwatched and in range. |
| `TrackerOperations.UnwatchedAppend` | AnimeWatcher/TrackerOperations.py:85 | The comprehension goes entry by entry: the numbers of two concatenated lists are those of the first followed by those of the second, so the returned numbers keep the record's order and multiplicities. |
| `TrackerOperations.UnwatchedOne` | AnimeWatcher/TrackerOperations.py:85 | One entry contributes its number exactly when it is unwatched and in start..end, and nothing otherwise. |
| `TrackerOperations.MarkedIsNotPending` | AnimeWatcher/TrackerOperations.py:50-85 | After marking episode n, the unwatched numbers are the earlier ones minus n. |
| `TrackerOperations.EpisodeTracker.GetWatchedList` | AnimeWatcher/TrackerOperations.py:80-89 | An unknown title appends exactly one fresh start..end record, saves, and returns the empty list. A known title first extends to end, and the file is saved exactly when a record grew. The call then fails iff an empty record blocks the check. Otherwise it returns the unwatched numbers of the first record with that title. |
| `EpisodeOperations.EpisodeMenu.NextEpisode` | AnimeWatcher/EpisodeOperations.py:50-64 | The next episode is current + 1 below the maximum. Otherwise it is current. |
| `EpisodeOperations.EpisodeMenu.PreviousEpisode` | AnimeWatcher/EpisodeOperations.py:66-80 | The previous episode is current − 1 above the start. Otherwise it is current. |
| `EpisodeOperations.EpisodeMenu.ChangeAnimeChoice` | AnimeWatcher/EpisodeOperations.py:81-87 | Changing anime yields the change outcome. |
| `EpisodeOperations.EpisodeMenu.HandleChoice` | AnimeWatcher/EpisodeOperations.py:31-48 | `n` and `p` step. `q` quits and `c` changes, whatever the current episode. Any other choice keeps the current episode. |
| `EpisodeOperations.StepStaysInRange` | AnimeWatcher/EpisodeOperations.py:60-80 | From an episode in range, next and previous stay in range and move by at most one. |
| `EpisodeOperations.HandleChoiceStaysInRange` | AnimeWatcher/EpisodeOperations.py:31-48 | Whatever the choice, an episode outcome from an episode in range is in range. |
| `EpisodeOperations.SingleEpisodeIsFixed` | AnimeWatcher/EpisodeOperations.py:60-80 | With start = max, next and previous both return current. |
| `EpisodeOperations.NextThenPrevious` | AnimeWatcher/EpisodeOperations.py:60-80 | Below the maximum and at or above the start, previous undoes next. |
| `WebOperations.RemoveSymbols` | AnimeWatcher/WebOperations.py:271 | No character among `: ; \ [ ]` remains. Every character kept was in the input. The text does not grow. |
| `WebOperations.RemoveSymbolsAppend` | AnimeWatcher/WebOperations.py:271 | Removal distributes over concatenation, so exactly those characters are dropped and the others keep their order. |
| `WebOperations.FormatAnimeName` | AnimeWatcher/WebOperations.py:254-273 | The slug has no spaces, no upper-case letters and none of the removed symbols. It is no longer than the name. |
| `WebOperations.FormatAnimeNameAppend` | AnimeWatcher/WebOperations.py:269-271 | Formatting distributes over concatenation. |
| `WebOperations.FormatAnimeNameChar` | AnimeWatcher/WebOperations.py:269-271 | A space becomes `-`. An upper-case letter becomes its lower-case form. A removed symbol vanishes. Any other character is kept. |
| `WebOperations.FormatAnimeNameFixesSlugs` | AnimeWatcher/WebOperations.py:269-271 | A text already free of spaces, capitals and removed symbols is left unchanged. |
| `WebOperations.FormatAnimeNameIdempotent` | AnimeWatcher/WebOperations.py:267-273 | Formatting twice equals formatting once. |
| `WebOperations.FormatEpisodeLink` | AnimeWatcher/WebOperations.py:278-294 | The link is the site base URL, then the name, `-episode-` and the decimal episode number. |
| `WebOperations.EpisodeLinkEndsWithNumber` | AnimeWatcher/WebOperations.py:293 | The decimal episode number can be read back from the end of the link. |
| `WebOperations.GetNumberEpisodes` | AnimeWatcher/WebOperations.py:232-247 | The fold returns nothing exactly for an empty list. Otherwise it returns the least start plus one and the greatest end. |
| `WebOperations.BoundsAreUnique` | AnimeWatcher/WebOperations.py:238-247 | The bounds depend only on the multiset of ranges, not on their order. |
| `WebOperations.SelectorConstantName` | AnimeWatcher/WebOperations.py:56 | The constant name has the length of the type name. Position by position, a space becomes `_`, a lower-case letter becomes its upper-case form, and every other character is kept. |
| `WebOperations.LocatorByNameRoundTrip` | AnimeWatcher/WebOperations.py:56 | Every Selenium locator is found both from its type name (such as `css selector`) and from its constant name (such as `CSS_SELECTOR`). |
| `EpisodesList.GetNumberOfDisplays` | AnimeWatcher/EpisodesList.py:21-24 | The number of rows shown is `min(len, 20)`. |
| `EpisodesList.DisplayEpisodes` | AnimeWatcher/EpisodesList.py:25-43 | Rows are shown for episodes cursor+1 up to `min(cursor + displays, len)`. Only the first row is marked. |
| `EpisodesList.DisplayAnimes` | AnimeWatcher/EpisodesList.py:3-19 | The shown entries are the cursor entry plus those strictly between cursor and cursor+20, numbered from 1. Only the cursor entry is marked. |
| `EpisodesList.CursesAnimeList` | AnimeWatcher/EpisodesList.py:59-94 | The key loop returns what the navigation function gives for the key sequence from cursor 0. |
| `EpisodesList.EnterAndQuit` | AnimeWatcher/EpisodesList.py:70-74 | Enter returns cursor+1 and `q` returns 0. |
| `EpisodesList.ArrowsKeepCursorInRange` | AnimeWatcher/EpisodesList.py:66-69 | From a cursor in range, up and down keys followed by Enter return an index in 1..len. |
| `EpisodesList.TwoDigitsThenEnter` | AnimeWatcher/EpisodesList.py:76-92 | Two digits then a non-digit then Enter select the clamped two-digit number. |
| `EpisodesList.QuitEndingDigitRunIsIgnored` | AnimeWatcher/EpisodesList.py:84-92 | A `q` that ends a digit run is consumed without quitting. |
| `EpisodesList.ZeroThenEnterLooksLikeQuit` | AnimeWatcher/EpisodesList.py:70-78 | `0`, a timeout, then Enter returns 0, the quit value. |
| `EpisodesList.FirstDigitIsUnclamped` | AnimeWatcher/EpisodesList.py:76-78 | On a three-item list, `9`, a timeout, then Enter returns 9, an index past the end. |
| `EpisodesList.ClampedNavigationInRange` | AnimeWatcher/EpisodesList.py:59-94 | With the first digit clamped as the later ones are, every result from a cursor in range is 0 (quit) or a position in 1..len. |
| `EpisodesList.ClampedDigitEntryInRange` | AnimeWatcher/EpisodesList.py:84-92 | With clamping, every result of digit entry from a cursor in range lies in 0..len. |
| `EpisodesList.ClampedFirstDigitStaysOnList` | AnimeWatcher/EpisodesList.py:76-88 | With clamping, `9`, a timeout, then Enter on a three-item list selects 3. |
| `UserInteractions.GetValidIndex` | AnimeWatcher/UserInteractions.py:2-26 | The index returned is the first typed line that is an integer in 0..max. Lines before it are rejected. Nothing is returned only when every line is rejected. |
| `UserInteractions.SearchListing` | AnimeWatcher/UserInteractions.py:39-41 | The listing numbers the titles from 1 in order. |
| `UserInteractions.SelectAnime` | AnimeWatcher/UserInteractions.py:28-43 | The index returned lies in 0..len(animes) and is the first typed line that parses to such an integer. Every line before it is rejected. Nothing is returned only when every line is rejected. |
| `UserInteractions.GetUserInput` | AnimeWatcher/UserInteractions.py:45-70 | The result is exit iff the first accepted line is exactly `0`. Otherwise it is the first accepted line, returned as typed: all digits, with a value between start and max. |
| `UserInteractions.LeadingZerosKept` | AnimeWatcher/UserInteractions.py:66-67 | For every digit string, putting a `0` in front changes neither whether it is accepted nor, through `int()`, which episode it names. |
| `Text.DigitsValueLeadingZero` | AnimeWatcher/UserInteractions.py:66 | `int()` of a digit string with a leading `0` equals `int()` of the string. |
| `Database.StrLeTotal` | database.py:219-220 | The string order compares every pair of strings. |
| `Database.StrLeTransitive` | database.py:219-220 | The string order is transitive. |
| `Database.KeyLeTotal` | database.py:219-220 | The ranking key (prefix match first, then the title as stored) compares every pair of documents. |
| `Database.KeyLeTransitive` | database.py:219-220 | The ranking key is transitive. |
| `Database.Insert` | database.py:219-220 | Inserting into a ranked list keeps it ranked and adds exactly the one document. |
| `Database.SortByKey` | database.py:219-220 | The sorted list is a permutation of the input, in ranking order. |
| `Database.SortedRanksPrefixFirst` | database.py:219-220 | In a list in key order, every title starting with the input comes before every other title, and within each group the titles ascend. |
| `Database.MatchingDocs` | database.py:173-212 | A document is kept iff its title contains the input case-insensitively, with multiplicities preserved. |
| `Database.MatchingDocsAppend` | database.py:173-212 | The query goes document by document: the matches of two concatenated lists are those of the first followed by those of the second, so matches keep collection order. |
| `Database.FindAnime` | database.py:187-228 | There is no result exactly when nothing matches. Otherwise the result is a permutation of the matches. Every title starting with the input comes before every other title, and each group is in ascending title order, compared code point by code point with case kept. |
| `Database.DuplicateGroup.Extras` | database.py:114 | The extras are exactly the ids after the first. |
| `Database.ExtraIds` | database.py:112-116 | Every non-first id of every group is scheduled for deletion. |
| `Database.NotAnExtraId` | database.py:112-116 | An id that is not a non-first id of any group is not scheduled for deletion. |
| `Database.Without` | database.py:116 | A document survives iff its id is not deleted. |
| `Database.WithoutAppend` | database.py:116 | Deletion distributes over concatenation, so the survivors keep their order. |
| `Database.WithoutOne` | database.py:116 | One document survives exactly when its id is not deleted. |
| `Database.WithoutTwice` | database.py:112-116 | Two deletions in a row equal one deletion of the union. |
| `Database.FirstIdIsKept` | database.py:112-116 | For disjoint groups, the first id of each group is never deleted. |
| `Database.Collection.DeleteMany` | database.py:116 | The collection becomes its documents minus those with a deleted id. |
| `Database.Collection.InsertMany` | database.py:71 | The data is appended to the collection. |
| `Database.DeleteDuplicates` | database.py:99-119 | After the loop, the collection is the old one without every non-first id of every group. |
| `Database.InsertToDb` | database.py:61-83 | The data is appended. Empty data leaves the collection untouched. |

## Left out

- **AES-CBC and base64.** They are a `Cipher` pair of functions (`seal`,
  `open`) and are never implemented. The ciphertext test vectors in
  `Test/test.py` cannot be reproduced. The inverse law is the predicate
  `InvertsBlocks`, taken as a precondition.
- **The HTTP session, retry adapter, cookies and POST.** These are
  `Site.post`. The BeautifulSoup lookups and `json.loads` are the functions
  `Site.activeLinkVideo`, `Site.pageText`, `Site.episodeData` and
  `Site.sources`. Only what the code does with their results is modelled.
- **`urlencode` percent-escaping of the POST form.** The form is kept as
  ordered key/value pairs.
- **Parts of `urlparse` and `parse_qsl`.**
  - `urlparse`: parameters, ports, whitespace stripping and scheme validation
    are not modelled. The model splits at the first `:`, then `//`, then
    `/?#`, `?` and `#`.
  - `parse_qsl`: percent-decoding is not modelled. Only `+` is decoded.
- **`.decode()` of bytes that are not UTF-8.** Strings are character
  sequences and bytes are assumed to be ASCII.
- **Unicode behaviour of `lower()`, `isdigit()` and `\d`.** These are
  modelled on ASCII. Neither is `int()` accepting surrounding whitespace or
  underscores, since typed lines are matched as digit strings.
- **The browser and the player.** The Selenium navigation and element lookups
  of WebOperations.py are not modelled, except the selector-name mapping.
  Nor are Driver/driver_config.py and AnimeFetch. AnimeWatcher/VideoPlayer.py
  (MPV process control) and AnimeWatcher/WatchOperations.py (the interactive
  orchestration loop) are not part of this model.
- **Storage and rendering.** Not modelled:
  - the MongoDB connection, index creation, the duplicate-detecting
    aggregation and `insert_many` duplicate-key errors;
  - curses drawing, colours and `napms`;
  - the installer, configuration, logging and entry points.
- **`find_anime` exceptions.** Exceptions raised by the driver are not
  modelled; only the "no match" path returns nothing.
- **Sort stability.** `SortByKey` orders by the same key as the code but
  promises only a ranked permutation. It does not say which order equal keys
  keep.
- `WebOperations.GetNumberEpisodes`: the `float('inf')` sentinels of an empty
  range list are returned as `None` instead of `(inf + 1, -inf)`.
- `TrackerOperations.EpisodeTracker.constructor`: requires a readable file.
  The re-raised `OSError` path is stated only by `ReadJsonFile`.
- `TrackerOperations.EpisodeTracker.SaveJsonFile`: write failures are not
  modelled.
- **Malformed tracker records.** A record missing a key (a `KeyError`) is not
  modelled: records are typed.
- **Error texts.** Error messages are descriptive strings, not the exact
  exception texts.
- `UrlOperations.AesEncrypt`: padding counts characters, while `.encode()`
  turns them into UTF-8 bytes. A plaintext with a non-ASCII character gives
  a byte string that is not a multiple of 16, and CBC encryption then raises.
  The model works on characters and does not capture that failure.

## Findings

| source | as written | input that shows it | evidently intended | confidence | as-written member | corrected member |
|---|---|---|---|---|---|---|
| AnimeWatcher/EpisodesList.py:76-78 | The first digit of a run sets `cursor = int(key) - 1` without the clamp to `0..len-1` that later digits get (line 88) | A three-item list with the keys `9`, a timeout, then Enter returns 9. That is past the end, and `0` then Enter returns 0, the quit value. | Clamp the first digit like the others, so every result lies in 0..len | not executed | `EpisodesList.FirstDigitIsUnclamped` | `EpisodesList.ClampedNavigationInRange` |
