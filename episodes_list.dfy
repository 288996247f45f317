/**
 * The curses list picker: which rows are drawn for a cursor position, and
 * the key loop that moves the cursor until a row is chosen or the user quits.
 * Keys are the integer codes `getch` returns; drawing is left out.
 */
module EpisodesList {
  import opened Wrappers
  import opened Text

  const WindowRows := 20

  /** curses key codes the loop reacts to; `Timeout` is what `getch` gives when its timeout expires. */
  const KeyDown := 258
  const KeyUp := 259
  const KeyEnter := 10
  const KeyQuit := 113
  const KeyZero := 48
  const KeyNine := 57
  const Timeout := -1

  predicate IsDigitKey(c: int) { KeyZero <= c <= KeyNine }

  /** `get_number_of_displays`: the list's length, capped at twenty rows. */
  function GetNumberOfDisplays(length: nat): (r: nat)
    ensures r <= length && r <= WindowRows
    ensures r == length || r == WindowRows
  {
    if length < WindowRows then length else WindowRows
  }

  function Min(a: int, b: int): int { if a < b then a else b }
  function Max(a: int, b: int): int { if a < b then b else a }

  /** One drawn line: the 1-based number shown, and whether it carries the `>` marker. */
  datatype Row = Row(number: int, selected: bool)

  /**
   * `displayEpisodes`: draws indices `cursor .. min(cursor + displays, length) - 1`,
   * marking only the first, which is the cursor row.
   */
  method DisplayEpisodes(length: nat, cursor: int) returns (rows: seq<Row>)
    ensures |rows| == Max(0, Min(cursor + GetNumberOfDisplays(length), length) - cursor)
    ensures forall k :: 0 <= k < |rows| ==> rows[k] == Row(cursor + k + 1, k == 0)
  {
    var maxIndex := Min(cursor + GetNumberOfDisplays(length), length);
    rows := [];
    var i := cursor;
    while i < maxIndex
      invariant cursor <= i <= Max(cursor, maxIndex)
      invariant |rows| == i - cursor
      invariant forall k :: 0 <= k < |rows| ==> rows[k] == Row(cursor + k + 1, k == 0)
    {
      rows := rows + [Row(i + 1, i == cursor)];
      i := i + 1;
    }
  }

  /**
   * `displayAnimes`: walks the whole list and draws the cursor entry and the
   * entries strictly after it and before `cursor + 20`. Whatever the cursor,
   * that is the contiguous window `max(cursor, 0) .. min(cursor + 20, length) - 1`.
   */
  method DisplayAnimes<T>(titles: seq<T>, cursor: int) returns (rows: seq<(Row, T)>)
    ensures var lo := Max(cursor, 0);
            |rows| == Max(0, Min(cursor + WindowRows, |titles|) - lo)
            && forall k :: 0 <= k < |rows| ==>
                 rows[k] == (Row(lo + k + 1, lo + k == cursor), titles[lo + k])
  {
    ghost var lo := Max(cursor, 0);
    rows := [];
    var i := 0;
    while i < |titles|
      invariant 0 <= i <= |titles|
      invariant |rows| == Max(0, Min(cursor + WindowRows, i) - lo)
      invariant forall k :: 0 <= k < |rows| ==> rows[k] == (Row(lo + k + 1, lo + k == cursor), titles[lo + k])
    {
      if i == cursor {
        rows := rows + [(Row(i + 1, true), titles[i])];
      } else if i > cursor && i < cursor + WindowRows {
        rows := rows + [(Row(i + 1, false), titles[i])];
      }
      i := i + 1;
    }
  }

  function Clamp(x: int, lo: int, hi: int): int {
    Max(lo, Min(x, hi))
  }

  function DigitKeysValue(digits: seq<int>): nat
    requires forall i :: 0 <= i < |digits| ==> IsDigitKey(digits[i])
  {
    if |digits| == 0 then 0
    else
      assert IsDigitKey(digits[|digits| - 1]);
      DigitKeysValue(digits[..|digits| - 1]) * 10 + (digits[|digits| - 1] - KeyZero)
  }

  /**
   * What the key loop of `curses_anime_list` returns when it reads `keys`
   * with the cursor at `cursor`; `None` when the keys run out first (the
   * source then waits for more input).
   */
  function Navigate(length: nat, keys: seq<int>, cursor: int): Option<int>
    decreases |keys|, 1
  {
    if |keys| == 0 then None
    else
      var c := keys[0];
      if c == KeyUp && cursor > 0 then Navigate(length, keys[1..], cursor - 1)
      else if c == KeyDown && cursor < length - 1 then Navigate(length, keys[1..], cursor + 1)
      else if c == KeyEnter then Some(cursor + 1)
      else if c == KeyQuit then Some(0)
      else if IsDigitKey(c) then DigitEntry(length, keys[1..], [c], c - KeyZero - 1)
      else Navigate(length, keys[1..], cursor)
  }

  /**
   * The digit-entry mode: every further digit re-clamps the cursor to the
   * list; the first non-digit key (a timeout included) ends the mode and is
   * consumed without being acted on.
   */
  function DigitEntry(length: nat, keys: seq<int>, digits: seq<int>, cursor: int): Option<int>
    requires forall i :: 0 <= i < |digits| ==> IsDigitKey(digits[i])
    decreases |keys|, 0
  {
    if |keys| == 0 then None
    else if IsDigitKey(keys[0]) then
      var more := digits + [keys[0]];
      assert more[..|more| - 1] == digits;
      DigitEntry(length, keys[1..], more, Clamp(DigitKeysValue(more) - 1, 0, length - 1))
    else Navigate(length, keys[1..], cursor)
  }

  /** `curses_anime_list`: the key loop, from a cursor on the first row. */
  method CursesAnimeList(length: nat, keys: seq<int>) returns (r: Option<int>)
    ensures r == Navigate(length, keys, 0)
  {
    var cursor := 0;
    var i := 0;
    while i < |keys|
      invariant 0 <= i <= |keys|
      invariant Navigate(length, keys[i..], cursor) == Navigate(length, keys, 0)
    {
      var c := keys[i];
      assert keys[i..][1..] == keys[i + 1..];
      i := i + 1;
      if c == KeyUp && cursor > 0 {
        cursor := cursor - 1;
      } else if c == KeyDown && cursor < length - 1 {
        cursor := cursor + 1;
      } else if c == KeyEnter {
        return Some(cursor + 1);
      } else if c == KeyQuit {
        return Some(0);
      } else if IsDigitKey(c) {
        var digits := [c];
        cursor := c - KeyZero - 1;
        while true
          invariant 0 <= i <= |keys|
          invariant forall k :: 0 <= k < |digits| ==> IsDigitKey(digits[k])
          invariant DigitEntry(length, keys[i..], digits, cursor) == Navigate(length, keys, 0)
          decreases |keys| - i
        {
          if i == |keys| {
            return None;
          }
          var d := keys[i];
          assert keys[i..][1..] == keys[i + 1..];
          i := i + 1;
          if IsDigitKey(d) {
            var more := digits + [d];
            assert more[..|more| - 1] == digits;
            digits := more;
            cursor := Clamp(DigitKeysValue(digits) - 1, 0, length - 1);
          } else {
            break;
          }
        }
      }
    }
    return None;
  }

  /** Enter picks the row under the cursor, numbered from one; 'q' gives 0. */
  lemma EnterAndQuit(length: nat, rest: seq<int>, cursor: int)
    ensures Navigate(length, [KeyEnter] + rest, cursor) == Some(cursor + 1)
    ensures Navigate(length, [KeyQuit] + rest, cursor) == Some(0)
  {
  }

  predicate IsArrow(c: int) { c == KeyUp || c == KeyDown }

  /**
   * Arrow keys never move a cursor that starts on a row off the list: after
   * any run of arrows, Enter selects a row between 1 and the list's length.
   */
  lemma {:induction false} ArrowsKeepCursorInRange(length: nat, arrows: seq<int>, cursor: int)
    requires 0 <= cursor < length
    requires forall k :: 0 <= k < |arrows| ==> IsArrow(arrows[k])
    ensures var r := Navigate(length, arrows + [KeyEnter], cursor);
            r.Some? && 1 <= r.value <= length
  {
    if |arrows| > 0 {
      assert (arrows + [KeyEnter])[1..] == arrows[1..] + [KeyEnter];
      var c := arrows[0];
      var next := if c == KeyUp && cursor > 0 then cursor - 1
                  else if c == KeyDown && cursor < length - 1 then cursor + 1
                  else cursor;
      ArrowsKeepCursorInRange(length, arrows[1..], next);
    }
  }

  /**
   * A digit run of two or more digits ending in a non-digit key leaves the
   * cursor clamped to the list, and the ending key is dropped: here it is
   * followed by Enter, which selects the clamped row.
   */
  lemma TwoDigitsThenEnter(length: nat, d1: int, d2: int, stop: int, cursor: int)
    requires IsDigitKey(d1) && IsDigitKey(d2) && !IsDigitKey(stop)
    ensures Navigate(length, [d1, d2, stop, KeyEnter], cursor)
         == Some(Clamp((d1 - KeyZero) * 10 + (d2 - KeyZero) - 1, 0, length - 1) + 1)
  {
    assert [d1, d2, stop, KeyEnter][1..] == [d2, stop, KeyEnter];
    assert [d2, stop, KeyEnter][1..] == [stop, KeyEnter];
    assert [stop, KeyEnter][1..] == [KeyEnter];
    var more := [d1] + [d2];
    assert more[..1] == [d1];
    assert [d1][..0] == [];
    assert DigitKeysValue([d1]) == d1 - KeyZero;
    assert DigitKeysValue(more) == (d1 - KeyZero) * 10 + (d2 - KeyZero);
    var c := Clamp(DigitKeysValue(more) - 1, 0, length - 1);
    assert Navigate(length, [KeyEnter], c) == Some(c + 1);
    assert DigitEntry(length, [stop, KeyEnter], more, c) == Some(c + 1);
    assert DigitEntry(length, [d2, stop, KeyEnter], [d1], d1 - KeyZero - 1) == Some(c + 1);
  }

  /** The key that ends a digit run is not acted on: a 'q' there does not quit. */
  lemma QuitEndingDigitRunIsIgnored(length: nat, d: int, rest: seq<int>, cursor: int)
    requires IsDigitKey(d)
    ensures Navigate(length, [d, KeyQuit] + rest, cursor) == Navigate(length, rest, d - KeyZero - 1)
  {
    assert ([d, KeyQuit] + rest)[1..] == [KeyQuit] + rest;
    assert ([KeyQuit] + rest)[1..] == rest;
  }

  /** As written: '0', a timeout, then Enter returns 0, the value that means "quit". */
  lemma ZeroThenEnterLooksLikeQuit(length: nat)
    ensures Navigate(length, [KeyZero, Timeout, KeyEnter], 0) == Some(0)
    ensures Navigate(length, [KeyQuit], 0) == Some(0)
  {
    assert [KeyZero, Timeout, KeyEnter][1..] == [Timeout, KeyEnter];
    assert [Timeout, KeyEnter][1..] == [KeyEnter];
    assert Navigate(length, [KeyEnter], -1) == Some(0);
    assert DigitEntry(length, [Timeout, KeyEnter], [KeyZero], -1) == Some(0);
  }

  /** As written: on a three-row list, '9', a timeout, then Enter returns 9, past the end. */
  lemma FirstDigitIsUnclamped()
    ensures Navigate(3, [KeyNine, Timeout, KeyEnter], 0) == Some(9)
  {
    assert [KeyNine, Timeout, KeyEnter][1..] == [Timeout, KeyEnter];
    assert [Timeout, KeyEnter][1..] == [KeyEnter];
    assert Navigate(3, [KeyEnter], 8) == Some(9);
    assert DigitEntry(3, [Timeout, KeyEnter], [KeyNine], 8) == Some(9);
  }

  /** The key loop with the first digit clamped like the following ones. */
  function NavigateClamped(length: nat, keys: seq<int>, cursor: int): Option<int>
    decreases |keys|, 1
  {
    if |keys| == 0 then None
    else
      var c := keys[0];
      if c == KeyUp && cursor > 0 then NavigateClamped(length, keys[1..], cursor - 1)
      else if c == KeyDown && cursor < length - 1 then NavigateClamped(length, keys[1..], cursor + 1)
      else if c == KeyEnter then Some(cursor + 1)
      else if c == KeyQuit then Some(0)
      else if IsDigitKey(c) then DigitEntryClamped(length, keys[1..], [c], Clamp(c - KeyZero - 1, 0, length - 1))
      else NavigateClamped(length, keys[1..], cursor)
  }

  function DigitEntryClamped(length: nat, keys: seq<int>, digits: seq<int>, cursor: int): Option<int>
    requires forall i :: 0 <= i < |digits| ==> IsDigitKey(digits[i])
    decreases |keys|, 0
  {
    if |keys| == 0 then None
    else if IsDigitKey(keys[0]) then
      var more := digits + [keys[0]];
      assert more[..|more| - 1] == digits;
      DigitEntryClamped(length, keys[1..], more, Clamp(DigitKeysValue(more) - 1, 0, length - 1))
    else NavigateClamped(length, keys[1..], cursor)
  }

  /**
   * With the first digit clamped, every answer on a non-empty list is 0
   * (quit) or the number of a row of the list, whatever keys are pressed.
   */
  lemma {:induction false} ClampedNavigationInRange(length: nat, keys: seq<int>, cursor: int)
    requires 0 <= cursor < length
    ensures var r := NavigateClamped(length, keys, cursor);
            r.Some? ==> 0 <= r.value <= length
    decreases |keys|, 1
  {
    if |keys| > 0 {
      var c := keys[0];
      if c == KeyUp && cursor > 0 {
        ClampedNavigationInRange(length, keys[1..], cursor - 1);
      } else if c == KeyDown && cursor < length - 1 {
        ClampedNavigationInRange(length, keys[1..], cursor + 1);
      } else if c == KeyEnter || c == KeyQuit {
      } else if IsDigitKey(c) {
        ClampedDigitEntryInRange(length, keys[1..], [c], Clamp(c - KeyZero - 1, 0, length - 1));
      } else {
        ClampedNavigationInRange(length, keys[1..], cursor);
      }
    }
  }

  lemma {:induction false} ClampedDigitEntryInRange(length: nat, keys: seq<int>, digits: seq<int>, cursor: int)
    requires 0 <= cursor < length
    requires forall i :: 0 <= i < |digits| ==> IsDigitKey(digits[i])
    ensures var r := DigitEntryClamped(length, keys, digits, cursor);
            r.Some? ==> 0 <= r.value <= length
    decreases |keys|, 0
  {
    if |keys| > 0 {
      if IsDigitKey(keys[0]) {
        var more := digits + [keys[0]];
        assert more[..|more| - 1] == digits;
        ClampedDigitEntryInRange(length, keys[1..], more, Clamp(DigitKeysValue(more) - 1, 0, length - 1));
      } else {
        ClampedNavigationInRange(length, keys[1..], cursor);
      }
    }
  }

  /** With the first digit clamped, the '9' that escaped the list above selects its last row. */
  lemma ClampedFirstDigitStaysOnList()
    ensures NavigateClamped(3, [KeyNine, Timeout, KeyEnter], 0) == Some(3)
  {
    assert [KeyNine, Timeout, KeyEnter][1..] == [Timeout, KeyEnter];
    assert [Timeout, KeyEnter][1..] == [KeyEnter];
    assert NavigateClamped(3, [KeyEnter], 2) == Some(3);
    assert DigitEntryClamped(3, [Timeout, KeyEnter], [KeyNine], 2) == Some(3);
  }
}
