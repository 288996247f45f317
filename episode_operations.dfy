/**
 * The episode menu: a small state machine over episode numbers, driven by
 * the letter the user types ('n', 'p', 'c', 'q').
 */
module EpisodeOperations {

  /** What `handle_choice` hands back: an episode number, `False` (change) or `None` (quit). */
  datatype MenuResult = Episode(number: int) | ChangeAnime | Quit

  /** The menu's bounds never change after construction, so the menu is a value. */
  datatype EpisodeMenu = EpisodeMenu(startEpisode: int, maxEpisode: int)
  {
    /** 'n': one step forward unless already at the last episode. */
    function NextEpisode(current: int): (r: int)
      ensures current < maxEpisode ==> r == current + 1
      ensures current >= maxEpisode ==> r == current
    {
      if current < maxEpisode then current + 1 else current
    }

    /** 'p': one step back unless already at the first episode. */
    function PreviousEpisode(current: int): (r: int)
      ensures current > startEpisode ==> r == current - 1
      ensures current <= startEpisode ==> r == current
    {
      if current > startEpisode then current - 1 else current
    }

    /** 'c' always asks for another title. */
    function ChangeAnimeChoice(): (r: MenuResult)
      ensures r.ChangeAnime?
    {
      ChangeAnime
    }

    function HandleChoice(choice: string, current: int): (r: MenuResult)
      ensures choice == "n" ==> r == Episode(NextEpisode(current))
      ensures choice == "p" ==> r == Episode(PreviousEpisode(current))
      ensures choice == "q" ==> r == Quit
      ensures choice == "c" ==> r == ChangeAnime
      ensures choice !in {"n", "p", "q", "c"} ==> r == Episode(current)
    {
      if choice == "n" then Episode(NextEpisode(current))
      else if choice == "p" then Episode(PreviousEpisode(current))
      else if choice == "q" then Quit
      else if choice == "c" then ChangeAnimeChoice()
      else Episode(current)
    }

    predicate InRange(e: int) { startEpisode <= e <= maxEpisode }
  }

  /** Stepping forward or back from a valid episode stays valid and moves by at most one. */
  lemma StepStaysInRange(menu: EpisodeMenu, choice: string, current: int)
    requires menu.InRange(current)
    requires choice == "n" || choice == "p"
    ensures menu.HandleChoice(choice, current).Episode?
    ensures menu.InRange(menu.HandleChoice(choice, current).number)
    ensures -1 <= menu.HandleChoice(choice, current).number - current <= 1
  {
  }

  /** Every result of the menu from a valid episode is a valid episode or a terminal signal. */
  lemma HandleChoiceStaysInRange(menu: EpisodeMenu, choice: string, current: int)
    requires menu.InRange(current)
    ensures var r := menu.HandleChoice(choice, current);
      r.Episode? ==> menu.InRange(r.number)
  {
  }

  /** With a single-episode title, neither 'n' nor 'p' moves. */
  lemma SingleEpisodeIsFixed(menu: EpisodeMenu, current: int)
    requires menu.startEpisode == menu.maxEpisode == current
    ensures menu.HandleChoice("n", current) == Episode(current)
    ensures menu.HandleChoice("p", current) == Episode(current)
  {
  }

  /** 'n' then 'p' returns to where it started unless the first step hit the end. */
  lemma NextThenPrevious(menu: EpisodeMenu, current: int)
    requires menu.startEpisode <= current < menu.maxEpisode
    ensures menu.PreviousEpisode(menu.NextEpisode(current)) == current
  {
  }
}
