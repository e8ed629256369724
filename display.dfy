/**
 * The leaderboard's ten slots: the resolved games in ranking order, then
 * placeholders until ten entries are shown.
 */
module Display {
  import opened Images

  /** The number of slots on the leaderboard. */
  const Slots: nat := 10

  /** The entry shown in an empty slot. */
  const Placeholder: DisplayEntry := DisplayEntry("En attente...", 0, DefaultImage, true)

  /**
   * Pads the resolved games with placeholders, one at a time, until there
   * are ten entries; a longer list is left as it is.
   */
  method Pad(topGames: seq<DisplayEntry>) returns (displayGames: seq<DisplayEntry>)
    ensures |displayGames| == if |topGames| < Slots then Slots else |topGames|
    ensures forall i :: 0 <= i < |topGames| ==> displayGames[i] == topGames[i]
    ensures forall i :: |topGames| <= i < |displayGames| ==> displayGames[i] == Placeholder
  {
    displayGames := topGames;
    while |displayGames| < Slots
      invariant |topGames| <= |displayGames| <= if |topGames| < Slots then Slots else |topGames|
      invariant forall i :: 0 <= i < |topGames| ==> displayGames[i] == topGames[i]
      invariant forall i :: |topGames| <= i < |displayGames| ==> displayGames[i] == Placeholder
      decreases Slots - |displayGames|
    {
      displayGames := displayGames + [Placeholder];
    }
  }
}
