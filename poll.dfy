/**
 * The whole refresh: the sheet text is parsed into rows, the answers are
 * tallied, the tally is ranked, each ranked game is given an image, and
 * the leaderboard shows the result in ten slots.
 */
module Poll {
  import opened Seqs
  import opened Rows
  import opened Tally
  import opened Ranking
  import opened Images
  import opened Display

  /** The ranking a sheet text produces. */
  function Aggregate(text: string): seq<Game>
  {
    var rows := ParseRows(text);
    KeyOrderMatchesCounts(rows);
    Rank(VoteCounts(rows), KeyCreationOrder(rows))
  }

  /**
   * The ranking of a sheet has min(10, number of names) entries, in
   * non-increasing order of votes; each is a name of the tally with its
   * count, which is at least one; no name appears twice; and a name left
   * out has no more votes than the last entry of a full ranking.
   */
  lemma AggregateShape(text: string)
    ensures var counts := VoteCounts(ParseRows(text));
      |Aggregate(text)| == if |counts| < RankSize then |counts| else RankSize
    ensures NonIncreasing(Aggregate(text))
    ensures var counts := VoteCounts(ParseRows(text));
      forall g :: g in Aggregate(text) ==> g.name in counts && g.votes == counts[g.name] && g.votes >= 1
    ensures Distinct(Names(Aggregate(text)))
    ensures var counts := VoteCounts(ParseRows(text)); var r := Aggregate(text);
      forall n :: n in counts && n !in Names(r) ==> |r| == RankSize && counts[n] <= r[|r| - 1].votes
  {
    var rows := ParseRows(text);
    KeyOrderMatchesCounts(rows);
    CountsAreOccurrences(rows);
    RankShape(VoteCounts(rows), KeyCreationOrder(rows));
  }

  /** A sheet with a header and no data row, or a blank one, ranks nothing. */
  lemma AggregateEmpty(text: string)
    requires |Lines(text)| <= 1
    ensures Aggregate(text) == []
  {
    var rows := ParseRows(text);
    HeaderOnlyIsEmpty(rows);
    KeyOrderMatchesCounts(rows);
    RankLength(VoteCounts(rows), KeyCreationOrder(rows));
  }

  /**
   * With no empty image in the loaded cache, every ranked game of a
   * refresh gets a non-empty image, and the cache it saves has none either.
   */
  lemma RefreshImagesNonEmpty(text: string, cache: map<string, string>, host: Host)
    requires NonEmptyImages(cache)
    ensures forall g :: g in Aggregate(text) ==> ChosenImage(g.name, cache, host, AppFallbacks) != ""
    ensures NonEmptyImages(CacheAfterAll(Aggregate(text), cache, host, AppFallbacks))
  {
    AppFallbacksNonEmpty();
    forall g | g in Aggregate(text) ensures ChosenImage(g.name, cache, host, AppFallbacks) != "" {
      ImagesNonEmpty(g.name, cache, host, AppFallbacks);
    }
    CacheAfterAllNonEmpty(Aggregate(text), cache, host, AppFallbacks);
  }

  /**
   * One refresh: parse, tally, rank and resolve. The result is the
   * ranking with each game's resolved image, and the cache ends as the
   * resolution of the ranked names in order leaves it.
   */
  method FetchSheet(text: string, cache: ImageCache, host: Host) returns (topGames: seq<DisplayEntry>)
    modifies cache
    ensures |topGames| == |Aggregate(text)|
    ensures forall i :: 0 <= i < |topGames| ==>
      var g := Aggregate(text)[i];
      topGames[i] == DisplayEntry(g.name, g.votes, ChosenImage(g.name, old(cache.entries), host, AppFallbacks), false)
    ensures cache.entries == CacheAfterAll(Aggregate(text), old(cache.entries), host, AppFallbacks)
  {
    var rows := ParseRows(text);
    var voteCounts, order := CountVotes(rows);
    KeyOrderMatchesCounts(rows);
    var sortedGames := Rank(voteCounts, order);
    RankNamesDistinct(voteCounts, order);
    topGames := ResolveAll(sortedGames, cache, host, AppFallbacks);
  }

  /**
   * A refresh followed by the padding: exactly ten slots, the ranked games
   * first, with their resolved images, then placeholders.
   */
  method Leaderboard(text: string, cache: ImageCache, host: Host) returns (displayGames: seq<DisplayEntry>)
    modifies cache
    ensures |displayGames| == Slots
    ensures forall i :: 0 <= i < |Aggregate(text)| ==>
      var g := Aggregate(text)[i];
      displayGames[i] == DisplayEntry(g.name, g.votes, ChosenImage(g.name, old(cache.entries), host, AppFallbacks), false)
    ensures forall i :: |Aggregate(text)| <= i < Slots ==> displayGames[i] == Placeholder
  {
    var topGames := FetchSheet(text, cache, host);
    assert |topGames| <= Slots;
    displayGames := Pad(topGames);
  }
}
