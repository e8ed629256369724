/**
 * Image resolution for the ranked games. For each name the first
 * applicable rule wins: a hard-coded override, then the image cache, then
 * a remote page-summary lookup over nine candidate titles in a fixed
 * order, then the default image. The cache always ends up holding the
 * image chosen for the name.
 *
 * The remote lookup, and the host's upper- and lower-casing, are
 * parameters: the model says what is done with their answers, not what
 * they answer.
 */
module Images {
  import opened Wrappers
  import opened Seqs
  import opened Ranking

  /** The override table and the default image the resolver falls back on. */
  datatype Fallbacks = Fallbacks(known: map<string, string>, defaultImage: string)

  /** The app's fallbacks: its hard-coded overrides and its default image. */
  const AppFallbacks: Fallbacks := Fallbacks(KnownImages, DefaultImage)

  const DefaultImage: string :=
    "https://upload.wikimedia.org/wikipedia/commons/f/f8/Question_mark_alternate.svg"

  /** The hard-coded overrides, consulted before the cache and the remote lookup. */
  const KnownImages: map<string, string> := map[
    "Roblox" :=
      "https://logos-world.net/wp-content/uploads/2020/11/Roblox-Logo.png",
    "Phasmophobia" :=
      "https://upload.wikimedia.org/wikipedia/commons/thumb/4/47/Phasmophobia_cover.jpg/256px-Phasmophobia_cover.jpg",
    "Misery" :=
      "https://shared.fastly.steamstatic.com/store_item_assets/steam/apps/2119830/f4aa2f3b4b352f7f373026fe592d32eef2c72fce/header.jpg?t=1763600148",
    "Neighbors Suburban Warfare" :=
      "https://shared.fastly.steamstatic.com/store_item_assets/steam/apps/1732430/80b8baec5e77c8338c3931182b631fbde5c5a083/header.jpg?t=1760704191",
    "Mimesis" :=
      "https://encrypted-tbn0.gstatic.com/images?q=tbn:ANd9GcRKLSqcFrpF_OJqPExclC2stRGJTKo1jnb3F-CyIYklHktOuIV2xajJibU_mh_cCApnc0jeoU_uH3WBqSmvKKiR8_sJ5ZGxe0pi-xn0q7F9HQ&s=10"
  ]

  /** Fallbacks whose every image is non-empty, as the app's are. */
  ghost predicate NonEmptyFallbacks(fb: Fallbacks)
  {
    fb.defaultImage != "" && forall k :: k in fb.known ==> fb.known[k] != ""
  }

  /** The app's overrides cover exactly five names, and none of its images is empty. */
  lemma AppFallbacksNonEmpty()
    ensures NonEmptyFallbacks(AppFallbacks)
    ensures AppFallbacks.known.Keys == {"Roblox", "Phasmophobia", "Misery", "Neighbors Suburban Warfare", "Mimesis"}
  {
  }

  /** What one page-summary request for a title comes to. */
  datatype Response =
    | Threw                          // the request, or reading its body, raised an exception
    | NotOk                          // a response without a success status
    | Ok(thumbnail: Option<string>)  // a success; thumbnail.source when the body has one

  /** The host operations the resolver calls but the model does not define. */
  datatype Host = Host(lookup: string -> Response, upper: string -> string, lower: string -> string)

  /** A row of the leaderboard. */
  datatype DisplayEntry = DisplayEntry(name: string, votes: nat, image: string, isPlaceholder: bool)

  /** A response that supplies an image: a success with a non-empty thumbnail. */
  predicate Usable(r: Response)
  {
    r.Ok? && r.thumbnail.Some? && r.thumbnail.value != ""
  }

  /** A response that ends the search: an image, or an exception. */
  predicate Decisive(r: Response)
  {
    r.Threw? || Usable(r)
  }

  /** The three groups of candidate titles, in the order they are tried. */
  function TitleGroups(name: string, host: Host): seq<seq<string>>
  {
    [
      [name + " (video game)", host.upper(name) + " (video game)", host.lower(name) + " (video game)"],
      [name + " (game)", host.upper(name) + " (game)", host.lower(name) + " (game)"],
      [name, host.upper(name), host.lower(name)]
    ]
  }

  /** The groups one after the other. */
  function Concat<T>(groups: seq<seq<T>>): seq<T>
  {
    if groups == [] then [] else Concat(groups[..|groups| - 1]) + groups[|groups| - 1]
  }

  /** All candidate titles in the order they are tried. */
  function Candidates(name: string, host: Host): seq<string>
  {
    Concat(TitleGroups(name, host))
  }

  /** The position of the first title whose response ends the search. */
  function FirstDecisive<T>(titles: seq<T>, lookup: T -> Response): (r: Option<nat>)
    ensures r.Some? ==> r.value < |titles| && Decisive(lookup(titles[r.value]))
    ensures r.Some? ==> forall m :: 0 <= m < r.value ==> !Decisive(lookup(titles[m]))
    ensures r.None? ==> forall m :: 0 <= m < |titles| ==> !Decisive(lookup(titles[m]))
  {
    if titles == [] then None
    else if Decisive(lookup(titles[0])) then Some(0)
    else
      match FirstDecisive(titles[1..], lookup)
      case None => None
      case Some(k) => Some(k + 1)
  }

  /** The search stops at the first decisive response. */
  lemma FirstDecisiveIs<T>(titles: seq<T>, lookup: T -> Response, k: nat)
    requires k < |titles| && Decisive(lookup(titles[k]))
    requires forall m :: 0 <= m < k ==> !Decisive(lookup(titles[m]))
    ensures FirstDecisive(titles, lookup) == Some(k)
  {
  }

  /** Without a decisive response the search runs through every title. */
  lemma FirstDecisiveNone<T>(titles: seq<T>, lookup: T -> Response)
    requires forall m :: 0 <= m < |titles| ==> !Decisive(lookup(titles[m]))
    ensures FirstDecisive(titles, lookup) == None
  {
  }

  /** How a search over titles ends: by an exception, or with an image or none. */
  datatype SearchOutcome = Aborted | Finished(image: Option<string>)

  /** The outcome of looking the titles up in order until one is decisive. */
  function SearchOutcomeOf<T>(titles: seq<T>, lookup: T -> Response): SearchOutcome
  {
    match FirstDecisive(titles, lookup)
    case None => Finished(None)
    case Some(k) =>
      var r := lookup(titles[k]);
      if r.Threw? then Aborted else Finished(r.thumbnail)
  }

  /** The titles looked up by that search, in order: up to the first decisive one. */
  function SearchedTitles<T>(titles: seq<T>, lookup: T -> Response): seq<T>
  {
    match FirstDecisive(titles, lookup)
    case None => titles
    case Some(k) => titles[..k + 1]
  }

  /** The remote search for a name. */
  function Search(name: string, host: Host): SearchOutcome
  {
    SearchOutcomeOf(Candidates(name, host), host.lookup)
  }

  /** The second look at the overrides after an unsuccessful search. */
  function KnownFallback(image: Option<string>, name: string, fb: Fallbacks): Option<string>
  {
    if image.None? && name in fb.known then Some(fb.known[name]) else image
  }

  /** The image the remote path settles on. */
  function RemoteImage(name: string, host: Host, fb: Fallbacks): string
  {
    match Search(name, host)
    case Aborted => fb.defaultImage
    case Finished(image) =>
      var fallback := KnownFallback(image, name, fb);
      if fallback.Some? then fallback.value else fb.defaultImage
  }

  /** The image a name resolves to, given the cache as it stands. */
  function ChosenImage(name: string, cache: map<string, string>, host: Host, fb: Fallbacks): string
  {
    if name in fb.known then fb.known[name]
    else if name in cache then cache[name]
    else RemoteImage(name, host, fb)
  }

  /**
   * The cache after resolving one name: the name's key holds the image it
   * resolved to (on a cache hit that is the image already there).
   */
  function CacheAfter(name: string, cache: map<string, string>, host: Host, fb: Fallbacks): map<string, string>
  {
    cache[name := ChosenImage(name, cache, host, fb)]
  }

  /** The titles looked up while resolving one name, in order. */
  function Queried(name: string, cache: map<string, string>, host: Host, fb: Fallbacks): seq<string>
  {
    if name in fb.known || name in cache then [] else SearchedTitles(Candidates(name, host), host.lookup)
  }

  /** The cache after resolving every game of a list, one after the other. */
  function CacheAfterAll(games: seq<Game>, cache: map<string, string>, host: Host, fb: Fallbacks): map<string, string>
  {
    if games == [] then cache
    else CacheAfter(games[|games| - 1].name, CacheAfterAll(games[..|games| - 1], cache, host, fb), host, fb)
  }

  /** The resolver's image cache, a Map updated in place. */
  class ImageCache {
    var entries: map<string, string>

    /** new Map(initial) */
    constructor (initial: map<string, string>)
      ensures entries == initial
    {
      entries := initial;
    }

    function Has(name: string): bool
      reads this
    {
      name in entries
    }

    function Get(name: string): string
      reads this
      requires Has(name)
    {
      entries[name]
    }

    method Set(name: string, url: string)
      modifies this
      ensures entries == old(entries)[name := url]
    {
      entries := entries[name := url];
    }
  }

  /**
   * Resolves one ranked game: the override, else the cached image, else
   * the remote search, its fallbacks and the default. Returns the entry
   * and the titles looked up.
   */
  method ResolveGame(game: Game, cache: ImageCache, host: Host, fb: Fallbacks) returns (entry: DisplayEntry, queried: seq<string>)
    modifies cache
    ensures entry == DisplayEntry(game.name, game.votes, ChosenImage(game.name, old(cache.entries), host, fb), false)
    ensures cache.entries == CacheAfter(game.name, old(cache.entries), host, fb)
    ensures queried == Queried(game.name, old(cache.entries), host, fb)
  {
    if game.name in fb.known {
      cache.Set(game.name, fb.known[game.name]);
      return DisplayEntry(game.name, game.votes, fb.known[game.name], false), [];
    }
    if cache.Has(game.name) {
      assert cache.entries[game.name := cache.entries[game.name]] == cache.entries;
      return DisplayEntry(game.name, game.votes, cache.Get(game.name), false), [];
    }
    var outcome;
    outcome, queried := SearchGroups(TitleGroups(game.name, host), host.lookup);
    var url;
    match outcome {
      case Aborted =>
        // the catch block
        url := fb.defaultImage;
      case Finished(image) =>
        var fallback := KnownFallback(image, game.name, fb);
        url := if fallback.Some? then fallback.value else fb.defaultImage;
    }
    cache.Set(game.name, url);
    entry := DisplayEntry(game.name, game.votes, url, false);
  }

  /**
   * The remote search: the title groups in order, until a group gives an
   * image or a lookup raises.
   */
  method SearchGroups<T>(groups: seq<seq<T>>, lookup: T -> Response) returns (outcome: SearchOutcome, queried: seq<T>)
    ensures outcome == SearchOutcomeOf(Concat(groups), lookup)
    ensures queried == SearchedTitles(Concat(groups), lookup)
  {
    ghost var titles := Concat(groups);
    queried := [];
    var g := 0;
    while g < |groups|
      invariant 0 <= g <= |groups|
      invariant queried == Concat(groups[..g]) && |queried| <= |titles|
      invariant forall m :: 0 <= m < |queried| ==> !Decisive(lookup(titles[m]))
    {
      GroupSlice(groups, g);
      var threw, image, looked := SearchGroup(groups[g], lookup, titles, |queried|);
      if threw || image.Some? {
        PrefixExtend(titles, queried, groups[g], looked);
        queried := queried + looked;
        if threw {
          return Aborted, queried;
        }
        return Finished(image), queried;
      }
      ConcatStep(groups, g);
      queried := queried + looked;
      g := g + 1;
    }
    assert groups[..|groups|] == groups;
    FirstDecisiveNone(titles, lookup);
    outcome := Finished(None);
  }

  /** The g-th group sits in the concatenation right after the groups before it. */
  lemma GroupSlice<T>(groups: seq<seq<T>>, g: nat)
    requires g < |groups|
    ensures var base := |Concat(groups[..g])|;
      && base + |groups[g]| <= |Concat(groups)|
      && Concat(groups)[..base] == Concat(groups[..g])
      && Concat(groups)[base..base + |groups[g]|] == groups[g]
  {
    ConcatStep(groups, g);
    ConcatPrefix(groups, g + 1);
    ConcatPrefix(groups, g);
  }

  /** A prefix of `titles` followed by the start of the slice after it is a longer prefix. */
  lemma PrefixExtend<T>(titles: seq<T>, prefix: seq<T>, slice: seq<T>, start: seq<T>)
    requires |prefix| + |slice| <= |titles| && titles[..|prefix|] == prefix
    requires titles[|prefix|..|prefix| + |slice|] == slice
    requires |start| <= |slice| && start == slice[..|start|]
    ensures prefix + start == titles[..|prefix| + |start|]
    ensures |start| >= 1 ==> titles[|prefix| + |start| - 1] == slice[|start| - 1]
  {
  }

  lemma ConcatStep<T>(groups: seq<seq<T>>, g: nat)
    requires g < |groups|
    ensures Concat(groups[..g + 1]) == Concat(groups[..g]) + groups[g]
  {
    assert groups[..g + 1][..g] == groups[..g];
  }

  /** Concatenating the first g groups gives a prefix of the concatenation of all of them. */
  lemma {:induction false} ConcatPrefix<T>(groups: seq<seq<T>>, g: nat)
    requires g <= |groups|
    ensures |Concat(groups[..g])| <= |Concat(groups)|
    ensures Concat(groups[..g]) == Concat(groups)[..|Concat(groups[..g])|]
    decreases |groups| - g
  {
    if g == |groups| {
      assert groups[..g] == groups;
    } else {
      ConcatPrefix(groups, g + 1);
      ConcatStep(groups, g);
    }
  }

  /**
   * One group of the remote search: its titles in order until one gives
   * an image or raises. Returns whether a lookup raised, the image found,
   * and the titles looked up. The group is the slice of `titles` starting
   * at `base`, and nothing before it was decisive.
   */
  method SearchGroup<T>(group: seq<T>, lookup: T -> Response, ghost titles: seq<T>, ghost base: nat)
    returns (threw: bool, image: Option<string>, looked: seq<T>)
    requires base + |group| <= |titles| && titles[base..base + |group|] == group
    requires forall m :: 0 <= m < base ==> !Decisive(lookup(titles[m]))
    ensures |looked| <= |group| && looked == group[..|looked|]
    ensures threw || image.Some? ==> |looked| >= 1 && FirstDecisive(titles, lookup) == Some(base + |looked| - 1)
    ensures threw ==> image.None? && lookup(group[|looked| - 1]).Threw?
    ensures image.Some? ==> lookup(group[|looked| - 1]).Ok? && image == lookup(group[|looked| - 1]).thumbnail
    ensures !threw && image.None? ==>
      looked == group && forall m :: 0 <= m < base + |group| ==> !Decisive(lookup(titles[m]))
  {
    threw, image, looked := false, None, [];
    var t := 0;
    while t < |group|
      invariant 0 <= t <= |group|
      invariant !threw && image.None?
      invariant looked == group[..t]
      invariant forall m :: 0 <= m < base + t ==> !Decisive(lookup(titles[m]))
    {
      var title := group[t];
      assert title == titles[base + t];
      var response := lookup(title);
      assert group[..t] + [title] == group[..t + 1];
      looked := looked + [title];
      if response.Threw? {
        FirstDecisiveIs(titles, lookup, base + t);
        return true, None, looked;
      }
      if response.Ok? {
        image := if response.thumbnail.Some? && response.thumbnail.value != "" then response.thumbnail else None;
        if image.Some? {
          FirstDecisiveIs(titles, lookup, base + t);
          return;
        }
      }
      t := t + 1;
    }
    assert group[..t] == group;
  }

  /**
   * Resolves every ranked game in order; the names are distinct, so each
   * game reads and writes only its own cache key.
   */
  method ResolveAll(games: seq<Game>, cache: ImageCache, host: Host, fb: Fallbacks) returns (entries: seq<DisplayEntry>)
    requires Distinct(Names(games))
    modifies cache
    ensures |entries| == |games|
    ensures forall i :: 0 <= i < |games| ==>
      entries[i] == DisplayEntry(games[i].name, games[i].votes, ChosenImage(games[i].name, old(cache.entries), host, fb), false)
    ensures cache.entries == CacheAfterAll(games, old(cache.entries), host, fb)
  {
    entries := [];
    var i := 0;
    while i < |games|
      invariant 0 <= i <= |games|
      invariant |entries| == i
      invariant forall j :: 0 <= j < i ==>
        entries[j] == DisplayEntry(games[j].name, games[j].votes, ChosenImage(games[j].name, old(cache.entries), host, fb), false)
      invariant cache.entries == CacheAfterAll(games[..i], old(cache.entries), host, fb)
    {
      NotYetResolved(games, i, old(cache.entries), host, fb);
      CacheAfterAllStep(games, i, old(cache.entries), host, fb);
      var entry, _ := ResolveGame(games[i], cache, host, fb);
      entries := entries + [entry];
      i := i + 1;
    }
    CacheAfterAllStep(games, |games|, old(cache.entries), host, fb);
  }

  lemma CacheAfterAllStep(games: seq<Game>, i: nat, cache: map<string, string>, host: Host, fb: Fallbacks)
    requires i <= |games|
    ensures i < |games| ==>
      CacheAfterAll(games[..i + 1], cache, host, fb) == CacheAfter(games[i].name, CacheAfterAll(games[..i], cache, host, fb), host, fb)
    ensures i == |games| ==> CacheAfterAll(games[..i], cache, host, fb) == CacheAfterAll(games, cache, host, fb)
  {
    if i < |games| {
      assert games[..i + 1][..i] == games[..i];
    } else {
      assert games[..i] == games;
    }
  }

  /** A game later in the list sees the cache as it was for its own key. */
  lemma NotYetResolved(games: seq<Game>, i: nat, cache: map<string, string>, host: Host, fb: Fallbacks)
    requires i < |games| && Distinct(Names(games))
    ensures ChosenImage(games[i].name, CacheAfterAll(games[..i], cache, host, fb), host, fb) == ChosenImage(games[i].name, cache, host, fb)
  {
    forall j | 0 <= j < i ensures games[..i][j].name != games[i].name {
      assert Names(games)[j] == games[j].name;
    }
    UntouchedKey(games[..i], cache, host, games[i].name, fb);
  }

  /** Resolving other names leaves a key as it was. */
  lemma {:induction false} UntouchedKey(games: seq<Game>, cache: map<string, string>, host: Host, name: string, fb: Fallbacks)
    requires forall j :: 0 <= j < |games| ==> games[j].name != name
    ensures name in CacheAfterAll(games, cache, host, fb) <==> name in cache
    ensures name in cache ==> CacheAfterAll(games, cache, host, fb)[name] == cache[name]
  {
    if games != [] {
      UntouchedKey(games[..|games| - 1], cache, host, name, fb);
    }
  }

  /** The candidate titles, in lookup order. */
  lemma CandidateOrder(name: string, host: Host)
    ensures Candidates(name, host) == [
      name + " (video game)", host.upper(name) + " (video game)", host.lower(name) + " (video game)",
      name + " (game)", host.upper(name) + " (game)", host.lower(name) + " (game)",
      name, host.upper(name), host.lower(name)]
  {
    var groups := TitleGroups(name, host);
    ConcatStep(groups, 0);
    ConcatStep(groups, 1);
    ConcatStep(groups, 2);
    assert groups[..0] == [] && groups[..3] == groups;
  }

  // ---- properties of the specification ----

  /** An override always wins: no lookup, and the cache holds the override afterwards. */
  lemma OverrideWins(name: string, cache: map<string, string>, host: Host, fb: Fallbacks)
    requires name in fb.known
    ensures ChosenImage(name, cache, host, fb) == fb.known[name]
    ensures Queried(name, cache, host, fb) == []
    ensures CacheAfter(name, cache, host, fb) == cache[name := fb.known[name]]
  {
  }

  /** A cached name that is not an override is served from the cache: no lookup, cache unchanged. */
  lemma CacheShortCircuits(name: string, cache: map<string, string>, host: Host, fb: Fallbacks)
    requires name !in fb.known && name in cache
    ensures ChosenImage(name, cache, host, fb) == cache[name]
    ensures Queried(name, cache, host, fb) == []
    ensures CacheAfter(name, cache, host, fb) == cache
  {
  }

  /**
   * The remote path: when the k-th candidate is the first usable one and
   * none before it raised, its thumbnail is the image, exactly the first
   * k + 1 candidates are looked up, and the cache gains that image.
   */
  lemma FirstUsableCandidateWins(name: string, cache: map<string, string>, host: Host, k: nat, fb: Fallbacks)
    requires name !in fb.known && name !in cache
    requires k < |Candidates(name, host)| && Usable(host.lookup(Candidates(name, host)[k]))
    requires forall m :: 0 <= m < k ==> !Decisive(host.lookup(Candidates(name, host)[m]))
    ensures ChosenImage(name, cache, host, fb) == host.lookup(Candidates(name, host)[k]).thumbnail.value
    ensures Queried(name, cache, host, fb) == Candidates(name, host)[..k + 1]
    ensures CacheAfter(name, cache, host, fb) == cache[name := ChosenImage(name, cache, host, fb)]
  {
    FirstDecisiveIs(Candidates(name, host), host.lookup, k);
  }

  /**
   * The remote path gives the default image when a lookup raises before
   * any usable candidate, and then no later candidate is looked up.
   */
  lemma ExceptionGivesDefault(name: string, cache: map<string, string>, host: Host, k: nat, fb: Fallbacks)
    requires name !in fb.known && name !in cache
    requires k < |Candidates(name, host)| && host.lookup(Candidates(name, host)[k]).Threw?
    requires forall m :: 0 <= m < k ==> !Decisive(host.lookup(Candidates(name, host)[m]))
    ensures ChosenImage(name, cache, host, fb) == fb.defaultImage
    ensures Queried(name, cache, host, fb) == Candidates(name, host)[..k + 1]
    ensures CacheAfter(name, cache, host, fb) == cache[name := fb.defaultImage]
  {
    FirstDecisiveIs(Candidates(name, host), host.lookup, k);
  }

  /**
   * With no usable candidate and no exception, all nine candidates are
   * looked up and the image is the default: the second look at the
   * overrides never supplies one.
   */
  lemma NoUsableCandidateGivesDefault(name: string, cache: map<string, string>, host: Host, fb: Fallbacks)
    requires name !in fb.known && name !in cache
    requires forall m :: 0 <= m < |Candidates(name, host)| ==> !Decisive(host.lookup(Candidates(name, host)[m]))
    ensures ChosenImage(name, cache, host, fb) == fb.defaultImage
    ensures Queried(name, cache, host, fb) == Candidates(name, host)
    ensures CacheAfter(name, cache, host, fb) == cache[name := fb.defaultImage]
  {
    FirstDecisiveNone(Candidates(name, host), host.lookup);
  }

  /**
   * The second look at the overrides is dead code: the remote path is
   * only reached for a name without an override, and for such a name the
   * fallback returns the image unchanged.
   */
  lemma FallbackNeverFires(image: Option<string>, name: string, fb: Fallbacks)
    requires name !in fb.known
    ensures KnownFallback(image, name, fb) == image
  {
  }

  ghost predicate NonEmptyImages(cache: map<string, string>)
  {
    forall k :: k in cache ==> cache[k] != ""
  }

  /** With no empty image in the cache, every name resolves to a non-empty image and the cache stays so. */
  lemma ImagesNonEmpty(name: string, cache: map<string, string>, host: Host, fb: Fallbacks)
    requires NonEmptyFallbacks(fb) && NonEmptyImages(cache)
    ensures ChosenImage(name, cache, host, fb) != ""
    ensures NonEmptyImages(CacheAfter(name, cache, host, fb))
  {
  }

  /** Resolving a whole list keeps every cached image non-empty, so the cache saved for the next page load is fit for it. */
  lemma {:induction false} CacheAfterAllNonEmpty(games: seq<Game>, cache: map<string, string>, host: Host, fb: Fallbacks)
    requires NonEmptyFallbacks(fb) && NonEmptyImages(cache)
    ensures NonEmptyImages(CacheAfterAll(games, cache, host, fb))
  {
    if games != [] {
      var init := games[..|games| - 1];
      CacheAfterAllNonEmpty(init, cache, host, fb);
      ImagesNonEmpty(games[|games| - 1].name, CacheAfterAll(init, cache, host, fb), host, fb);
    }
  }

  /** The cache after one name: that name holds its image, every other key is unchanged. */
  lemma CacheAfterSpec(name: string, cache: map<string, string>, host: Host, fb: Fallbacks)
    ensures CacheAfter(name, cache, host, fb).Keys == cache.Keys + {name}
    ensures CacheAfter(name, cache, host, fb)[name] == ChosenImage(name, cache, host, fb)
    ensures forall k :: k in cache && k != name ==> CacheAfter(name, cache, host, fb)[k] == cache[k]
  {
  }

  /**
   * Two different names can be resolved in either order with the same
   * outcome: each sees the same image and the cache ends the same. This is
   * why resolving the ranked games one by one is faithful to resolving
   * them concurrently.
   */
  lemma ResolutionCommutes(a: string, b: string, cache: map<string, string>, host: Host, fb: Fallbacks)
    requires a != b
    ensures ChosenImage(b, CacheAfter(a, cache, host, fb), host, fb) == ChosenImage(b, cache, host, fb)
    ensures CacheAfter(b, CacheAfter(a, cache, host, fb), host, fb) == CacheAfter(a, CacheAfter(b, cache, host, fb), host, fb)
  {
  }

  /** After resolving a list, the cache holds the old keys and the list's names. */
  lemma {:induction false} CacheAfterAllKeys(games: seq<Game>, cache: map<string, string>, host: Host, fb: Fallbacks)
    ensures CacheAfterAll(games, cache, host, fb).Keys == cache.Keys + set g | g in games :: g.name
  {
    if games != [] {
      var init := games[..|games| - 1];
      CacheAfterAllKeys(init, cache, host, fb);
      assert games == init + [games[|games| - 1]];
      assert (set g | g in games :: g.name) == (set g | g in init :: g.name) + {games[|games| - 1].name};
    }
  }

  /**
   * After resolving a list of distinct names, each name maps to the image
   * it resolved to against the cache as it was before the list.
   */
  lemma {:induction false} CacheAfterAllImages(games: seq<Game>, cache: map<string, string>, host: Host, fb: Fallbacks)
    requires Distinct(Names(games))
    ensures forall i :: 0 <= i < |games| ==>
      games[i].name in CacheAfterAll(games, cache, host, fb) &&
      CacheAfterAll(games, cache, host, fb)[games[i].name] == ChosenImage(games[i].name, cache, host, fb)
  {
    if games != [] {
      var n := |games| - 1;
      var init := games[..n];
      assert Distinct(Names(init)) by {
        forall i, j | 0 <= i < j < |init| ensures Names(init)[i] != Names(init)[j] {
          assert Names(init)[i] == Names(games)[i] && Names(init)[j] == Names(games)[j];
        }
      }
      CacheAfterAllImages(init, cache, host, fb);
      NotYetResolved(games, n, cache, host, fb);
      forall i | 0 <= i < n
        ensures games[i].name in CacheAfterAll(games, cache, host, fb)
        ensures CacheAfterAll(games, cache, host, fb)[games[i].name] == ChosenImage(games[i].name, cache, host, fb)
      {
        assert Names(games)[i] != Names(games)[n];
        assert init[i] == games[i];
      }
    }
  }

  /** Resolving a list leaves every key outside its names as it was. */
  lemma CacheAfterAllOthers(games: seq<Game>, cache: map<string, string>, host: Host, k: string, fb: Fallbacks)
    requires k in cache && forall g :: g in games ==> g.name != k
    ensures k in CacheAfterAll(games, cache, host, fb) && CacheAfterAll(games, cache, host, fb)[k] == cache[k]
  {
    UntouchedKey(games, cache, host, k, fb);
  }
}
