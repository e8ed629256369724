/**
 * The ranking: the tally's entries, listed as Object.entries lists an
 * ordinary object's own keys, sorted by count, descending, by a stable
 * sort, and cut to the first ten.
 */
module Ranking {
  import opened Seqs

  /** One ranked answer: a name and its number of votes. */
  datatype Game = Game(name: string, votes: nat)

  /** How many entries the ranking keeps. */
  const RankSize: nat := 10

  predicate IsDigit(c: char)
  {
    '0' as int <= c as int <= '9' as int
  }

  /** The decimal value of a string of digits. */
  function DigitsValue(s: string): nat
    requires forall m :: 0 <= m < |s| ==> IsDigit(s[m])
  {
    if s == [] then 0
    else
      assert IsDigit(s[|s| - 1]);
      10 * DigitsValue(s[..|s| - 1]) + (s[|s| - 1] as int - '0' as int)
  }

  /**
   * An array index (section 6.1.7 of ECMA-262): the canonical decimal
   * form, without leading zeros, of an integer below 2^32 - 1.
   */
  predicate IsArrayIndex(s: string)
  {
    && |s| > 0
    && (forall m :: 0 <= m < |s| ==> IsDigit(s[m]))
    && (s[0] != '0' || |s| == 1)
    && DigitsValue(s) < 0xFFFF_FFFF
  }

  function IndexKeys(keys: seq<string>): (r: seq<string>)
    ensures forall k :: k in r <==> k in keys && IsArrayIndex(k)
  {
    if keys == [] then []
    else if IsArrayIndex(keys[0]) then [keys[0]] + IndexKeys(keys[1..])
    else IndexKeys(keys[1..])
  }

  function NameKeys(keys: seq<string>): (r: seq<string>)
    ensures forall k :: k in r <==> k in keys && !IsArrayIndex(k)
  {
    if keys == [] then []
    else if IsArrayIndex(keys[0]) then NameKeys(keys[1..])
    else [keys[0]] + NameKeys(keys[1..])
  }

  function IndexValue(k: string): nat
    requires IsArrayIndex(k)
  {
    DigitsValue(k)
  }

  ghost predicate AscendingIndices(keys: seq<string>)
  {
    && (forall k :: k in keys ==> IsArrayIndex(k))
    && (forall i, j :: 0 <= i < j < |keys| ==> IndexValue(keys[i]) <= IndexValue(keys[j]))
  }

  function InsertIndex(k: string, sorted: seq<string>): (r: seq<string>)
    requires IsArrayIndex(k) && forall x :: x in sorted ==> IsArrayIndex(x)
    ensures |r| == |sorted| + 1
    ensures forall x :: x in r ==> x == k || x in sorted
  {
    if sorted == [] || IndexValue(k) <= IndexValue(sorted[0]) then [k] + sorted
    else [sorted[0]] + InsertIndex(k, sorted[1..])
  }

  function SortIndices(keys: seq<string>): (r: seq<string>)
    requires forall x :: x in keys ==> IsArrayIndex(x)
    ensures |r| == |keys|
    ensures forall x :: x in r ==> x in keys
  {
    if keys == [] then [] else InsertIndex(keys[0], SortIndices(keys[1..]))
  }

  lemma {:induction false} InsertIndexPermutation(k: string, sorted: seq<string>)
    requires IsArrayIndex(k) && forall x :: x in sorted ==> IsArrayIndex(x)
    ensures multiset(InsertIndex(k, sorted)) == multiset(sorted) + multiset{k}
  {
    if !(sorted == [] || IndexValue(k) <= IndexValue(sorted[0])) {
      InsertIndexPermutation(k, sorted[1..]);
      assert sorted == [sorted[0]] + sorted[1..];
    }
  }

  lemma {:induction false} SortIndicesPermutation(keys: seq<string>)
    requires forall x :: x in keys ==> IsArrayIndex(x)
    ensures multiset(SortIndices(keys)) == multiset(keys)
  {
    if keys != [] {
      SortIndicesPermutation(keys[1..]);
      InsertIndexPermutation(keys[0], SortIndices(keys[1..]));
      assert keys == [keys[0]] + keys[1..];
    }
  }

  lemma {:induction false} InsertIndexAscending(k: string, sorted: seq<string>)
    requires IsArrayIndex(k) && AscendingIndices(sorted)
    ensures AscendingIndices(InsertIndex(k, sorted))
  {
    if !(sorted == [] || IndexValue(k) <= IndexValue(sorted[0])) {
      var rest := sorted[1..];
      InsertIndexAscending(k, rest);
      var r := InsertIndex(k, sorted);
      var r' := InsertIndex(k, rest);
      assert r == [sorted[0]] + r';
      forall j | 0 < j < |r| ensures IndexValue(r[0]) <= IndexValue(r[j]) {
        assert r[j] == r'[j - 1];
        assert r[j] in r';
        if r[j] != k {
          var m :| 0 <= m < |rest| && rest[m] == r[j];
          assert sorted[m + 1] == r[j];
        }
      }
    }
  }

  lemma {:induction false} SortIndicesAscending(keys: seq<string>)
    requires forall x :: x in keys ==> IsArrayIndex(x)
    ensures AscendingIndices(SortIndices(keys))
  {
    if keys != [] {
      SortIndicesAscending(keys[1..]);
      InsertIndexAscending(keys[0], SortIndices(keys[1..]));
    }
  }

  lemma {:induction false} PartitionKeys(keys: seq<string>)
    ensures multiset(IndexKeys(keys)) + multiset(NameKeys(keys)) == multiset(keys)
  {
    if keys != [] {
      PartitionKeys(keys[1..]);
      assert keys == [keys[0]] + keys[1..];
    }
  }

  /**
   * The order of Object.entries on the tally: array-index keys first, in
   * ascending numeric order, then the other keys in creation order
   * (OrdinaryOwnPropertyKeys, section 10.1.11.1 of ECMA-262).
   */
  function EntriesOrder(created: seq<string>): (r: seq<string>)
    ensures forall k :: k in r ==> k in created
  {
    SortIndices(IndexKeys(created)) + NameKeys(created)
  }

  /** Object.entries lists each key exactly as often as it was created. */
  lemma EntriesOrderPermutation(created: seq<string>)
    ensures multiset(EntriesOrder(created)) == multiset(created)
    ensures |EntriesOrder(created)| == |created|
  {
    PartitionKeys(created);
    SortIndicesPermutation(IndexKeys(created));
    assert |multiset(EntriesOrder(created))| == |multiset(created)|;
  }

  /**
   * Object.entries lists every key once, array indices first and
   * ascending, and keeps creation order among the other keys.
   */
  lemma EntriesOrderSpec(created: seq<string>)
    ensures var r := EntriesOrder(created);
      forall i, j :: 0 <= i < j < |r| && IsArrayIndex(r[j]) ==> IsArrayIndex(r[i])
    ensures var r := EntriesOrder(created);
      forall i, j :: 0 <= i < j < |r| && IsArrayIndex(r[j]) ==> IndexValue(r[i]) <= IndexValue(r[j])
    ensures |IndexKeys(created)| <= |created|
    ensures EntriesOrder(created)[|IndexKeys(created)|..] == NameKeys(created)
    ensures Distinct(created) ==> Distinct(EntriesOrder(created))
  {
    var idx := SortIndices(IndexKeys(created));
    var names := NameKeys(created);
    var r := EntriesOrder(created);
    assert r == idx + names;
    EntriesOrderPermutation(created);
    SortIndicesAscending(IndexKeys(created));
    forall i | 0 <= i < |r| ensures IsArrayIndex(r[i]) <==> i < |idx| {
      if i < |idx| {
        assert r[i] == idx[i] && r[i] in idx;
      } else {
        assert r[i] == names[i - |idx|] && r[i] in names;
      }
    }
    assert r[|idx|..] == names;
    if Distinct(created) {
      DistinctPermutation(created, r);
    }
  }

  /** The entries of the tally in a given key order. */
  function Entries(counts: map<string, nat>, keys: seq<string>): (r: seq<Game>)
    requires forall k :: k in keys ==> k in counts
    ensures |r| == |keys|
    ensures forall i :: 0 <= i < |r| ==> r[i] == Game(keys[i], counts[keys[i]])
  {
    seq(|keys|, i requires 0 <= i < |keys| => Game(keys[i], counts[keys[i]]))
  }

  function Names(gs: seq<Game>): (r: seq<string>)
    ensures |r| == |gs|
    ensures forall i :: 0 <= i < |gs| ==> r[i] == gs[i].name
  {
    seq(|gs|, i requires 0 <= i < |gs| => gs[i].name)
  }

  ghost predicate NonIncreasing(gs: seq<Game>)
  {
    forall i, j :: 0 <= i < j < |gs| ==> gs[i].votes >= gs[j].votes
  }

  /** The entries with exactly v votes, in their order. */
  function WithVotes(gs: seq<Game>, v: nat): seq<Game>
  {
    if gs == [] then []
    else if gs[0].votes == v then [gs[0]] + WithVotes(gs[1..], v)
    else WithVotes(gs[1..], v)
  }

  /** Places g before the first entry with no more votes than g: after every entry with more. */
  function Insert(g: Game, sorted: seq<Game>): (r: seq<Game>)
    ensures |r| == |sorted| + 1
    ensures forall x :: x in r ==> x == g || x in sorted
  {
    if sorted == [] || sorted[0].votes <= g.votes then [g] + sorted
    else [sorted[0]] + Insert(g, sorted[1..])
  }

  /** A stable sort by votes, descending. */
  function SortByVotes(gs: seq<Game>): (r: seq<Game>)
    ensures |r| == |gs|
    ensures forall x :: x in r ==> x in gs
  {
    if gs == [] then [] else Insert(gs[0], SortByVotes(gs[1..]))
  }

  lemma {:induction false} InsertPermutation(g: Game, sorted: seq<Game>)
    ensures multiset(Insert(g, sorted)) == multiset(sorted) + multiset{g}
  {
    if !(sorted == [] || sorted[0].votes <= g.votes) {
      InsertPermutation(g, sorted[1..]);
      assert sorted == [sorted[0]] + sorted[1..];
    }
  }

  lemma NamesCons(g: Game, rest: seq<Game>)
    ensures Names([g] + rest) == [g.name] + Names(rest)
  {
    assert ([g] + rest)[1..] == rest;
  }

  lemma {:induction false} InsertNames(g: Game, sorted: seq<Game>)
    ensures multiset(Names(Insert(g, sorted))) == multiset(Names(sorted)) + multiset{g.name}
  {
    if sorted == [] || sorted[0].votes <= g.votes {
      NamesCons(g, sorted);
    } else {
      InsertNames(g, sorted[1..]);
      NamesCons(sorted[0], sorted[1..]);
      NamesCons(sorted[0], Insert(g, sorted[1..]));
      assert sorted == [sorted[0]] + sorted[1..];
    }
  }

  /** The sort is a permutation of the entries. */
  lemma {:induction false} SortPermutation(gs: seq<Game>)
    ensures multiset(SortByVotes(gs)) == multiset(gs)
  {
    if gs != [] {
      SortPermutation(gs[1..]);
      InsertPermutation(gs[0], SortByVotes(gs[1..]));
      assert gs == [gs[0]] + gs[1..];
    }
  }

  /** The sort is a permutation of the entries' names. */
  lemma {:induction false} SortNames(gs: seq<Game>)
    ensures multiset(Names(SortByVotes(gs))) == multiset(Names(gs))
  {
    if gs != [] {
      SortNames(gs[1..]);
      InsertNames(gs[0], SortByVotes(gs[1..]));
      NamesCons(gs[0], gs[1..]);
      assert gs == [gs[0]] + gs[1..];
    }
  }

  lemma {:induction false} InsertNonIncreasing(g: Game, sorted: seq<Game>)
    requires NonIncreasing(sorted)
    ensures NonIncreasing(Insert(g, sorted))
  {
    if !(sorted == [] || sorted[0].votes <= g.votes) {
      var rest := sorted[1..];
      InsertNonIncreasing(g, rest);
      var r := Insert(g, sorted);
      var r' := Insert(g, rest);
      assert r == [sorted[0]] + r';
      forall j | 0 < j < |r| ensures r[0].votes >= r[j].votes {
        assert r[j] == r'[j - 1];
        assert r[j] in r';
        if r[j] != g {
          var m :| 0 <= m < |rest| && rest[m] == r[j];
          assert sorted[m + 1] == r[j];
        }
      }
    }
  }

  lemma WithVotesCons(g: Game, rest: seq<Game>, v: nat)
    ensures WithVotes([g] + rest, v) == if g.votes == v then [g] + WithVotes(rest, v) else WithVotes(rest, v)
  {
    assert ([g] + rest)[1..] == rest;
  }

  lemma {:induction false} InsertWithVotes(g: Game, sorted: seq<Game>, v: nat)
    requires NonIncreasing(sorted)
    ensures WithVotes(Insert(g, sorted), v) == if g.votes == v then [g] + WithVotes(sorted, v) else WithVotes(sorted, v)
  {
    if sorted == [] || sorted[0].votes <= g.votes {
      WithVotesCons(g, sorted, v);
    } else {
      var rest := sorted[1..];
      assert NonIncreasing(rest);
      InsertWithVotes(g, rest, v);
      assert sorted == [sorted[0]] + rest;
      WithVotesCons(sorted[0], rest, v);
      WithVotesCons(sorted[0], Insert(g, rest), v);
    }
  }

  /** The sorted entries have non-increasing votes. */
  lemma {:induction false} SortNonIncreasing(gs: seq<Game>)
    ensures NonIncreasing(SortByVotes(gs))
  {
    if gs != [] {
      SortNonIncreasing(gs[1..]);
      InsertNonIncreasing(gs[0], SortByVotes(gs[1..]));
    }
  }

  /** The sort is stable: entries with equal votes keep their relative order. */
  lemma {:induction false} SortStable(gs: seq<Game>, v: nat)
    ensures WithVotes(SortByVotes(gs), v) == WithVotes(gs, v)
  {
    if gs != [] {
      SortStable(gs[1..], v);
      SortNonIncreasing(gs[1..]);
      InsertWithVotes(gs[0], SortByVotes(gs[1..]), v);
    }
  }

  /** Array.prototype.slice(0, 10). */
  function Top(gs: seq<Game>): (r: seq<Game>)
    ensures |r| == if |gs| < RankSize then |gs| else RankSize
    ensures r == gs[..|r|]
  {
    if |gs| <= RankSize then gs else gs[..RankSize]
  }

  /** The ranking of a tally whose keys were created in the order `created`. */
  function Rank(counts: map<string, nat>, created: seq<string>): seq<Game>
    requires forall k :: k in created ==> k in counts
  {
    Top(SortByVotes(Entries(counts, EntriesOrder(created))))
  }

  lemma RankLength(counts: map<string, nat>, created: seq<string>)
    requires forall k :: k in created <==> k in counts
    requires Distinct(created)
    ensures var r := Rank(counts, created);
      |r| == if |counts| < RankSize then |counts| else RankSize
  {
    assert (set k | k in created) == counts.Keys;
    DistinctCardinality(created);
    EntriesOrderPermutation(created);
  }

  lemma RankCounts(counts: map<string, nat>, created: seq<string>)
    requires forall k :: k in created ==> k in counts
    ensures forall g :: g in Rank(counts, created) ==> g.name in counts && g.votes == counts[g.name]
  {
    var es := Entries(counts, EntriesOrder(created));
    var sorted := SortByVotes(es);
    forall g | g in Rank(counts, created) ensures g.name in counts && g.votes == counts[g.name] {
      assert g in sorted;
      var i :| 0 <= i < |es| && es[i] == g;
    }
  }

  lemma RankNamesDistinct(counts: map<string, nat>, created: seq<string>)
    requires forall k :: k in created ==> k in counts
    requires Distinct(created)
    ensures Distinct(Names(Rank(counts, created)))
  {
    var keys := EntriesOrder(created);
    EntriesOrderSpec(created);
    var es := Entries(counts, keys);
    var sorted := SortByVotes(es);
    assert Names(es) == keys;
    SortNames(es);
    DistinctPermutation(keys, Names(sorted));
    var r := Rank(counts, created);
    assert Names(r) == Names(sorted)[..|r|];
  }

  lemma RankIsTop(counts: map<string, nat>, created: seq<string>)
    requires forall k :: k in created <==> k in counts
    ensures var r := Rank(counts, created);
      forall n :: n in counts && n !in Names(r) ==> |r| == RankSize && counts[n] <= r[|r| - 1].votes
  {
    var keys := EntriesOrder(created);
    var es := Entries(counts, keys);
    var sorted := SortByVotes(es);
    SortNonIncreasing(es);
    SortPermutation(es);
    EntriesOrderPermutation(created);
    forall n | n in counts && n !in Names(Top(sorted))
      ensures |Top(sorted)| == RankSize && counts[n] <= Top(sorted)[|Top(sorted)| - 1].votes
    {
      assert n in multiset(keys);
      var i :| 0 <= i < |keys| && keys[i] == n;
      assert es[i] in multiset(sorted);
      var p :| 0 <= p < |sorted| && sorted[p] == es[i];
      OutsideTop(sorted, p);
    }
  }

  /** An entry of a sorted list that the slice leaves out has no more votes than the slice's last entry. */
  lemma OutsideTop(sorted: seq<Game>, p: nat)
    requires NonIncreasing(sorted) && p < |sorted| && sorted[p].name !in Names(Top(sorted))
    ensures |Top(sorted)| == RankSize && sorted[p].votes <= Top(sorted)[|Top(sorted)| - 1].votes
  {
    TopNames(sorted);
  }

  lemma TopNames(gs: seq<Game>)
    ensures forall i :: 0 <= i < |Top(gs)| ==> gs[i].name in Names(Top(gs))
  {
    forall i | 0 <= i < |Top(gs)| ensures gs[i].name in Names(Top(gs)) {
      assert Names(Top(gs))[i] == gs[i].name;
    }
  }

  /**
   * The ranking has min(10, number of names) entries, in non-increasing
   * order of votes, each with the tally's count for its name, no name
   * twice, and no name left out with more votes than the last entry.
   */
  lemma RankShape(counts: map<string, nat>, created: seq<string>)
    requires forall k :: k in created <==> k in counts
    requires Distinct(created)
    ensures var r := Rank(counts, created);
      |r| == if |counts| < RankSize then |counts| else RankSize
    ensures NonIncreasing(Rank(counts, created))
    ensures forall g :: g in Rank(counts, created) ==> g.name in counts && g.votes == counts[g.name]
    ensures Distinct(Names(Rank(counts, created)))
    ensures var r := Rank(counts, created);
      forall n :: n in counts && n !in Names(r) ==> |r| == RankSize && counts[n] <= r[|r| - 1].votes
  {
    RankLength(counts, created);
    SortNonIncreasing(Entries(counts, EntriesOrder(created)));
    RankCounts(counts, created);
    RankNamesDistinct(counts, created);
    RankIsTop(counts, created);
  }

  /**
   * Equal counts keep Object.entries order: for every vote count, the
   * ranked entries with that count are the first ones with that count
   * in entries order.
   */
  lemma RankTiesKeepEntriesOrder(counts: map<string, nat>, created: seq<string>, v: nat)
    requires forall k :: k in created ==> k in counts
    ensures var keys := EntriesOrder(created);
      (forall k :: k in keys ==> k in counts) &&
      var all := WithVotes(Entries(counts, keys), v);
      var top := WithVotes(Rank(counts, created), v);
      |top| <= |all| && top == all[..|top|]
  {
    var keys := EntriesOrder(created);
    var es := Entries(counts, keys);
    var sorted := SortByVotes(es);
    SortStable(es, v);
    WithVotesPrefix(sorted, |Rank(counts, created)|, v);
  }

  lemma {:induction false} WithVotesPrefix(gs: seq<Game>, n: nat, v: nat)
    requires n <= |gs|
    ensures var p := WithVotes(gs[..n], v);
      |p| <= |WithVotes(gs, v)| && p == WithVotes(gs, v)[..|p|]
  {
    if n > 0 {
      WithVotesPrefix(gs[1..], n - 1, v);
      assert gs[..n][1..] == gs[1..][..n - 1];
    }
  }
}
