/**
 * The vote tally: every row after the header contributes the tokens of its
 * answer cell (cell 1), split on commas, trimmed, empty ones dropped, and
 * each token adds one to that name's counter. The counter is a dictionary
 * updated in place; the order in which its keys were first created is kept
 * beside it, because it later decides the order of equal counts.
 */
module Tally {
  import opened JsText
  import opened Seqs

  /** The tokens of one answer cell: split on ",", each trimmed, empty ones dropped. */
  function AnswerTokens(cell: string): seq<string>
  {
    NonEmpty(Trimmed(Split(cell, ',')))
  }

  function Trimmed(pieces: seq<string>): (r: seq<string>)
    ensures |r| == |pieces|
    ensures forall n :: 0 <= n < |r| ==> r[n] == Trim(pieces[n])
  {
    seq(|pieces|, n requires 0 <= n < |pieces| => Trim(pieces[n]))
  }

  function NonEmpty(ss: seq<string>): (r: seq<string>)
  {
    if ss == [] then []
    else if ss[0] == "" then NonEmpty(ss[1..])
    else [ss[0]] + NonEmpty(ss[1..])
  }

  /** The tokens a row contributes: none unless cell 1 exists and is non-empty. */
  function RowTokens(row: seq<string>): seq<string>
  {
    if |row| > 1 && row[1] != "" then AnswerTokens(row[1]) else []
  }

  /** The tokens of the data rows rows[1..n], in reading order. */
  function TokensUpTo(rows: seq<seq<string>>, n: nat): seq<string>
    requires n <= |rows|
  {
    if n <= 1 then [] else TokensUpTo(rows, n - 1) + RowTokens(rows[n - 1])
  }

  /** Every token counted by the tally, in reading order; row 0 is the header. */
  function DataTokens(rows: seq<seq<string>>): seq<string>
  {
    TokensUpTo(rows, |rows|)
  }

  /** How many times x occurs in s. */
  function Occurrences(s: seq<string>, x: string): nat
  {
    if s == [] then 0
    else Occurrences(s[..|s| - 1], x) + (if s[|s| - 1] == x then 1 else 0)
  }

  /** The distinct elements of s in order of first appearance. */
  function FirstSeen(s: seq<string>): seq<string>
  {
    if s == [] then []
    else
      var init := s[..|s| - 1];
      if s[|s| - 1] in init then FirstSeen(init) else FirstSeen(init) + [s[|s| - 1]]
  }

  /** The counter a sequence of tokens produces: each distinct token with its number of occurrences. */
  function CountsOf(tokens: seq<string>): map<string, nat>
  {
    map t | t in tokens :: Occurrences(tokens, t)
  }

  /** The tally of a parsed sheet. */
  function VoteCounts(rows: seq<seq<string>>): map<string, nat>
  {
    CountsOf(DataTokens(rows))
  }

  /** The creation order of the tally's keys. */
  function KeyCreationOrder(rows: seq<seq<string>>): seq<string>
  {
    FirstSeen(DataTokens(rows))
  }

  lemma OccurrencesAppend(s: seq<string>, y: string, x: string)
    ensures Occurrences(s + [y], x) == Occurrences(s, x) + (if y == x then 1 else 0)
  {
    assert (s + [y])[..|s + [y]| - 1] == s;
  }

  lemma FirstSeenAppend(s: seq<string>, y: string)
    ensures FirstSeen(s + [y]) == if y in s then FirstSeen(s) else FirstSeen(s) + [y]
  {
    assert (s + [y])[..|s + [y]| - 1] == s;
  }

  /** One more token is one more vote for that name and nothing else changes. */
  lemma CountsOfAppend(s: seq<string>, y: string)
    ensures CountsOf(s + [y]) == CountsOf(s)[y := (if y in CountsOf(s) then CountsOf(s)[y] else 0) + 1]
  {
    var a := CountsOf(s + [y]);
    var b := CountsOf(s)[y := (if y in CountsOf(s) then CountsOf(s)[y] else 0) + 1];
    forall t | t in a ensures t in b && a[t] == b[t] {
      OccurrencesAppend(s, y, t);
      OccurrencesPositive(s, t);
    }
    forall t | t in b ensures t in a {
      assert t in s + [y];
    }
  }

  /** A token occurs at least once exactly when it is one of the tokens. */
  lemma {:induction false} OccurrencesPositive(s: seq<string>, x: string)
    ensures Occurrences(s, x) >= 1 <==> x in s
  {
    if s != [] {
      var init := s[..|s| - 1];
      OccurrencesPositive(init, x);
      assert s == init + [s[|s| - 1]];
    }
  }

  /** The first-seen order lists exactly the distinct tokens, each once. */
  lemma {:induction false} FirstSeenSpec(s: seq<string>)
    ensures forall x :: x in FirstSeen(s) <==> x in s
    ensures Distinct(FirstSeen(s))
  {
    if s != [] {
      var init := s[..|s| - 1];
      FirstSeenSpec(init);
      assert s == init + [s[|s| - 1]];
    }
  }

  lemma {:induction false} TokensUpToAllRows(rows: seq<seq<string>>, n: nat, t: string)
    requires n <= |rows|
    requires t in TokensUpTo(rows, n)
    ensures exists r :: 1 <= r < n && t in RowTokens(rows[r])
  {
    if n > 1 {
      if t in TokensUpTo(rows, n - 1) {
        TokensUpToAllRows(rows, n - 1, t);
      } else {
        assert t in RowTokens(rows[n - 1]);
      }
    }
  }

  /**
   * The counter the tally loop builds. Each data row's answer tokens are
   * counted one by one; a key is created with 1 on its first token.
   */
  method CountVotes(rows: seq<seq<string>>) returns (counts: map<string, nat>, order: seq<string>)
    ensures counts == VoteCounts(rows)
    ensures order == KeyCreationOrder(rows)
  {
    counts, order := map[], [];
    ghost var seen: seq<string> := [];
    var i := 1;
    while i < |rows|
      invariant 1 <= i && (|rows| >= 1 ==> i <= |rows|)
      invariant seen == TokensUpTo(rows, if i <= |rows| then i else 0)
      invariant Tallied(counts, order, seen)
    {
      counts, order := CountRow(counts, order, rows[i], seen);
      seen := seen + RowTokens(rows[i]);
      i := i + 1;
    }
  }

  /** One data row: its answer cell, when present and non-empty, is split and counted. */
  method CountRow(counts0: map<string, nat>, order0: seq<string>, row: seq<string>, ghost seen0: seq<string>)
    returns (counts: map<string, nat>, order: seq<string>)
    requires Tallied(counts0, order0, seen0)
    ensures Tallied(counts, order, seen0 + RowTokens(row))
  {
    var answer := if |row| > 1 then row[1] else "";
    counts, order := counts0, order0;
    if answer != "" {
      var games := AnswerTokens(answer);
      counts, order := CountAnswer(counts, order, games, seen0);
    } else {
      assert seen0 + RowTokens(row) == seen0;
    }
  }

  /** The counter and its key order are those of the tokens `seen`. */
  ghost predicate Tallied(counts: map<string, nat>, order: seq<string>, seen: seq<string>)
  {
    counts == CountsOf(seen) && order == FirstSeen(seen)
  }

  /** Counting one more token keeps the counter and key order those of the tokens seen. */
  lemma TallyStep(counts: map<string, nat>, order: seq<string>, seen: seq<string>, game: string)
    requires Tallied(counts, order, seen)
    ensures Tallied(counts[game := (if game in counts then counts[game] else 0) + 1],
                    if game in counts then order else order + [game], seen + [game])
  {
    CountsOfAppend(seen, game);
    FirstSeenAppend(seen, game);
  }

  /**
   * The forEach over one answer's tokens: each adds one to its name's
   * counter, creating the key (at the end of the key order) when it is new.
   */
  method CountAnswer(counts0: map<string, nat>, order0: seq<string>, games: seq<string>, ghost seen0: seq<string>)
    returns (counts: map<string, nat>, order: seq<string>)
    requires Tallied(counts0, order0, seen0)
    ensures Tallied(counts, order, seen0 + games)
  {
    counts, order := counts0, order0;
    ExtendPrefix(seen0, games, 0);
    var g := 0;
    while g < |games|
      invariant 0 <= g <= |games|
      invariant Tallied(counts, order, seen0 + games[..g])
    {
      var game := games[g];
      TallyStep(counts, order, seen0 + games[..g], game);
      ExtendPrefix(seen0, games, g);
      if game !in counts {
        order := order + [game];
      }
      counts := counts[game := (if game in counts then counts[game] else 0) + 1];
      g := g + 1;
    }
    ExtendPrefix(seen0, games, |games|);
  }

  lemma ExtendPrefix<T>(a: seq<T>, b: seq<T>, g: nat)
    requires g <= |b|
    ensures g < |b| ==> a + b[..g] + [b[g]] == a + b[..g + 1]
    ensures g == |b| ==> a + b[..g] == a + b
    ensures a + b[..0] == a
  {
    assert b[..0] == [];
    if g < |b| {
      assert b[..g + 1] == b[..g] + [b[g]];
    } else {
      assert b[..g] == b;
    }
  }

  /** Every name in the tally has at least one vote, and exactly one per occurrence of its token. */
  lemma CountsAreOccurrences(rows: seq<seq<string>>)
    ensures forall t :: t in VoteCounts(rows) <==> t in DataTokens(rows)
    ensures forall t :: t in VoteCounts(rows) ==> VoteCounts(rows)[t] == Occurrences(DataTokens(rows), t) >= 1
  {
    forall t | t in VoteCounts(rows) ensures Occurrences(DataTokens(rows), t) >= 1 {
      OccurrencesPositive(DataTokens(rows), t);
    }
  }

  /** The recorded key order lists each name of the tally exactly once. */
  lemma KeyOrderMatchesCounts(rows: seq<seq<string>>)
    ensures forall t :: t in KeyCreationOrder(rows) <==> t in VoteCounts(rows)
    ensures Distinct(KeyCreationOrder(rows))
  {
    FirstSeenSpec(DataTokens(rows));
  }

  /** A header-only (or empty) sheet gives an empty tally. */
  lemma HeaderOnlyIsEmpty(rows: seq<seq<string>>)
    requires |rows| <= 1
    ensures VoteCounts(rows) == map[] && KeyCreationOrder(rows) == []
  {
  }

  /** Only the data rows count: whatever the header holds, the tally is the same. */
  lemma {:induction false} HeaderNeverCounts(rows: seq<seq<string>>, header: seq<string>, n: nat)
    requires 1 <= |rows| && n <= |rows|
    ensures TokensUpTo(rows[0 := header], n) == TokensUpTo(rows, n)
  {
    if n > 1 {
      HeaderNeverCounts(rows, header, n - 1);
    }
  }

  /** `ext` is `rows` with one more row inserted at position p. */
  ghost predicate InsertedAt(rows: seq<seq<string>>, ext: seq<seq<string>>, p: nat)
  {
    && |ext| == |rows| + 1 && p <= |rows|
    && (forall k :: 0 <= k < p ==> ext[k] == rows[k])
    && (forall k :: p < k < |ext| ==> ext[k] == rows[k - 1])
  }

  lemma {:induction false} TokensUpToSkip(rows: seq<seq<string>>, ext: seq<seq<string>>, p: nat, n: nat)
    requires InsertedAt(rows, ext, p) && 1 <= p <= n <= |rows|
    requires RowTokens(ext[p]) == []
    ensures TokensUpTo(ext, n + 1) == TokensUpTo(rows, n)
    decreases n
  {
    if n == p {
      TokensUpToPrefix(rows, ext, p);
      assert TokensUpTo(ext, p + 1) == TokensUpTo(ext, p) + [];
    } else {
      TokensUpToSkip(rows, ext, p, n - 1);
      assert TokensUpTo(ext, n + 1) == TokensUpTo(ext, n) + RowTokens(rows[n - 1]);
    }
  }

  lemma {:induction false} TokensUpToPrefix(a: seq<seq<string>>, b: seq<seq<string>>, n: nat)
    requires n <= |a| && n <= |b|
    requires forall k :: 0 <= k < n ==> a[k] == b[k]
    ensures TokensUpTo(a, n) == TokensUpTo(b, n)
  {
    if n > 1 {
      TokensUpToPrefix(a, b, n - 1);
    }
  }

  /**
   * A data row whose cell 1 is missing, empty, or holds no non-empty token
   * changes nothing: inserting it anywhere after the header leaves the
   * tally and its key order as they were.
   */
  lemma SilentRowChangesNothing(rows: seq<seq<string>>, p: nat, row: seq<string>)
    requires 1 <= p <= |rows|
    requires RowTokens(row) == []
    ensures VoteCounts(rows[..p] + [row] + rows[p..]) == VoteCounts(rows)
    ensures KeyCreationOrder(rows[..p] + [row] + rows[p..]) == KeyCreationOrder(rows)
  {
    var ext := rows[..p] + [row] + rows[p..];
    assert InsertedAt(rows, ext, p);
    TokensUpToSkip(rows, ext, p, |rows|);
    assert DataTokens(ext) == DataTokens(rows);
  }

  /** Every token is non-empty, trimmed, and free of commas. */
  lemma TokensWellFormed(rows: seq<seq<string>>)
    ensures forall t :: t in DataTokens(rows) ==> t != "" && IsTrimmed(t) && ',' !in t
  {
    forall t | t in DataTokens(rows) ensures t != "" && IsTrimmed(t) && ',' !in t {
      TokensUpToAllRows(rows, |rows|, t);
      var r :| 1 <= r < |rows| && t in RowTokens(rows[r]);
      AnswerTokenWellFormed(rows[r][1], t);
    }
  }

  lemma AnswerTokenWellFormed(cell: string, t: string)
    requires t in AnswerTokens(cell)
    ensures t != "" && IsTrimmed(t) && ',' !in t
  {
    var pieces := Split(cell, ',');
    NonEmptyMembers(Trimmed(pieces), t);
    var n :| 0 <= n < |pieces| && t == Trim(pieces[n]);
    TrimShape(pieces[n]);
    SplitPiecesFree(cell, ',');
    assert pieces[n] in pieces;
    var i, j :| 0 <= i <= j <= |pieces[n]| && t == pieces[n][i..j];
    SliceAvoids(pieces[n], i, j, ',');
  }

  lemma SliceAvoids<T>(s: seq<T>, i: nat, j: nat, x: T)
    requires i <= j <= |s| && x !in s
    ensures x !in s[i..j]
  {
    forall m | 0 <= m < j - i ensures s[i..j][m] != x { assert s[i..j][m] == s[i + m]; }
  }

  lemma {:induction false} NonEmptyMembers(ss: seq<string>, t: string)
    ensures t in NonEmpty(ss) <==> t in ss && t != ""
  {
    if ss != [] {
      NonEmptyMembers(ss[1..], t);
      assert ss == [ss[0]] + ss[1..];
    }
  }

  /** The answer "A, B, A" holds the tokens A, B, A. */
  lemma RepeatedAnswerTokens()
    ensures AnswerTokens("A, B, A") == ["A", "B", "A"]
  {
    RepeatedAnswerPieces();
    SpaceLetterTrim('B');
    SpaceLetterTrim('A');
    assert Trimmed(["A", " B", " A"]) == ["A", "B", "A"];
    assert NonEmpty(["A", "B", "A"]) == ["A", "B", "A"] by {
      assert ["A", "B", "A"][1..] == ["B", "A"];
      assert ["B", "A"][1..] == ["A"];
      assert ["A"][1..] == [];
    }
  }

  /** One leading blank before a letter is what trim removes. */
  lemma SpaceLetterTrim(c: char)
    requires 'A' <= c <= 'Z'
    ensures Trim([' ', c]) == [c] && Trim([c]) == [c]
  {
    assert !IsSpace(c);
    assert [' ', c][1..] == [c];
    assert TrimStart([c]) == [c];
    assert TrimStart([' ', c]) == [c];
    assert TrimEnd([c]) == [c];
  }

  /** The answer "A, B, A" splits into "A", " B" and " A". */
  lemma RepeatedAnswerPieces()
    ensures Split("A, B, A", ',') == ["A", " B", " A"]
  {
    assert "A, B, A" == "A" + [','] + (" B" + [','] + " A");
    SplitFirstPiece("A", " B" + [','] + " A", ',');
    SplitFirstPiece(" B", " A", ',');
    SplitNoSeparator(" A", ',');
  }

  /** A data row answering "A, B, A" is two votes for A and one for B. */
  lemma RepeatedAnswerCountsTwice(header: seq<string>, stamp: string)
    ensures VoteCounts([header, [stamp, "A, B, A"]]) == map["A" := 2, "B" := 1]
  {
    var rows := [header, [stamp, "A, B, A"]];
    RepeatedAnswerTokens();
    assert RowTokens(rows[1]) == ["A", "B", "A"];
    var s := ["A", "B", "A"];
    assert TokensUpTo(rows, 1) == [];
    assert DataTokens(rows) == TokensUpTo(rows, 1) + RowTokens(rows[1]) == s;
    CountsOfExample();
  }

  lemma CountsOfExample()
    ensures CountsOf(["A", "B", "A"]) == map["A" := 2, "B" := 1]
  {
    var s := ["A", "B", "A"];
    assert s[..2] == ["A", "B"] && ["A", "B"][..1] == ["A"];
    assert Occurrences(s, "A") == 2;
    assert Occurrences(s, "B") == 1;
    var m := CountsOf(s);
    assert m.Keys == {"A", "B"};
    assert m["A"] == 2 && m["B"] == 1;
  }
}
