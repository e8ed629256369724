/** The optional-value wrapper used throughout the model. */
module Wrappers {
  datatype Option<+T> = None | Some(value: T)
}

/** Facts about sequences without repeated elements. */
module Seqs {

  ghost predicate Distinct<T>(s: seq<T>)
  {
    forall i, j :: 0 <= i < j < |s| ==> s[i] != s[j]
  }

  /** A sequence is without repeats exactly when no element has multiplicity above one. */
  lemma {:induction false} DistinctMultiplicity<T>(s: seq<T>)
    ensures Distinct(s) <==> forall x :: multiset(s)[x] <= 1
  {
    if s != [] {
      var rest := s[1..];
      assert s == [s[0]] + rest;
      DistinctMultiplicity(rest);
      if Distinct(s) {
        assert Distinct(rest) by {
          forall i, j | 0 <= i < j < |rest| ensures rest[i] != rest[j] {
            assert rest[i] == s[i + 1] && rest[j] == s[j + 1];
          }
        }
        assert s[0] !in rest by {
          forall j | 0 <= j < |rest| ensures rest[j] != s[0] { assert rest[j] == s[j + 1]; }
        }
      }
      if forall x :: multiset(s)[x] <= 1 {
        assert multiset(s) == multiset{s[0]} + multiset(rest);
        assert forall x :: multiset(rest)[x] <= 1 by {
          forall x ensures multiset(rest)[x] <= 1 { assert multiset(rest)[x] <= multiset(s)[x]; }
        }
        assert multiset(rest)[s[0]] == 0 by { assert multiset(s)[s[0]] <= 1; }
        forall i, j | 0 <= i < j < |s| ensures s[i] != s[j] {
          assert s[j] == rest[j - 1];
          if i > 0 { assert s[i] == rest[i - 1]; }
        }
      }
    }
  }

  /** A permutation of a sequence without repeats has no repeats. */
  lemma DistinctPermutation<T>(a: seq<T>, b: seq<T>)
    requires Distinct(a) && multiset(a) == multiset(b)
    ensures Distinct(b)
  {
    DistinctMultiplicity(a);
    DistinctMultiplicity(b);
  }

  /** A sequence without repeats has as many elements as its set. */
  lemma {:induction false} DistinctCardinality<T>(s: seq<T>)
    requires Distinct(s)
    ensures |set x | x in s| == |s|
  {
    if s != [] {
      var init := s[..|s| - 1];
      assert Distinct(init);
      DistinctCardinality(init);
      assert (set x | x in s) == (set x | x in init) + {s[|s| - 1]};
      assert s[|s| - 1] !in init;
    }
  }
}

/**
 * The few ECMAScript string operations the poll pipeline relies on:
 * String.prototype.trim, String.prototype.split with a one-character
 * separator, and the whitespace class shared by trim and the regular
 * expression escape \s.
 */
module JsText {

  /**
   * WhiteSpace and LineTerminator code points (sections 12.2 and 12.3 of
   * ECMA-262): what trim removes and what \s matches.
   */
  predicate IsSpace(c: char)
  {
    || c == '\t' || c == '\n' || c == '\U{B}' || c == '\U{C}' || c == '\r'
    || c == ' ' || c == '\U{A0}' || c == '\U{1680}'
    || ('\U{2000}' <= c <= '\U{200A}')
    || c == '\U{2028}' || c == '\U{2029}' || c == '\U{202F}' || c == '\U{205F}'
    || c == '\U{3000}' || c == '\U{FEFF}'
  }

  ghost predicate AllSpace(s: string)
  {
    forall m :: 0 <= m < |s| ==> IsSpace(s[m])
  }

  /** No whitespace at either end: what trim leaves behind. */
  ghost predicate IsTrimmed(s: string)
  {
    s == [] || (!IsSpace(s[0]) && !IsSpace(s[|s| - 1]))
  }

  function TrimStart(s: string): string
  {
    if |s| > 0 && IsSpace(s[0]) then TrimStart(s[1..]) else s
  }

  function TrimEnd(s: string): string
  {
    if |s| > 0 && IsSpace(s[|s| - 1]) then TrimEnd(s[..|s| - 1]) else s
  }

  /** String.prototype.trim. */
  function Trim(s: string): string
  {
    TrimEnd(TrimStart(s))
  }

  /** How many whitespace characters TrimStart removes. */
  function LeadingSpaces(s: string): (n: nat)
    ensures n <= |s|
    decreases |s|
  {
    if |s| > 0 && IsSpace(s[0]) then 1 + LeadingSpaces(s[1..]) else 0
  }

  /** How many whitespace characters TrimEnd removes. */
  function TrailingSpaces(s: string): (n: nat)
    ensures n <= |s|
    decreases |s|
  {
    if |s| > 0 && IsSpace(s[|s| - 1]) then 1 + TrailingSpaces(s[..|s| - 1]) else 0
  }

  lemma {:induction false} TrimStartShape(s: string)
    ensures TrimStart(s) == s[LeadingSpaces(s)..]
    ensures forall m :: 0 <= m < LeadingSpaces(s) ==> IsSpace(s[m])
    ensures TrimStart(s) == [] || !IsSpace(TrimStart(s)[0])
    decreases |s|
  {
    if |s| > 0 && IsSpace(s[0]) {
      TrimStartShape(s[1..]);
      DropAfterDrop(s, LeadingSpaces(s[1..]));
      forall m | 0 < m < LeadingSpaces(s) ensures IsSpace(s[m]) { assert s[m] == s[1..][m - 1]; }
    }
  }

  lemma {:induction false} TrimEndShape(s: string)
    ensures TrimEnd(s) == s[..|s| - TrailingSpaces(s)]
    ensures forall m :: |s| - TrailingSpaces(s) <= m < |s| ==> IsSpace(s[m])
    ensures TrimEnd(s) == [] || !IsSpace(TrimEnd(s)[|TrimEnd(s)| - 1])
    decreases |s|
  {
    if |s| > 0 && IsSpace(s[|s| - 1]) {
      var p := s[..|s| - 1];
      TrimEndShape(p);
      TakeAfterTake(s, |p| - TrailingSpaces(p));
      forall m | |s| - TrailingSpaces(s) <= m < |s| - 1 ensures IsSpace(s[m]) { assert s[m] == p[m]; }
    }
  }

  lemma DropAfterDrop<T>(s: seq<T>, k: nat)
    requires 1 <= |s| && k <= |s| - 1
    ensures s[1..][k..] == s[k + 1..]
  {
  }

  lemma TakeAfterTake<T>(s: seq<T>, k: nat)
    requires 1 <= |s| && k <= |s| - 1
    ensures s[..|s| - 1][..k] == s[..k]
  {
  }

  /**
   * Trim removes a whitespace prefix and a whitespace suffix and nothing
   * else, and what remains starts and ends with a non-space character.
   */
  lemma TrimShape(s: string)
    ensures exists i, j :: 0 <= i <= j <= |s| && Trim(s) == s[i..j] && AllSpace(s[..i]) && AllSpace(s[j..])
    ensures IsTrimmed(Trim(s))
  {
    TrimStartShape(s);
    var i := LeadingSpaces(s);
    var t := s[i..];
    TrimEndShape(t);
    var j := |t| - TrailingSpaces(t);
    SliceOfSlice(s, i, j);
    var k := i + j;
    SpacePrefix(s, i);
    SpaceSuffix(s, t, i, j);
    assert Trim(s) == s[i..k];
    assert Trim(s) == [] || (Trim(s)[0] == TrimStart(s)[0] && !IsSpace(Trim(s)[0]));
  }

  lemma SpacePrefix(s: string, i: nat)
    requires i <= |s| && forall m :: 0 <= m < i ==> IsSpace(s[m])
    ensures AllSpace(s[..i])
  {
    forall m | 0 <= m < i ensures IsSpace(s[..i][m]) { assert s[..i][m] == s[m]; }
  }

  lemma SpaceSuffix(s: string, t: string, i: nat, j: nat)
    requires i <= |s| && t == s[i..] && j <= |t|
    requires forall m :: j <= m < |t| ==> IsSpace(t[m])
    ensures AllSpace(s[i + j..])
  {
    var k := i + j;
    forall m | 0 <= m < |s| - k ensures IsSpace(s[k..][m]) { assert s[k..][m] == t[j + m]; }
  }

  lemma SliceOfSlice<T>(s: seq<T>, i: nat, j: nat)
    requires i <= |s| && j <= |s| - i
    ensures s[i..][..j] == s[i..i + j] && s[i..][j..] == s[i + j..]
  {
  }

  /** A trimmed string is its own trim. */
  lemma TrimIdempotent(s: string)
    requires IsTrimmed(s)
    ensures Trim(s) == s
  {
  }

  /**
   * String.prototype.split with a one-character separator: the pieces
   * between separators, in order; the empty string splits into [""].
   */
  function Split(s: string, sep: char): (r: seq<string>)
    ensures |r| >= 1
    decreases |s|
  {
    if |s| == 0 then [""]
    else if s[0] == sep then [""] + Split(s[1..], sep)
    else
      var rest := Split(s[1..], sep);
      [[s[0]] + rest[0]] + rest[1..]
  }

  /** Array.prototype.join with a one-character separator. */
  function Join(pieces: seq<string>, sep: char): string
    requires |pieces| >= 1
  {
    if |pieces| == 1 then pieces[0] else pieces[0] + [sep] + Join(pieces[1..], sep)
  }

  /** Joining the pieces of a split with the same separator gives the input back. */
  lemma {:induction false} SplitJoin(s: string, sep: char)
    ensures Join(Split(s, sep), sep) == s
    decreases |s|
  {
    if |s| > 0 {
      var c, tail := s[0], s[1..];
      assert s == [c] + tail;
      SplitStep(c, tail, sep);
      SplitJoin(tail, sep);
      var rest := Split(tail, sep);
      var r := Split(s, sep);
      if c == sep {
        assert r[1..] == rest;
        PrependJoin([], [sep], Join(rest, sep));
      } else if |rest| == 1 {
        assert r == [[c] + tail];
      } else {
        assert r[1..] == rest[1..];
        var j := Join(rest[1..], sep);
        assert Join(r, sep) == [c] + rest[0] + [sep] + j;
        assert tail == rest[0] + [sep] + j;
        PrependJoin([c], rest[0], [sep] + j);
      }
    }
  }

  lemma PrependJoin<T>(a: seq<T>, b: seq<T>, c: seq<T>)
    ensures a + b + c == a + (b + c)
  {
  }

  /** No piece of a split contains the separator. */
  lemma {:induction false} SplitPiecesFree(s: string, sep: char)
    ensures forall p :: p in Split(s, sep) ==> sep !in p
    decreases |s|
  {
    if |s| > 0 {
      SplitPiecesFree(s[1..], sep);
      if s[0] != sep {
        var rest := Split(s[1..], sep);
        assert rest[0] in rest;
        forall p | p in Split(s, sep) ensures sep !in p {
          if p != [s[0]] + rest[0] {
            assert p in rest[1..];
          }
        }
      }
    }
  }

  /** Split peels one character off the front. */
  lemma SplitStep(c: char, s: string, sep: char)
    ensures Split([c] + s, sep) ==
      if c == sep then [""] + Split(s, sep) else [[c] + Split(s, sep)[0]] + Split(s, sep)[1..]
  {
    assert ([c] + s)[1..] == s;
  }

  /** A first piece without the separator, then the separator, then the rest: the first piece comes out whole. */
  lemma {:induction false} SplitFirstPiece(a: string, rest: string, sep: char)
    requires sep !in a
    ensures Split(a + [sep] + rest, sep) == [a] + Split(rest, sep)
    decreases |a|
  {
    if a == [] {
      SplitStep(sep, rest, sep);
      assert a + [sep] + rest == [sep] + rest;
    } else {
      var tail := a[1..];
      assert sep !in tail by {
        forall m | 0 <= m < |tail| ensures tail[m] != sep { assert tail[m] == a[m + 1]; }
      }
      SplitFirstPiece(tail, rest, sep);
      SplitStep(a[0], tail + [sep] + rest, sep);
      assert a + [sep] + rest == [a[0]] + (tail + [sep] + rest);
      assert [a[0]] + tail == a;
    }
  }

  /** A string without the separator splits into itself alone. */
  lemma {:induction false} SplitNoSeparator(s: string, sep: char)
    requires sep !in s
    ensures Split(s, sep) == [s]
    decreases |s|
  {
    if |s| > 0 {
      assert s[1..] == s[1..] && sep !in s[1..] by {
        forall m | 0 <= m < |s[1..]| ensures s[1..][m] != sep { assert s[1..][m] == s[m + 1]; }
      }
      SplitNoSeparator(s[1..], sep);
      assert [s[0]] + s[1..] == s;
    }
  }
}
