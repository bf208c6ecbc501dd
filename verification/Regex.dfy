/** What it means for one of the regular expressions of libs/contracts/validation.py to
    match: every one of them is a sequence of repeated character classes and word
    boundaries.  Matching is existential, so greedy and lazy repetition mean the same. */
module Regex {
  import opened Wrappers

  /** The parts of Python's character tables that the expressions ask about. */
  datatype Unicode = Unicode(word: char -> bool, digit: char -> bool, space: char -> bool) {
    /** What is used of them: their ASCII part, and that digits and the long s are word
        characters.  Matching without case, a long s stands for an s. */
    ghost predicate IsPython() {
      && (forall c: char | c < '\U{80}' :: word(c) <==> 'A' <= c <= 'Z' || 'a' <= c <= 'z' || IsDecimal(c) || c == '_')
      && (forall c: char | c < '\U{80}' :: digit(c) <==> IsDecimal(c))
      && (forall c: char | digit(c) :: word(c))
      && word(LONG_S)
    }
  }

  const LONG_S: char := '\U{17F}'

  predicate IsDecimal(c: char) {
    '0' <= c <= '9'
  }

  datatype Item =
    | Run(within: char -> bool, least: nat, most: Option<nat>)
    | WordBoundary

  type Pattern = seq<Item>

  function One(within: char -> bool): Item {
    Run(within, 1, Some(1))
  }

  function Literal(c: char): Item {
    One(x => x == c)
  }

  function Exactly(n: nat, within: char -> bool): Item {
    Run(within, n, Some(n))
  }

  function Perhaps(within: char -> bool): Item {
    Run(within, 0, Some(1))
  }

  function Star(within: char -> bool): Item {
    Run(within, 0, None)
  }

  predicate IsWordAt(u: Unicode, s: string, i: int) {
    0 <= i < |s| && u.word(s[i])
  }

  /** `item` matches s[i..j]; a boundary looks at the characters around. */
  predicate ItemMatches(u: Unicode, item: Item, s: string, i: nat, j: nat)
    requires i <= j <= |s|
  {
    match item
    case Run(within, least, most) =>
      least <= j - i && (most.Some? ==> j - i <= most.value) && forall x | i <= x < j :: within(s[x])
    case WordBoundary =>
      i == j && IsWordAt(u, s, i - 1) != IsWordAt(u, s, i)
  }

  predicate Matches(u: Unicode, p: Pattern, s: string, i: nat, j: nat)
    requires i <= j <= |s|
    decreases |p|
  {
    if |p| == 0 then
      i == j
    else
      exists m | i <= m <= j :: ItemMatches(u, p[0], s, i, m) && Matches(u, p[1..], s, m, j)
  }

  /** re.search finds something. */
  predicate Search(u: Unicode, p: Pattern, s: string) {
    exists i: nat, j: nat | i <= j <= |s| :: Matches(u, p, s, i, j)
  }

  /** Matching a concatenation is matching the two patterns one after the other. */
  lemma {:induction false} MatchesAppend(u: Unicode, p: Pattern, q: Pattern, s: string, i: nat, j: nat)
    requires i <= j <= |s|
    ensures Matches(u, p + q, s, i, j) <==> exists m | i <= m <= j :: Matches(u, p, s, i, m) && Matches(u, q, s, m, j)
    decreases |p|
  {
    if |p| == 0 {
      assert p + q == q;
      if Matches(u, p + q, s, i, j) {
        assert Matches(u, p, s, i, i);
      }
    } else {
      assert (p + q)[1..] == p[1..] + q;
      forall m | i <= m <= j {
        MatchesAppend(u, p[1..], q, s, m, j);
      }
      if Matches(u, p + q, s, i, j) {
        var m :| i <= m <= j && ItemMatches(u, p[0], s, i, m) && Matches(u, p[1..] + q, s, m, j);
        var n :| m <= n <= j && Matches(u, p[1..], s, m, n) && Matches(u, q, s, n, j);
        assert Matches(u, p, s, i, n);
      }
      if n :| i <= n <= j && Matches(u, p, s, i, n) && Matches(u, q, s, n, j) {
        var m :| i <= m <= n && ItemMatches(u, p[0], s, i, m) && Matches(u, p[1..], s, m, n);
        assert Matches(u, p[1..] + q, s, m, j);
      }
    }
  }

  /** Where a pattern matches, the part of it between two others does. */
  lemma MatchesPart(u: Unicode, p: Pattern, q: Pattern, r: Pattern, s: string, i: nat, j: nat) returns (m: nat, n: nat)
    requires i <= j <= |s| && Matches(u, p + q + r, s, i, j)
    ensures i <= m <= n <= j && Matches(u, p, s, i, m) && Matches(u, q, s, m, n) && Matches(u, r, s, n, j)
  {
    MatchesAppend(u, p + q, r, s, i, j);
    n :| i <= n <= j && Matches(u, p + q, s, i, n) && Matches(u, r, s, n, j);
    MatchesAppend(u, p, q, s, i, n);
    m :| i <= m <= n && Matches(u, p, s, i, m) && Matches(u, q, s, m, n);
  }

  lemma MatchesJoin(u: Unicode, p: Pattern, q: Pattern, r: Pattern, s: string, i: nat, m: nat, n: nat, j: nat)
    requires i <= m <= n <= j <= |s|
    requires Matches(u, p, s, i, m) && Matches(u, q, s, m, n) && Matches(u, r, s, n, j)
    ensures Matches(u, p + q + r, s, i, j)
  {
    MatchesAppend(u, p, q, s, i, n);
    assert Matches(u, p + q, s, i, n);
    MatchesAppend(u, p + q, r, s, i, j);
    assert Matches(u, p + q + r, s, i, j) by { hide Matches; }
  }

  lemma MatchesOne(u: Unicode, item: Item, s: string, i: nat, j: nat)
    requires i <= j <= |s|
    ensures Matches(u, [item], s, i, j) <==> ItemMatches(u, item, s, i, j)
  {
    assert [item][1..] == [];
    if ItemMatches(u, item, s, i, j) {
      assert Matches(u, [item][1..], s, j, j);
    }
  }

  /** A match has a character of every class that the pattern needs. */
  lemma MatchHasCharacter(u: Unicode, p: Pattern, k: nat, s: string, i: nat, j: nat) returns (x: nat)
    requires i <= j <= |s| && Matches(u, p, s, i, j)
    requires k < |p| && p[k].Run? && p[k].least >= 1
    ensures i <= x < j && p[k].within(s[x])
  {
    assert p == p[..k] + [p[k]] + p[k + 1..];
    var m, n := MatchesPart(u, p[..k], [p[k]], p[k + 1..], s, i, j);
    MatchesOne(u, p[k], s, m, n);
    x := m;
  }

  /** The places where a match passes from one item to the next witness it. */
  lemma {:induction false} MatchesAlong(u: Unicode, p: Pattern, s: string, cuts: seq<nat>)
    requires |cuts| == |p| + 1
    requires forall k | 0 <= k < |cuts| :: cuts[k] <= |s|
    requires forall k | 0 <= k < |p| :: cuts[k] <= cuts[k + 1] && ItemMatches(u, p[k], s, cuts[k], cuts[k + 1])
    ensures cuts[0] <= cuts[|p|] && Matches(u, p, s, cuts[0], cuts[|p|])
    decreases |p|
  {
    if |p| > 0 {
      var rest := cuts[1..];
      assert forall k | 0 <= k < |rest| :: rest[k] == cuts[k + 1];
      MatchesAlong(u, p[1..], s, rest);
    }
  }

  lemma {:induction false} MatchHasCuts(u: Unicode, p: Pattern, s: string, i: nat, j: nat) returns (cuts: seq<nat>)
    requires i <= j <= |s| && Matches(u, p, s, i, j)
    ensures |cuts| == |p| + 1 && cuts[0] == i && cuts[|p|] == j
    ensures forall k | 0 <= k < |cuts| :: cuts[k] <= |s|
    ensures forall k | 0 <= k < |p| :: cuts[k] <= cuts[k + 1] && ItemMatches(u, p[k], s, cuts[k], cuts[k + 1])
    decreases |p|
  {
    if |p| == 0 {
      cuts := [i];
    } else {
      var m :| i <= m <= j && ItemMatches(u, p[0], s, i, m) && Matches(u, p[1..], s, m, j);
      cuts := MatchHasCuts(u, p[1..], s, m, j);
      cuts := [i] + cuts;
    }
  }

  /** When every item runs over characters of one class, so does the match. */
  lemma {:induction false} MatchStaysWithin(u: Unicode, p: Pattern, c: char -> bool, s: string, i: nat, j: nat)
    requires i <= j <= |s| && Matches(u, p, s, i, j)
    requires forall k | 0 <= k < |p| :: p[k].Run? && forall x: char | p[k].within(x) :: c(x)
    ensures forall x | i <= x < j :: c(s[x])
    decreases |p|
  {
    if |p| > 0 {
      var m :| i <= m <= j && ItemMatches(u, p[0], s, i, m) && Matches(u, p[1..], s, m, j);
      MatchStaysWithin(u, p[1..], c, s, m, j);
    }
  }
}
