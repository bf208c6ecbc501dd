/** The expressions of libs/contracts/validation.py for JSON wrapped in markdown and for
    personal data. */
module Patterns {
  import opened Wrappers
  import opened Regex

  function Fence(): Pattern {
    [Literal('`'), Literal('`'), Literal('`')]
  }

  /** The word json, without regard to case. */
  function JsonTag(): Pattern {
    [ One(c => c == 'j' || c == 'J'), One(c => c == 's' || c == 'S' || c == LONG_S),
      One(c => c == 'o' || c == 'O'), One(c => c == 'n' || c == 'N')]
  }

  /** Braces around anything, with white space around them. */
  function Braces(u: Unicode): Pattern {
    [Star(u.space), Literal('{'), Star(_ => true), Literal('}'), Star(u.space)]
  }


  /** The same and a closing fence. */
  function Block(u: Unicode): Pattern {
    Braces(u) + Fence()
  }

  function JsonFence(u: Unicode): Pattern {
    Fence() + JsonTag() + Block(u)
  }

  function PlainFence(u: Unicode): Pattern {
    Fence() + [] + Block(u)
  }

  function InlineCode(): Pattern {
    [Literal('`'), Literal('{'), Star(_ => true), Literal('}'), Literal('`')]
  }

  function TaggedFence(u: Unicode): Pattern {
    Fence() + [Star(u.word)] + Block(u)
  }

  predicate ContainsMarkdownJson(u: Unicode, text: string) {
    || Search(u, JsonFence(u), text)
    || Search(u, PlainFence(u), text)
    || Search(u, InlineCode(), text)
    || Search(u, TaggedFence(u), text)
  }

  /** The first two expressions never find what the fourth does not. */
  lemma TagIsAnyWord(u: Unicode, text: string)
    requires u.IsPython()
    ensures Search(u, JsonFence(u), text) || Search(u, PlainFence(u), text) ==> Search(u, TaggedFence(u), text)
  {
    if i: nat, j: nat :| i <= j <= |text| && Matches(u, JsonFence(u), text, i, j) {
      AnyWordMatches(u, JsonTag(), text, i, j);
    }
    if i: nat, j: nat :| i <= j <= |text| && Matches(u, PlainFence(u), text, i, j) {
      AnyWordMatches(u, [], text, i, j);
    }
  }

  lemma AnyWordMatches(u: Unicode, tag: Pattern, text: string, i: nat, j: nat)
    requires i <= j <= |text| && Matches(u, Fence() + tag + Block(u), text, i, j)
    requires forall k | 0 <= k < |tag| :: tag[k].Run? && forall x: char | tag[k].within(x) :: u.word(x)
    ensures Matches(u, TaggedFence(u), text, i, j)
  {
    hide Matches;
    var m, n := MatchesPart(u, Fence(), tag, Block(u), text, i, j);
    MatchStaysWithin(u, tag, u.word, text, m, n);
    MatchesOne(u, Star(u.word), text, m, n);
    MatchesJoin(u, Fence(), [Star(u.word)], Block(u), text, i, m, n, j);
  }

  /** The test with four expressions is the test with the last two. */
  lemma TwoPatternsSuffice(u: Unicode, text: string)
    requires u.IsPython()
    ensures ContainsMarkdownJson(u, text) <==> Search(u, InlineCode(), text) || Search(u, TaggedFence(u), text)
  {
    TagIsAnyWord(u, text);
  }

  // ---- What the expressions for markdown mean ----

  predicate AllWithin(within: char -> bool, s: string, i: nat, j: nat)
    requires i <= j <= |s|
  {
    forall x | i <= x < j :: within(s[x])
  }

  predicate Ticks(s: string, i: nat) {
    i + 3 <= |s| && s[i] == s[i + 1] == s[i + 2] == '`'
  }

  /** A backtick and an opening brace, and later a closing brace and a backtick. */
  predicate HasInlineCode(s: string) {
    exists i: nat, j: nat | i + 2 <= j && j + 2 <= |s| ::
      s[i] == '`' && s[i + 1] == '{' && s[j] == '}' && s[j + 1] == '`'
  }

  /** A fence from i on, a word up to `tag`, white space up to the brace at `open`, and
      from the brace at `close` white space up to the fence at j. */
  predicate IsBlock(u: Unicode, s: string, i: nat, tag: nat, open: nat, close: nat, j: nat)
    requires i + 3 <= tag <= open < close < j <= |s|
  {
    && Ticks(s, i) && AllWithin(u.word, s, i + 3, tag)
    && AllWithin(u.space, s, tag, open) && s[open] == '{'
    && s[close] == '}' && AllWithin(u.space, s, close + 1, j) && Ticks(s, j)
  }

  predicate HasBlock(u: Unicode, s: string) {
    exists i: nat, tag: nat, open: nat, close: nat, j: nat | i + 3 <= tag <= open < close < j <= |s| ::
      IsBlock(u, s, i, tag, open, close, j)
  }

  lemma LiteralStep(u: Unicode, c: char, p: Pattern, s: string, i: nat, j: nat)
    requires i <= j <= |s| && |p| > 0 && p[0] == Literal(c)
    ensures Matches(u, p, s, i, j) <==> i < j && s[i] == c && Matches(u, p[1..], s, i + 1, j)
  {
    if i < j && s[i] == c {
      assert ItemMatches(u, p[0], s, i, i + 1);
    }
  }

  lemma FenceMatches(u: Unicode, s: string, i: nat, j: nat)
    requires i <= j <= |s|
    ensures Matches(u, Fence(), s, i, j) <==> j == i + 3 && Ticks(s, i)
  {
    var p := Fence();
    LiteralStep(u, '`', p, s, i, j);
    if i < j {
      LiteralStep(u, '`', p[1..], s, i + 1, j);
      if i + 1 < j {
        LiteralStep(u, '`', p[1..][1..], s, i + 2, j);
      }
    }
  }

  lemma InlineCodeFoundIff(u: Unicode, s: string)
    ensures Search(u, InlineCode(), s) <==> HasInlineCode(s)
  {
    hide Matches;
    if i: nat, j: nat :| i <= j <= |s| && Matches(u, InlineCode(), s, i, j) {
      var cuts := MatchHasCuts(u, InlineCode(), s, i, j);
      InlineCodeAt(u, s, cuts);
    }
    if i: nat, j: nat :| i + 2 <= j && j + 2 <= |s| && s[i] == '`' && s[i + 1] == '{' && s[j] == '}' && s[j + 1] == '`' {
      InlineCodeIsFound(u, s, i, j);
    }
  }

  lemma InlineCodeIsFound(u: Unicode, s: string, i: nat, j: nat)
    requires i + 2 <= j && j + 2 <= |s| && s[i] == '`' && s[i + 1] == '{' && s[j] == '}' && s[j + 1] == '`'
    ensures Search(u, InlineCode(), s)
  {
    hide Matches;
    MatchesAlong(u, InlineCode(), s, [i, i + 1, i + 2, j, j + 1, j + 2]);
  }

  lemma InlineCodeAt(u: Unicode, s: string, cuts: seq<nat>)
    requires |cuts| == 6 && forall k | 0 <= k < 6 :: cuts[k] <= |s|
    requires forall k | 0 <= k < 5 :: cuts[k] <= cuts[k + 1] && ItemMatches(u, InlineCode()[k], s, cuts[k], cuts[k + 1])
    ensures HasInlineCode(s)
  {
    var p := InlineCode();
    assert ItemMatches(u, p[0], s, cuts[0], cuts[0 + 1]) && ItemMatches(u, p[1], s, cuts[1], cuts[1 + 1]);
    assert ItemMatches(u, p[3], s, cuts[3], cuts[3 + 1]) && ItemMatches(u, p[4], s, cuts[4], cuts[4 + 1]);
    assert cuts[2] <= cuts[2 + 1];
    var i, j := cuts[0], cuts[3];
    assert s[i] == '`' && s[i + 1] == '{' && s[j] == '}' && s[j + 1] == '`';
  }

  /** White space up to a brace at `open`, a brace at `close`, and white space from there. */
  predicate AreBraces(u: Unicode, s: string, i: nat, open: nat, close: nat, j: nat)
    requires i <= open < close < j <= |s|
  {
    AllWithin(u.space, s, i, open) && s[open] == '{' && s[close] == '}' && AllWithin(u.space, s, close + 1, j)
  }

  lemma BracesMatchIff(u: Unicode, s: string, i: nat, j: nat)
    requires i <= j <= |s|
    ensures Matches(u, Braces(u), s, i, j) <==>
              exists open: nat, close: nat | i <= open < close < j :: AreBraces(u, s, i, open, close, j)
  {
    hide Matches;
    if Matches(u, Braces(u), s, i, j) {
      var cuts := MatchHasCuts(u, Braces(u), s, i, j);
      BracesAt(u, s, cuts);
      assert AreBraces(u, s, i, cuts[1], cuts[3], j);
    }
    if open: nat, close: nat :| i <= open < close < j && AreBraces(u, s, i, open, close, j) {
      MatchesAlong(u, Braces(u), s, [i, open, open + 1, close, close + 1, j]);
    }
  }

  lemma BracesAt(u: Unicode, s: string, cuts: seq<nat>)
    requires |cuts| == 6 && forall k | 0 <= k < 6 :: cuts[k] <= |s|
    requires forall k | 0 <= k < 5 :: cuts[k] <= cuts[k + 1] && ItemMatches(u, Braces(u)[k], s, cuts[k], cuts[k + 1])
    ensures cuts[0] <= cuts[1] < cuts[3] < cuts[5] && AreBraces(u, s, cuts[0], cuts[1], cuts[3], cuts[5])
  {
    var p := Braces(u);
    assert ItemMatches(u, p[0], s, cuts[0], cuts[0 + 1]) && ItemMatches(u, p[1], s, cuts[1], cuts[1 + 1]);
    assert ItemMatches(u, p[3], s, cuts[3], cuts[3 + 1]) && ItemMatches(u, p[4], s, cuts[4], cuts[4 + 1]);
    assert cuts[2] <= cuts[2 + 1];
  }

  lemma BlockFound(u: Unicode, s: string, i: nat, j: nat)
    requires i <= j <= |s| && Matches(u, TaggedFence(u), s, i, j)
    ensures HasBlock(u, s)
  {
    hide Matches;
    assert TaggedFence(u) == Fence() + [Star(u.word)] + Block(u);
    var m, n := MatchesPart(u, Fence(), [Star(u.word)], Block(u), s, i, j);
    FenceMatches(u, s, i, m);
    MatchesOne(u, Star(u.word), s, m, n);
    MatchesAppend(u, Braces(u), Fence(), s, n, j);
    var k :| n <= k <= j && Matches(u, Braces(u), s, n, k) && Matches(u, Fence(), s, k, j);
    FenceMatches(u, s, k, j);
    BracesMatchIff(u, s, n, k);
    var open: nat, close: nat :| n <= open < close < k && AreBraces(u, s, n, open, close, k);
    assert IsBlock(u, s, i, n, open, close, k);
  }

  lemma BlockIsFound(u: Unicode, s: string, i: nat, tag: nat, open: nat, close: nat, j: nat)
    requires i + 3 <= tag <= open < close < j <= |s| && IsBlock(u, s, i, tag, open, close, j)
    ensures Search(u, TaggedFence(u), s)
  {
    hide Matches;
    FenceMatches(u, s, i, i + 3);
    MatchesOne(u, Star(u.word), s, i + 3, tag);
    assert AreBraces(u, s, tag, open, close, j);
    BracesMatchIff(u, s, tag, j);
    FenceMatches(u, s, j, j + 3);
    MatchesAppend(u, Braces(u), Fence(), s, tag, j + 3);
    MatchesJoin(u, Fence(), [Star(u.word)], Block(u), s, i, i + 3, tag, j + 3);
    assert Matches(u, TaggedFence(u), s, i, j + 3);
  }

  lemma BlockFoundIff(u: Unicode, text: string)
    ensures Search(u, TaggedFence(u), text) <==> HasBlock(u, text)
  {
    hide Matches;
    if i: nat, j: nat :| i <= j <= |text| && Matches(u, TaggedFence(u), text, i, j) {
      BlockFound(u, text, i, j);
    }
    if i: nat, tag: nat, open: nat, close: nat, j: nat :|
      i + 3 <= tag <= open < close < j <= |text| && IsBlock(u, text, i, tag, open, close, j)
    {
      BlockIsFound(u, text, i, tag, open, close, j);
    }
  }

  /** Without regular expressions: text has JSON in markdown exactly when it has inline
      code in braces, or a fenced block in braces after at most one word. */
  lemma MarkdownIff(u: Unicode, text: string)
    requires u.IsPython()
    ensures ContainsMarkdownJson(u, text) <==> HasInlineCode(text) || HasBlock(u, text)
  {
    TwoPatternsSuffice(u, text);
    hide Search, HasInlineCode, HasBlock;
    InlineCodeFoundIff(u, text);
    BlockFoundIff(u, text);
  }

  /** Neither the third nor the fourth expression can be dropped. */
  lemma BothPatternsAreNeeded(u: Unicode)
    requires u.IsPython()
    ensures Search(u, InlineCode(), "`{}`") && !Search(u, TaggedFence(u), "`{}`")
    ensures !Search(u, InlineCode(), "```json{}```") && Search(u, TaggedFence(u), "```json{}```")
  {
    var inline, block := "`{}`", "```json{}```";
    InlineCodeIsNoBlock(u);
    BlockIsNoInlineCode(u);
    hide Search, HasInlineCode, HasBlock;
    InlineCodeFoundIff(u, inline);
    InlineCodeFoundIff(u, block);
    BlockFoundIff(u, inline);
    BlockFoundIff(u, block);
  }

  lemma InlineCodeIsNoBlock(u: Unicode)
    ensures HasInlineCode("`{}`") && !HasBlock(u, "`{}`")
  {
    var s := "`{}`";
    assert s[0] == '`' && s[0 + 1] == '{' && s[2] == '}' && s[2 + 1] == '`';
  }

  lemma BlockIsNoInlineCode(u: Unicode)
    requires u.IsPython()
    ensures !HasInlineCode("```json{}```") && HasBlock(u, "```json{}```")
  {
    assert IsBlock(u, "```json{}```", 0, 7, 7, 8, 9);
  }

  predicate Separates(u: Unicode, c: char) {
    u.space(c) || c == '-'
  }

  /** A separator, or none. */
  function Gap(u: Unicode): Item {
    Perhaps(c => Separates(u, c))
  }

  function SocialSecurity(u: Unicode): Pattern {
    [ WordBoundary, Exactly(3, u.digit), Literal('-'), Exactly(2, u.digit), Literal('-'), Exactly(4, u.digit),
      WordBoundary]
  }

  function CreditCard(u: Unicode): Pattern {
    var gap, four := Gap(u), Exactly(4, u.digit);
    [WordBoundary, four, gap, four, gap, four, gap, four, WordBoundary]
  }

  function Phone(u: Unicode): Pattern {
    var gap, three := Gap(u), Exactly(3, u.digit);
    [WordBoundary, three, gap, three, gap, Exactly(4, u.digit), WordBoundary]
  }

  predicate IsLetter(c: char) {
    'A' <= c <= 'Z' || 'a' <= c <= 'z'
  }

  predicate IsLocal(c: char) {
    IsLetter(c) || IsDecimal(c) || c in "._%+-"
  }

  predicate IsDomain(c: char) {
    IsLetter(c) || IsDecimal(c) || c in ".-"
  }

  predicate IsTop(c: char) {
    IsLetter(c) || c == '|'
  }

  /** The class at the end holds a bar as well as letters. */
  function Email(): Pattern {
    [ WordBoundary,
      Run(IsLocal, 1, None),
      Literal('@'),
      Run(IsDomain, 1, None),
      Literal('.'),
      Run(IsTop, 2, None),
      WordBoundary]
  }

  predicate ContainsPii(u: Unicode, text: string) {
    || Search(u, SocialSecurity(u), text)
    || Search(u, CreditCard(u), text)
    || Search(u, Phone(u), text)
    || Search(u, Email(), text)
  }

  /** Personal data always shows a digit or an at sign. */
  lemma PiiShows(u: Unicode, text: string) returns (x: nat)
    requires ContainsPii(u, text)
    ensures x < |text| && (u.digit(text[x]) || text[x] == '@')
  {
    if i: nat, j: nat :| i <= j <= |text| && Matches(u, SocialSecurity(u), text, i, j) {
      x := MatchHasCharacter(u, SocialSecurity(u), 1, text, i, j);
    } else if i: nat, j: nat :| i <= j <= |text| && Matches(u, CreditCard(u), text, i, j) {
      x := MatchHasCharacter(u, CreditCard(u), 1, text, i, j);
    } else if i: nat, j: nat :| i <= j <= |text| && Matches(u, Phone(u), text, i, j) {
      x := MatchHasCharacter(u, Phone(u), 1, text, i, j);
    } else {
      var i: nat, j: nat :| i <= j <= |text| && Matches(u, Email(), text, i, j);
      x := MatchHasCharacter(u, Email(), 2, text, i, j);
    }
  }

  /** What stands for removed data is never taken for personal data. */
  lemma RedactedIsClean(u: Unicode)
    requires u.IsPython()
    ensures !ContainsPii(u, "[REDACTED]")
  {
    if ContainsPii(u, "[REDACTED]") {
      var x := PiiShows(u, "[REDACTED]");
      assert false;
    }
  }

  // ---- What the expressions for personal data mean ----

  /** Between i and j stand groups of digits of the given lengths, with a gap after each
      but the last. */
  predicate IsGrouped(u: Unicode, lengths: seq<nat>, gap: Item, s: string, i: nat, j: nat)
    requires i <= j <= |s| && lengths != []
    decreases |lengths|
  {
    var k := i + lengths[0];
    && k <= j && (forall x | i <= x < k :: u.digit(s[x]))
    && if |lengths| == 1 then k == j
       else exists m | k <= m <= j :: ItemMatches(u, gap, s, k, m) && IsGrouped(u, lengths[1..], gap, s, m, j)
  }

  /** Such a number stands somewhere in the text, neither preceded nor followed by a word
      character. */
  predicate HasNumber(u: Unicode, lengths: seq<nat>, gap: Item, text: string)
    requires lengths != []
  {
    exists i: nat, j: nat | i <= j <= |text| ::
      IsGrouped(u, lengths, gap, text, i, j) && !IsWordAt(u, text, i - 1) && !IsWordAt(u, text, j)
  }

  function Number(u: Unicode, lengths: seq<nat>, gap: Item): Pattern
    requires lengths != []
  {
    if |lengths| == 1 then [Exactly(lengths[0], u.digit)]
    else [Exactly(lengths[0], u.digit), gap] + Number(u, lengths[1..], gap)
  }

  lemma ExactlyMatches(u: Unicode, n: nat, within: char -> bool, rest: Pattern, s: string, i: nat, j: nat)
    requires i <= j <= |s|
    ensures Matches(u, [Exactly(n, within)] + rest, s, i, j) <==>
              i + n <= j && (forall x | i <= x < i + n :: within(s[x])) && Matches(u, rest, s, i + n, j)
  {
    var p := [Exactly(n, within)] + rest;
    assert p[0] == Exactly(n, within) && p[1..] == rest;
    if i + n <= j && (forall x | i <= x < i + n :: within(s[x])) {
      assert ItemMatches(u, p[0], s, i, i + n);
    }
  }

  lemma {:induction false} NumberMatches(u: Unicode, lengths: seq<nat>, gap: Item, s: string, i: nat, j: nat)
    requires i <= j <= |s| && lengths != []
    ensures Matches(u, Number(u, lengths, gap), s, i, j) <==> IsGrouped(u, lengths, gap, s, i, j)
    decreases |lengths|
  {
    if |lengths| == 1 {
      ExactlyMatches(u, lengths[0], u.digit, [], s, i, j);
      assert Number(u, lengths, gap) == [Exactly(lengths[0], u.digit)] + [];
    } else {
      var rest := [gap] + Number(u, lengths[1..], gap);
      assert Number(u, lengths, gap) == [Exactly(lengths[0], u.digit)] + rest;
      ExactlyMatches(u, lengths[0], u.digit, rest, s, i, j);
      assert rest[0] == gap && rest[1..] == Number(u, lengths[1..], gap);
      forall m | i <= m <= j {
        NumberMatches(u, lengths[1..], gap, s, m, j);
      }
    }
  }

  lemma {:induction false} NumberEndsInDigits(u: Unicode, lengths: seq<nat>, gap: Item, s: string, i: nat, j: nat)
    requires i <= j <= |s| && lengths != [] && (forall k | 0 <= k < |lengths| :: lengths[k] > 0)
    requires IsGrouped(u, lengths, gap, s, i, j)
    ensures i < j && u.digit(s[i]) && u.digit(s[j - 1])
    decreases |lengths|
  {
    if |lengths| > 1 {
      var m :| i + lengths[0] <= m <= j && IsGrouped(u, lengths[1..], gap, s, m, j);
      NumberEndsInDigits(u, lengths[1..], gap, s, m, j);
    }
  }

  lemma BoundedMatches(u: Unicode, p: Pattern, s: string, i: nat, j: nat)
    requires i <= j <= |s|
    ensures Matches(u, [WordBoundary] + p + [WordBoundary], s, i, j) <==>
              && Matches(u, p, s, i, j)
              && IsWordAt(u, s, i - 1) != IsWordAt(u, s, i)
              && IsWordAt(u, s, j - 1) != IsWordAt(u, s, j)
  {
    hide Matches;
    if Matches(u, [WordBoundary] + p + [WordBoundary], s, i, j) {
      var m, n := MatchesPart(u, [WordBoundary], p, [WordBoundary], s, i, j);
      MatchesOne(u, WordBoundary, s, i, m);
      MatchesOne(u, WordBoundary, s, n, j);
    }
    MatchesOne(u, WordBoundary, s, i, i);
    MatchesOne(u, WordBoundary, s, j, j);
    if Matches(u, p, s, i, j) && Matches(u, [WordBoundary], s, i, i) && Matches(u, [WordBoundary], s, j, j) {
      MatchesJoin(u, [WordBoundary], p, [WordBoundary], s, i, i, j, j);
    }
  }

  lemma NumberFoundIff(u: Unicode, lengths: seq<nat>, gap: Item, text: string)
    requires u.IsPython() && lengths != [] && (forall k | 0 <= k < |lengths| :: lengths[k] > 0)
    ensures Search(u, [WordBoundary] + Number(u, lengths, gap) + [WordBoundary], text) <==> HasNumber(u, lengths, gap, text)
  {
    hide Matches, IsGrouped;
    forall i: nat, j: nat | i <= j <= |text|
      ensures Matches(u, [WordBoundary] + Number(u, lengths, gap) + [WordBoundary], text, i, j) <==>
                IsGrouped(u, lengths, gap, text, i, j) && !IsWordAt(u, text, i - 1) && !IsWordAt(u, text, j)
    {
      BoundedMatches(u, Number(u, lengths, gap), text, i, j);
      NumberMatches(u, lengths, gap, text, i, j);
      if IsGrouped(u, lengths, gap, text, i, j) {
        NumberEndsInDigits(u, lengths, gap, text, i, j);
      }
    }
  }

  /** An address from i to j, with its at sign and the dot before its last part. */
  predicate IsAddress(u: Unicode, s: string, i: nat, at: nat, dot: nat, j: nat)
    requires i < at && at + 1 < dot && dot + 2 < j <= |s|
  {
    && s[at] == '@' && s[dot] == '.'
    && (forall x | i <= x < at :: IsLocal(s[x]))
    && (forall x | at < x < dot :: IsDomain(s[x]))
    && (forall x | dot < x < j :: IsTop(s[x]))
    && IsWordAt(u, s, i - 1) != IsWordAt(u, s, i)
    && IsWordAt(u, s, j - 1) != IsWordAt(u, s, j)
  }

  predicate HasAddress(u: Unicode, s: string) {
    exists i: nat, at: nat, dot: nat, j: nat | i < at && at + 1 < dot && dot + 2 < j <= |s| ::
      IsAddress(u, s, i, at, dot, j)
  }

  /** The places where the items of an address meet. */
  predicate AddressItems(u: Unicode, s: string, cuts: seq<nat>)
    requires |cuts| == 8
    requires forall k | 0 <= k < 8 :: cuts[k] <= |s|
    requires forall k | 0 <= k < 7 :: cuts[k] <= cuts[k + 1]
  {
    var p := Email();
    && ItemMatches(u, p[0], s, cuts[0], cuts[1]) && ItemMatches(u, p[1], s, cuts[1], cuts[2])
    && ItemMatches(u, p[2], s, cuts[2], cuts[3]) && ItemMatches(u, p[3], s, cuts[3], cuts[4])
    && ItemMatches(u, p[4], s, cuts[4], cuts[5]) && ItemMatches(u, p[5], s, cuts[5], cuts[6])
    && ItemMatches(u, p[6], s, cuts[6], cuts[7])
  }

  lemma AddressFound(u: Unicode, s: string, cuts: seq<nat>)
    requires |cuts| == 8
    requires forall k | 0 <= k < 8 :: cuts[k] <= |s|
    requires forall k | 0 <= k < 7 :: cuts[k] <= cuts[k + 1]
    requires AddressItems(u, s, cuts)
    ensures HasAddress(u, s)
  {
    var i, at, dot, j := cuts[1], cuts[2], cuts[4], cuts[6];
    assert IsAddress(u, s, i, at, dot, j);
  }

  lemma AddressHasItems(u: Unicode, s: string, i: nat, at: nat, dot: nat, j: nat)
    requires i < at && at + 1 < dot && dot + 2 < j <= |s| && IsAddress(u, s, i, at, dot, j)
    ensures AddressItems(u, s, [i, i, at, at + 1, dot, dot + 1, j, j])
  {
    assert ItemMatches(u, WordBoundary, s, i, i) && ItemMatches(u, Run(IsLocal, 1, None), s, i, at);
    assert ItemMatches(u, Literal('@'), s, at, at + 1) && ItemMatches(u, Run(IsDomain, 1, None), s, at + 1, dot);
    assert ItemMatches(u, Literal('.'), s, dot, dot + 1) && ItemMatches(u, Run(IsTop, 2, None), s, dot + 1, j);
    assert ItemMatches(u, WordBoundary, s, j, j);
    hide ItemMatches, IsAddress, Literal;
  }

  lemma AddressIsFound(u: Unicode, text: string, i: nat, at: nat, dot: nat, j: nat)
    requires i < at && at + 1 < dot && dot + 2 < j <= |text| && IsAddress(u, text, i, at, dot, j)
    ensures Search(u, Email(), text)
  {
    var p, cuts := Email(), [i, i, at, at + 1, dot, dot + 1, j, j];
    assert |p| == 7;
    hide IsAddress, Email, ItemMatches, Matches;
    AddressHasItems(u, text, i, at, dot, j);
    MatchesAlong(u, p, text, cuts);
    SearchIf(u, p, text, cuts[0], cuts[7]);
  }

  lemma SearchIf(u: Unicode, p: Pattern, s: string, i: nat, j: nat)
    requires i <= j <= |s| && Matches(u, p, s, i, j)
    ensures Search(u, p, s)
  {
    hide Matches;
  }

  lemma EmailFoundIff(u: Unicode, text: string)
    ensures Search(u, Email(), text) <==> HasAddress(u, text)
  {
    hide Matches, IsAddress;
    if i: nat, j: nat :| i <= j <= |text| && Matches(u, Email(), text, i, j) {
      var cuts := MatchHasCuts(u, Email(), text, i, j);
      assert AddressItems(u, text, cuts) by { hide ItemMatches; }
      AddressFound(u, text, cuts);
    }
    if i: nat, at: nat, dot: nat, j: nat :|
      i < at && at + 1 < dot && dot + 2 < j <= |text| && IsAddress(u, text, i, at, dot, j)
    {
      AddressIsFound(u, text, i, at, dot, j);
    }
  }

  lemma NumberUnfolds(u: Unicode, gap: Item, a: nat, b: nat, c: nat)
    ensures Number(u, [a, b, c], gap) == [Exactly(a, u.digit), gap, Exactly(b, u.digit), gap, Exactly(c, u.digit)]
  {
    assert Number(u, [c], gap) == [Exactly(c, u.digit)];
    assert [b, c][1..] == [c];
    assert Number(u, [b, c], gap) == [Exactly(b, u.digit), gap, Exactly(c, u.digit)];
    assert [a, b, c][1..] == [b, c];
  }

  /** Without regular expressions: text shows personal data exactly when it has, between
      word boundaries, digits grouped 3-2-4 with dashes, or grouped 4-4-4-4 or 3-3-4 with
      at most one separator between groups, or an address. */
  lemma PiiIff(u: Unicode, text: string)
    requires u.IsPython()
    ensures ContainsPii(u, text) <==>
              || HasNumber(u, [3, 2, 4], Literal('-'), text)
              || HasNumber(u, [4, 4, 4, 4], Gap(u), text)
              || HasNumber(u, [3, 3, 4], Gap(u), text)
              || HasAddress(u, text)
  {
    hide Search, HasNumber, HasAddress, Gap, Literal;
    NumberFoundIff(u, [3, 2, 4], Literal('-'), text);
    NumberFoundIff(u, [4, 4, 4, 4], Gap(u), text);
    NumberFoundIff(u, [3, 3, 4], Gap(u), text);
    EmailFoundIff(u, text);
    NumberUnfolds(u, Literal('-'), 3, 2, 4);
    assert SocialSecurity(u) == [WordBoundary] + Number(u, [3, 2, 4], Literal('-')) + [WordBoundary];
    NumberUnfolds(u, Gap(u), 4, 4, 4);
    assert [4, 4, 4, 4][1..] == [4, 4, 4];
    assert CreditCard(u) == [WordBoundary] + Number(u, [4, 4, 4, 4], Gap(u)) + [WordBoundary];
    NumberUnfolds(u, Gap(u), 3, 3, 4);
    assert Phone(u) == [WordBoundary] + Number(u, [3, 3, 4], Gap(u)) + [WordBoundary];
  }

  lemma LastGroup(u: Unicode, n: nat, gap: Item, s: string, i: nat, j: nat)
    requires i <= j <= |s| && j == i + n && forall x | i <= x < j :: u.digit(s[x])
    ensures IsGrouped(u, [n], gap, s, i, j)
  {
  }

  lemma NextGroup(u: Unicode, n: nat, rest: seq<nat>, gap: Item, s: string, i: nat, m: nat, j: nat)
    requires rest != [] && i + n <= m <= j <= |s| && forall x | i <= x < i + n :: u.digit(s[x])
    requires ItemMatches(u, gap, s, i + n, m) && IsGrouped(u, rest, gap, s, m, j)
    ensures IsGrouped(u, [n] + rest, gap, s, i, j)
  {
    assert ([n] + rest)[1..] == rest;
    hide ItemMatches;
  }

  lemma NumberIsPii(u: Unicode)
    requires u.IsPython()
    ensures ContainsPii(u, "123-45-6789")
  {
    var text, gap := "123-45-6789", Literal('-');
    assert ItemMatches(u, gap, text, 6, 7) && ItemMatches(u, gap, text, 3, 4);
    assert !IsWordAt(u, text, -1) && !IsWordAt(u, text, 11);
    hide ContainsPii, IsGrouped, HasAddress, Gap, ItemMatches, Literal, IsWordAt;
    LastGroup(u, 4, gap, text, 7, 11);
    NextGroup(u, 2, [4], gap, text, 4, 7, 11);
    NextGroup(u, 3, [2] + [4], gap, text, 0, 4, 11);
    assert [3] + ([2] + [4]) == [3, 2, 4];
    assert HasNumber(u, [3, 2, 4], gap, text);
    hide HasNumber;
    PiiIff(u, text);
  }
}
