/** Exact block replacement: occurrence counting, String.replace and the byte budget (src/proposer.ts).
    Reading the file, the scope check of its path and the UTF-8 length are inputs. */
module Proposer {
  import opened Wrappers

  // ----- String search, split and replace -----

  predicate MatchAt(s: string, block: string, i: nat) {
    i + |block| <= |s| && s[i..i + |block|] == block
  }

  /** String.indexOf from a position. */
  function IndexFrom(s: string, block: string, from: nat): (r: Option<nat>)
    requires from <= |s|
    ensures r.Some? ==> from <= r.value && MatchAt(s, block, r.value)
    ensures r.Some? ==> forall j | from <= j < r.value :: !MatchAt(s, block, j)
    ensures r.None? ==> forall j: nat | from <= j :: !MatchAt(s, block, j)
    decreases |s| - from
  {
    if MatchAt(s, block, from) then Some(from)
    else if from == |s| then None
    else IndexFrom(s, block, from + 1)
  }

  function Index(s: string, block: string): Option<nat> {
    IndexFrom(s, block, 0)
  }

  predicate Includes(s: string, block: string) {
    Index(s, block).Some?
  }

  /** String.split on a nonempty block: matches are taken from the left and do not overlap. */
  function SplitOn(s: string, block: string): (parts: seq<string>)
    requires block != ""
    ensures |parts| >= 1
    decreases |s|
  {
    match Index(s, block)
    case None => [s]
    case Some(i) => [s[..i]] + SplitOn(s[i + |block|..], block)
  }

  /** beforeContent.split(findBlock).length - 1. Splitting on the empty block gives the single characters. */
  function Occurrences(s: string, block: string): int {
    if block == "" then |s| - 1 else |SplitOn(s, block)| - 1
  }

  const SPECIAL: set<char> := {'$', '&', '`', '\''}

  /** The replacement patterns of String.replace with a string pattern. */
  function Expand(replacement: string, before: string, found: string, after: string): string {
    if |replacement| < 2 then replacement
    else if replacement[0] == '$' && replacement[1] in SPECIAL then
      var c := replacement[1];
      (if c == '$' then "$" else if c == '&' then found else if c == '`' then before else after)
      + Expand(replacement[2..], before, found, after)
    else [replacement[0]] + Expand(replacement[1..], before, found, after)
  }

  function ReplaceFirst(s: string, block: string, replacement: string): string {
    match Index(s, block)
    case None => s
    case Some(i) =>
      s[..i] + Expand(replacement, s[..i], block, s[i + |block|..]) + s[i + |block|..]
  }

  /** No dollar sign starts a replacement pattern. */
  predicate Literal(replacement: string) {
    forall i | 0 <= i < |replacement| - 1 :: !(replacement[i] == '$' && replacement[i + 1] in SPECIAL)
  }

  lemma LiteralTail(replacement: string)
    requires replacement != "" && Literal(replacement)
    ensures Literal(replacement[1..])
  {
  }

  lemma {:induction false} ExpandLiteral(replacement: string, before: string, found: string, after: string)
    requires Literal(replacement)
    ensures Expand(replacement, before, found, after) == replacement
  {
    if |replacement| >= 2 {
      LiteralTail(replacement);
      ExpandLiteral(replacement[1..], before, found, after);
    }
  }

  lemma {:induction false} ExpandShrinks(replacement: string)
    ensures |Expand(replacement, "", "", "")| <= |replacement|
    ensures !Literal(replacement) ==> |Expand(replacement, "", "", "")| < |replacement|
  {
    if |replacement| >= 2 {
      if replacement[0] == '$' && replacement[1] in SPECIAL {
        ExpandShrinks(replacement[2..]);
      } else {
        ExpandShrinks(replacement[1..]);
        if !Literal(replacement) {
          var i :| 0 <= i < |replacement| - 1 && replacement[i] == '$' && replacement[i + 1] in SPECIAL;
          assert replacement[1..][i - 1] == '$' && replacement[1..][i] in SPECIAL;
        }
      }
    }
  }

  /** A replacement is inserted as written, whatever surrounds it, exactly when it holds no replacement pattern. */
  lemma VerbatimIffLiteral(replacement: string)
    ensures (forall before, found, after :: Expand(replacement, before, found, after) == replacement)
       <==> Literal(replacement)
  {
    if Literal(replacement) {
      forall before, found, after ensures Expand(replacement, before, found, after) == replacement {
        ExpandLiteral(replacement, before, found, after);
      }
    } else {
      ExpandShrinks(replacement);
    }
  }

  // ----- The proposal -----

  datatype Scope = Scope(allowModify: bool, pathInScope: bool, maxBytesChanged: int)

  datatype Reason = ModifyNotAllowed | OutsideScope | FileMissing | BlockNotFound | Ambiguous | OverBudget

  datatype Proposal = NoPatch(reason: Reason) | Proposed(beforeContent: string, afterContent: string)

  function Distance(x: nat, y: nat): nat {
    if x < y then y - x else x - y
  }

  function ProposeExactBlockReplacement(file: Option<string>, find: string, replace: string, scope: Scope,
                                        bytes: string -> nat): Proposal
  {
    if !scope.allowModify then NoPatch(ModifyNotAllowed)
    else if !scope.pathInScope then NoPatch(OutsideScope)
    else if file.None? then NoPatch(FileMissing)
    else
      var before := file.value;
      var occurrences := Occurrences(before, find);
      if occurrences == 0 then NoPatch(BlockNotFound)
      else if occurrences > 1 then NoPatch(Ambiguous)
      else
        var after := ReplaceFirst(before, find, replace);
        if Distance(bytes(before), bytes(after)) > scope.maxBytesChanged then NoPatch(OverBudget)
        else Proposed(before, after)
  }

  lemma {:induction false} NoMatchNoSplit(s: string, block: string)
    requires block != ""
    ensures |SplitOn(s, block)| == 1 <==> !Includes(s, block)
  {
  }

  /** A proposal changes exactly the first match of the block, within the permissions and the budget. */
  lemma ProposalIsExact(file: Option<string>, find: string, replace: string, scope: Scope, bytes: string -> nat)
    ensures var r := ProposeExactBlockReplacement(file, find, replace, scope, bytes);
            r.Proposed? ==>
              && scope.allowModify && scope.pathInScope && file == Some(r.beforeContent)
              && Distance(bytes(r.beforeContent), bytes(r.afterContent)) <= scope.maxBytesChanged
              && exists i: nat ::
                   && MatchAt(r.beforeContent, find, i)
                   && (forall j: nat | j < i :: !MatchAt(r.beforeContent, find, j))
                   && var p, q := r.beforeContent[..i], r.beforeContent[i + |find|..];
                      && r.beforeContent == p + find + q
                      && r.afterContent == p + Expand(replace, p, find, q) + q
  {
    var r := ProposeExactBlockReplacement(file, find, replace, scope, bytes);
    if r.Proposed? {
      var s := r.beforeContent;
      if find == "" {
        assert MatchAt(s, find, 0);
      } else {
        NoMatchNoSplit(s, find);
      }
      var i := Index(s, find).value;
      assert s == s[..i] + s[i..i + |find|] + s[i + |find|..];
    }
  }

  // ----- When a block is replaced, and why not -----

  /** The block matches at i and nowhere before. */
  ghost predicate FirstMatch(s: string, block: string, i: nat) {
    MatchAt(s, block, i) && forall j: nat | j < i :: !MatchAt(s, block, j)
  }

  /** The block matches again at or after the end of its match at i. */
  ghost predicate MatchesAgain(s: string, block: string, i: nat) {
    exists j: nat :: j >= i + |block| && MatchAt(s, block, j)
  }

  predicate Permitted(file: Option<string>, scope: Scope) {
    scope.allowModify && scope.pathInScope && file.Some?
  }

  predicate WithinBudget(before: string, after: string, scope: Scope, bytes: string -> nat) {
    && bytes(after) - bytes(before) <= scope.maxBytesChanged
    && bytes(before) - bytes(after) <= scope.maxBytesChanged
  }

  lemma MatchInRest(s: string, block: string, k: nat, j: nat)
    requires k <= |s|
    ensures MatchAt(s[k..], block, j) <==> MatchAt(s, block, k + j)
  {
    if k + j + |block| <= |s| {
      assert s[k..][j..j + |block|] == s[k + j..k + j + |block|];
    }
  }

  lemma MatchesAgainIffRest(s: string, block: string, i: nat)
    requires i + |block| <= |s|
    ensures MatchesAgain(s, block, i) <==> Includes(s[i + |block|..], block)
  {
    hide MatchAt;
    var k := i + |block|;
    var rest := s[k..];
    if Includes(rest, block) {
      MatchInRest(s, block, k, Index(rest, block).value);
    }
    if MatchesAgain(s, block, i) {
      var j: nat :| j >= k && MatchAt(s, block, j);
      MatchInRest(s, block, k, j - k);
    }
  }

  lemma OccurrencesStep(s: string, block: string)
    requires block != ""
    ensures match Index(s, block)
            case None => Occurrences(s, block) == 0
            case Some(i) =>
              && i + |block| <= |s| && Occurrences(s, block) >= 1
              && Occurrences(s, block) == 1 + Occurrences(s[i + |block|..], block)
  {
  }

  /** What counting the occurrences of a block finds out: none, one match from the left, or another after it. */
  lemma OccurrencesMeaning(s: string, block: string)
    requires block != ""
    ensures Occurrences(s, block) >= 0
    ensures Occurrences(s, block) == 0 <==> forall i: nat :: !MatchAt(s, block, i)
    ensures Occurrences(s, block) == 1 <==> exists i: nat :: FirstMatch(s, block, i) && !MatchesAgain(s, block, i)
    ensures Index(s, block).None? <==> Occurrences(s, block) == 0
    ensures Index(s, block).Some? ==> FirstMatch(s, block, Index(s, block).value)
  {
    hide MatchAt, Occurrences, MatchesAgain;
    OccurrencesStep(s, block);
    if Index(s, block).Some? {
      var i := Index(s, block).value;
      OccurrencesStep(s[i + |block|..], block);
      MatchesAgainIffRest(s, block, i);
      assert FirstMatch(s, block, i) && forall k: nat | FirstMatch(s, block, k) :: k == i;
    }
  }

  /** The text with the match at i replaced. */
  function Replaced(s: string, find: string, replace: string, i: nat): string {
    if i + |find| <= |s| then
      s[..i] + Expand(replace, s[..i], find, s[i + |find|..]) + s[i + |find|..]
    else s
  }

  lemma OneFirstMatch(s: string, block: string)
    requires Index(s, block).Some?
    ensures var i := Index(s, block).value;
            && FirstMatch(s, block, i) && (forall k: nat | FirstMatch(s, block, k) :: k == i)
            && forall replace :: ReplaceFirst(s, block, replace) == Replaced(s, block, replace, i)
  {
  }

  /** For a nonempty block: each outcome has its exact condition. The first match is replaced when no other follows it
      and the change fits the budget. */
  lemma ReplacementOutcome(file: Option<string>, find: string, replace: string, scope: Scope, bytes: string -> nat)
    requires find != ""
    ensures var r := ProposeExactBlockReplacement(file, find, replace, scope, bytes);
            && (r == NoPatch(ModifyNotAllowed) <==> !scope.allowModify)
            && (r == NoPatch(OutsideScope) <==> scope.allowModify && !scope.pathInScope)
            && (r == NoPatch(FileMissing) <==> scope.allowModify && scope.pathInScope && file.None?)
            && (r == NoPatch(BlockNotFound) <==>
                  Permitted(file, scope) && forall i: nat :: !MatchAt(file.value, find, i))
            && (r == NoPatch(Ambiguous) <==>
                  && Permitted(file, scope)
                  && exists i: nat :: FirstMatch(file.value, find, i) && MatchesAgain(file.value, find, i))
            && (r == NoPatch(OverBudget) <==>
                  && Permitted(file, scope)
                  && exists i: nat ::
                       && FirstMatch(file.value, find, i) && !MatchesAgain(file.value, find, i)
                       && !WithinBudget(file.value, Replaced(file.value, find, replace, i), scope, bytes))
            && (r.Proposed? <==>
                  && Permitted(file, scope)
                  && exists i: nat ::
                       && FirstMatch(file.value, find, i) && !MatchesAgain(file.value, find, i)
                       && WithinBudget(file.value, Replaced(file.value, find, replace, i), scope, bytes))
            && (r.Proposed? ==>
                  exists i: nat ::
                    && FirstMatch(file.value, find, i)
                    && r == Proposed(file.value, Replaced(file.value, find, replace, i)))
  {
    hide MatchAt, Index, Occurrences, Expand, MatchesAgain;
    if Permitted(file, scope) {
      OccurrencesMeaning(file.value, find);
      if Index(file.value, find).Some? {
        OneFirstMatch(file.value, find);
      }
    }
  }

  /** The empty block is searched for as well: it counts as one occurrence less than the file has characters, so a file
      of two characters has the text put in front, and so has the empty file, where the count is negative. */
  lemma EmptyBlockOutcome(file: Option<string>, replace: string, scope: Scope, bytes: string -> nat)
    requires Permitted(file, scope)
    ensures var r, s := ProposeExactBlockReplacement(file, "", replace, scope, bytes), file.value;
            var after := Expand(replace, "", "", s) + s;
            && (r == NoPatch(BlockNotFound) <==> |s| == 1)
            && (r == NoPatch(Ambiguous) <==> |s| > 2)
            && (r == NoPatch(OverBudget) <==> |s| in {0, 2} && !WithinBudget(s, after, scope, bytes))
            && (r == Proposed(s, after) <==> |s| in {0, 2} && WithinBudget(s, after, scope, bytes))
  {
    var s := file.value;
    assert MatchAt(s, "", 0);
    assert s[..0] == "" && s[0..] == s;
    assert "" + Expand(replace, "", "", s) + s == Expand(replace, "", "", s) + s;
  }

  lemma PatternFirst(rest: string, before: string, found: string, after: string)
    ensures Expand("$$" + rest, before, found, after) == "$" + Expand(rest, before, found, after)
    ensures Expand("$&" + rest, before, found, after) == found + Expand(rest, before, found, after)
    ensures Expand("$`" + rest, before, found, after) == before + Expand(rest, before, found, after)
    ensures Expand("$'" + rest, before, found, after) == after + Expand(rest, before, found, after)
  {
    assert ("$$" + rest)[2..] == rest && ("$&" + rest)[2..] == rest;
    assert ("$`" + rest)[2..] == rest && ("$'" + rest)[2..] == rest;
  }

  lemma ExpandStep(s: string, before: string, found: string, after: string)
    requires s != "" && (s[0] == '$' ==> |s| > 1 && s[1] !in SPECIAL)
    ensures Expand(s, before, found, after) == [s[0]] + Expand(s[1..], before, found, after)
  {
  }

  lemma LiteralHead(head: string, tail: string)
    requires head != "" && Literal(head) && head[|head| - 1] != '$'
    ensures var all := head + tail; all[0] == '$' ==> |all| > 1 && all[1] !in SPECIAL
  {
    if head[0] == '$' { assert !(head[0] == '$' && head[1] in SPECIAL) && (head + tail)[1] == head[1]; }
  }

  lemma {:induction false} ExpandAppend(head: string, tail: string, before: string, found: string, after: string)
    requires Literal(head) && (head != "" ==> head[|head| - 1] != '$')
    ensures Expand(head + tail, before, found, after) == head + Expand(tail, before, found, after)
  {
    hide Expand, Literal;
    var all := head + tail;
    if head == "" {
      assert all == tail;
    } else {
      LiteralTail(head);
      assert all[1..] == head[1..] + tail;
      ExpandAppend(head[1..], tail, before, found, after);
      LiteralHead(head, tail);
      ExpandStep(all, before, found, after);
      assert head == [head[0]] + head[1..];
    }
  }

  /** The replacement patterns, one by one: text up to the next of them goes in as it is, and `$$` is a dollar sign,
      `$&` the match, $ with a grave accent what precedes it, and $ with an apostrophe what follows it. */
  lemma {:induction false} ExpandPieces(plain: string, rest: string, before: string, found: string, after: string)
    requires Literal(plain) && (plain != "" ==> plain[|plain| - 1] != '$')
    ensures Expand(plain, before, found, after) == plain
    ensures Expand(plain + "$$" + rest, before, found, after) == plain + "$" + Expand(rest, before, found, after)
    ensures Expand(plain + "$&" + rest, before, found, after) == plain + found + Expand(rest, before, found, after)
    ensures Expand(plain + "$`" + rest, before, found, after) == plain + before + Expand(rest, before, found, after)
    ensures Expand(plain + "$'" + rest, before, found, after) == plain + after + Expand(rest, before, found, after)
  {
    hide Expand, Literal;
    ExpandLiteral(plain, before, found, after);
    PatternFirst(rest, before, found, after);
    ExpandAppend(plain, "$$" + rest, before, found, after);
    ExpandAppend(plain, "$&" + rest, before, found, after);
    ExpandAppend(plain, "$`" + rest, before, found, after);
    ExpandAppend(plain, "$'" + rest, before, found, after);
    assert plain + "$$" + rest == plain + ("$$" + rest) && plain + "$&" + rest == plain + ("$&" + rest);
    assert plain + "$`" + rest == plain + ("$`" + rest) && plain + "$'" + rest == plain + ("$'" + rest);
    var tail := Expand(rest, before, found, after);
    assert plain + "$" + tail == plain + ("$" + tail) && plain + found + tail == plain + (found + tail);
    assert plain + before + tail == plain + (before + tail) && plain + after + tail == plain + (after + tail);
  }

  // ----- Is one occurrence one match? -----

  /** A proper suffix of the block is also a prefix of it. */
  ghost predicate SelfOverlapping(block: string) {
    exists k :: 0 < k < |block| && block[k..] == block[..|block| - k]
  }

  ghost predicate UniqueMatch(s: string, block: string) {
    exists i: nat :: MatchAt(s, block, i) && forall j: nat | MatchAt(s, block, j) :: j == i
  }

  lemma CloseMatchesOverlap(s: string, block: string, i: nat, k: nat)
    requires 0 < k < |block| && MatchAt(s, block, i) && MatchAt(s, block, i + k)
    ensures SelfOverlapping(block)
  {
    var n := |block|;
    assert block[k..] == s[i..i + n][k..] == s[i + k..i + n];
    assert block[..n - k] == s[i + k..i + k + n][..n - k] == s[i + k..i + n];
  }

  lemma OneOccurrenceUnique(s: string, block: string)
    requires block != "" && !SelfOverlapping(block) && Occurrences(s, block) == 1
    ensures UniqueMatch(s, block)
  {
    hide MatchAt, Occurrences;
    OccurrencesMeaning(s, block);
    var i: nat :| FirstMatch(s, block, i) && !MatchesAgain(s, block, i);
    forall j: nat | MatchAt(s, block, j) ensures j == i {
      if i < j < i + |block| {
        CloseMatchesOverlap(s, block, i, j - i);
      }
    }
  }

  lemma OverlapHidesMatch(block: string, k: nat) returns (s: string)
    requires 0 < k < |block| && block[k..] == block[..|block| - k]
    ensures Occurrences(s, block) == 1 && !UniqueMatch(s, block)
  {
    var n := |block|;
    s := block + block[n - k..];
    assert MatchAt(s, block, 0);
    assert MatchAt(s, block, k) by {
      assert s[k..k + n] == block[k..] + block[n - k..] == block[..n - k] + block[n - k..] == block;
    }
    assert s[..0] == "" && s[0 + n..] == block[n - k..];
    assert Index(s, block) == Some(0);
    var rest := block[n - k..];
    assert forall j: nat :: !MatchAt(rest, block, j);
    NoMatchNoSplit(rest, block);
    assert SplitOn(s, block) == [s[..0]] + SplitOn(rest, block);
  }

  /** Counting one occurrence means one place to replace, in every file, exactly for blocks that do not overlap
      themselves and are not empty: "aa" occurs once in "aaa" by this count, and matches twice; the empty block occurs
      once in "ab", and matches three times. */
  lemma CountIsUniqueIffNoOverlap(block: string)
    ensures (forall s :: Occurrences(s, block) == 1 ==> UniqueMatch(s, block))
       <==> block != "" && !SelfOverlapping(block)
  {
    if block == "" {
      assert Occurrences("ab", block) == 1;
      assert MatchAt("ab", block, 0) && MatchAt("ab", block, 1);
    } else if SelfOverlapping(block) {
      var k :| 0 < k < |block| && block[k..] == block[..|block| - k];
      var s := OverlapHidesMatch(block, k);
    } else {
      forall s | Occurrences(s, block) == 1 ensures UniqueMatch(s, block) {
        OneOccurrenceUnique(s, block);
      }
    }
  }
}
