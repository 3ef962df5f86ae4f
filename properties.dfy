/** What `program_has_matching_brackets` promises, stated about its
    specification `Brackets.Expected` (the validator method is proved equal to
    it): acceptance exactly of balanced programs, order-preserving filtering of
    the actions, the two error reports, and the line and column arithmetic. */
module BracketProperties {
  import opened Tokens
  import opened Brackets

  // ---------------------------------------------------------------------
  // Only the first `n` characters matter

  /** The prefix functions see nothing beyond the first `n` characters. */
  lemma {:induction false} PrefixAgrees(s: seq<char>, t: seq<char>, n: nat)
    requires n <= |s| && n <= |t|
    requires forall j :: 0 <= j < n ==> s[j] == t[j]
    ensures Depth(s, n) == Depth(t, n)
    ensures NewlineCount(s, n) == NewlineCount(t, n)
    ensures ColumnAfter(s, n) == ColumnAfter(t, n)
    ensures Filtered(s, n) == Filtered(t, n)
  {
    if n > 0 {
      PrefixAgrees(s, t, n - 1);
    }
  }

  lemma {:induction false} MultisetStep(s: seq<char>, n: nat)
    requires 0 < n <= |s|
    ensures multiset(s[..n]) == multiset(s[..n - 1]) + multiset{s[n - 1]}
  {
    assert s[..n] == s[..n - 1] + [s[n - 1]];
  }

  // ---------------------------------------------------------------------
  // Depth is the count of `[` minus the count of `]`

  lemma {:induction false} DepthCounts(s: seq<char>, n: nat)
    requires n <= |s|
    ensures Depth(s, n) == multiset(s[..n])['['] as int - multiset(s[..n])[']'] as int
  {
    if n > 0 {
      DepthCounts(s, n - 1);
      MultisetStep(s, n);
    }
  }

  /** No prefix of `s` goes below depth zero exactly when every prefix holds
      at least as many `[` as `]`. */
  lemma {:induction false} PrefixCounts(s: seq<char>)
    ensures NonNegativeUpTo(s, |s|) <==>
      forall k :: 0 <= k <= |s| ==> multiset(s[..k])[']'] <= multiset(s[..k])['[']
  {
    forall k | 0 <= k <= |s| {
      DepthCounts(s, k);
    }
  }

  // ---------------------------------------------------------------------
  // Acceptance

  /** Validation succeeds exactly when every prefix has at least as many `[`
      as `]` and the totals are equal; on success the result is the filtered
      action sequence. */
  lemma {:induction false} OkIffBalanced(s: seq<char>)
    ensures Expected(s).Ok? <==>
      (forall k :: 0 <= k <= |s| ==> multiset(s[..k])[']'] <= multiset(s[..k])['[']) &&
      multiset(s)['['] == multiset(s)[']']
    ensures Expected(s).Ok? <==> Balanced(s)
    ensures Expected(s).Ok? ==> Expected(s).actions == Filtered(s, |s|)
  {
    PrefixCounts(s);
    DepthCounts(s, |s|);
    assert s[..|s|] == s;
  }

  // ---------------------------------------------------------------------
  // Unmatched `]`

  /** The first `]` that takes the running depth below zero is reported with
      its own position, and nothing after it changes the outcome. */
  lemma {:induction false} UnmatchedCloseStopsScan(s: seq<char>, i: nat, rest: seq<char>)
    requires i < |s| && s[i] == ']' && Depth(s, i) == 0 && NonNegativeUpTo(s, i)
    ensures Expected(s) == UnmatchedClose(PositionOf(s, i))
    ensures Expected(s[..i + 1] + rest) == Expected(s)
  {
    ExpectedOnClose(s, i);
    var t := s[..i + 1] + rest;
    forall k | 0 <= k <= i + 1
      ensures Depth(t, k) == Depth(s, k)
    {
      PrefixAgrees(s, t, k);
    }
    PrefixAgrees(s, t, i + 1);
    ExpectedOnClose(t, i);
  }

  /** An unmatched `]` is reported exactly when some prefix has more `]` than
      `[`. */
  lemma {:induction false} UnmatchedCloseIffExcess(s: seq<char>)
    ensures Expected(s).UnmatchedClose? <==>
      exists k :: 0 <= k <= |s| && multiset(s[..k])['['] < multiset(s[..k])[']']
  {
    PrefixCounts(s);
  }

  // ---------------------------------------------------------------------
  // Unmatched `[`

  /** The `[` at index `j` is never closed in `s`. */
  ghost predicate Unclosed(s: seq<char>, j: nat)
    requires j < |s|
  {
    s[j] == '[' && forall k :: j < k <= |s| ==> Depth(s, k) > Depth(s, j)
  }

  /** When brackets remain open, exactly one error is reported: the position
      of the last `[` that is never closed. Every `[` after it is closed. */
  lemma {:induction false} UnmatchedOpenIsInnermost(s: seq<char>)
    ensures Expected(s).UnmatchedOpen? <==> NonNegativeUpTo(s, |s|) && Depth(s, |s|) > 0
    ensures Expected(s).UnmatchedOpen? ==>
      var j := InnermostOpen(s);
      Expected(s).at == PositionOf(s, j) && Unclosed(s, j) &&
      forall j' :: j < j' < |s| ==> !Unclosed(s, j')
  {
    if Expected(s).UnmatchedOpen? {
      var j := InnermostOpen(s);
      forall j' | j < j' < |s| ensures !Unclosed(s, j') {
        assert Depth(s, |s|) <= Depth(s, j');
      }
    }
  }

  // ---------------------------------------------------------------------
  // The collected actions

  lemma {:induction false} AppendAssoc(x: seq<Action>, y: seq<Action>, z: seq<Action>)
    ensures (x + y) + z == x + (y + z)
  {
  }

  lemma {:induction false} FilteredConcat(a: seq<char>, b: seq<char>, k: nat)
    requires k <= |b|
    ensures Filtered(a + b, |a| + k) == Filtered(a, |a|) + Filtered(b, k)
  {
    if k == 0 {
      PrefixAgrees(a, a + b, |a|);
    } else {
      FilteredConcat(a, b, k - 1);
      assert (a + b)[|a| + k - 1] == b[k - 1];
      AppendAssoc(Filtered(a, |a|), Filtered(b, k - 1), Emitted(b[k - 1]));
    }
  }

  /** The actions of two concatenated sources are the actions of each, in
      order. */
  lemma {:induction false} FilteredAppend(a: seq<char>, b: seq<char>)
    ensures Filtered(a + b, |a + b|) == Filtered(a, |a|) + Filtered(b, |b|)
  {
    FilteredConcat(a, b, |b|);
  }

  /** Each action occurs in the filtered sequence as often as its symbol
      occurs in the source. */
  lemma {:induction false} FilteredCounts(s: seq<char>, n: nat, a: Action)
    requires n <= |s| && a != NoOp
    ensures multiset(Filtered(s, n))[a] == multiset(s[..n])[Symbol(a)]
  {
    if n > 0 {
      var c := s[n - 1];
      FilteredCounts(s, n - 1, a);
      MultisetStep(s, n);
      assert multiset(Filtered(s, n)) == multiset(Filtered(s, n - 1)) + multiset(Emitted(c));
      EmittedCount(c, a);
    }
  }

  lemma {:induction false} EmittedCount(c: char, a: Action)
    requires a != NoOp
    ensures multiset(Emitted(c))[a] == multiset{c}[Symbol(a)]
  {
    TokenizeSymbolInverse(a, c);
  }

  /** The number of occurrences of the eight symbols in `m`. */
  function SymbolCount(m: multiset<char>): nat {
    m['>'] + m['<'] + m['+'] + m['-'] + m['.'] + m[','] + m['['] + m[']']
  }

  lemma {:induction false} EmittedLength(c: char)
    ensures |Emitted(c)| == SymbolCount(multiset{c})
  {
    RecognisedCharacters(c);
  }

  /** The length of the filtered sequence is the number of occurrences of the
      eight symbols in the source. */
  lemma {:induction false} FilteredLength(s: seq<char>, n: nat)
    requires n <= |s|
    ensures |Filtered(s, n)| == SymbolCount(multiset(s[..n]))
  {
    if n > 0 {
      var c := s[n - 1];
      FilteredLength(s, n - 1);
      EmittedLength(c);
      MultisetStep(s, n);
    }
  }

  /** Comment characters are skipped: `NoOp` never reaches the action list. */
  lemma {:induction false} FilteredHasNoNoOp(s: seq<char>, n: nat)
    requires n <= |s|
    ensures NoOp !in Filtered(s, n)
  {
    if n > 0 {
      FilteredHasNoNoOp(s, n - 1);
    }
  }

  /** A source made only of comment characters yields no actions. */
  lemma {:induction false} FilteredOfComments(s: seq<char>, n: nat)
    requires n <= |s|
    requires forall i :: 0 <= i < n ==> Tokenize(s[i]) == NoOp
    ensures Filtered(s, n) == []
  {
    if n > 0 {
      FilteredOfComments(s, n - 1);
    }
  }

  // ---------------------------------------------------------------------
  // Line and column of a character

  lemma {:induction false} NewlineCountIsCount(s: seq<char>, n: nat)
    requires n <= |s|
    ensures NewlineCount(s, n) == multiset(s[..n])['\n'] + multiset(s[..n])['\r']
  {
    if n > 0 {
      NewlineCountIsCount(s, n - 1);
      MultisetStep(s, n);
    }
  }

  /** The line of the character at `i` is one more than the number of `\n`
      and `\r` characters up to and including it. */
  lemma {:induction false} LineCountsNewlines(s: seq<char>, i: nat)
    requires i < |s|
    ensures PositionOf(s, i).line == 1 + multiset(s[..i + 1])['\n'] + multiset(s[..i + 1])['\r']
  {
    NewlineCountIsCount(s, i + 1);
  }

  /** A `\r\n` pair moves the line counter on by two. */
  lemma {:induction false} CrLfCountsTwice(s: seq<char>, i: nat)
    requires i + 1 < |s| && s[i] == '\r' && s[i + 1] == '\n'
    ensures PositionOf(s, i + 1).line == 1 + NewlineCount(s, i) + 2
    ensures PositionOf(s, i + 1).column == 1
  {
    assert NewlineCount(s, i + 1) == NewlineCount(s, i) + 1;
  }

  /** After the last newline character at index `k`, the column of the
      character at `i` is its distance from `k`, counting both ends; the
      newline itself is in column 1. */
  lemma {:induction false} ColumnAfterNewline(s: seq<char>, k: nat, i: nat)
    requires k <= i < |s| && IsNewline(s[k])
    requires forall j :: k < j <= i ==> !IsNewline(s[j])
    ensures PositionOf(s, i).column == i - k + 1
  {
    if i > k {
      ColumnAfterNewline(s, k, i - 1);
    }
  }

  /** Before any newline character, the character at `i` is on line 1 in
      column `i + 1`. */
  lemma {:induction false} ColumnOnFirstLine(s: seq<char>, i: nat)
    requires i < |s|
    requires forall j :: 0 <= j <= i ==> !IsNewline(s[j])
    ensures PositionOf(s, i) == Position(1, i + 1)
  {
    assert !IsNewline(s[i]);
    if i > 0 {
      ColumnOnFirstLine(s, i - 1);
      assert NewlineCount(s, i) == 0 && ColumnAfter(s, i) == i;
    } else {
      assert NewlineCount(s, 1) == 0;
      assert ColumnAfter(s, 1) == 1;
    }
  }
}
