/** The bracket validator and action compiler `program_has_matching_brackets`:
    one left-to-right scan that tracks the line and column of every character,
    keeps a stack of the positions of open `[`, and collects the recognised
    actions. Its specification is given by pure functions of the first `n`
    characters of the program: the bracket depth, the line and column
    counters, and the filtered action sequence. */
module Brackets {
  import opened Tokens

  datatype Option<T> = None | Some(value: T)

  /** A 1-based line and a 1-based column, as the diagnostics print them. */
  datatype Position = Position(line: nat, column: nat)

  /** The outcome of validation. The source returns `None` after printing one
      of the two diagnostics; here the diagnostic is the returned value. */
  datatype Outcome =
    | UnmatchedClose(at: Position)
    | UnmatchedOpen(at: Position)
    | Ok(actions: seq<Action>)

  // ---------------------------------------------------------------------
  // Bracket depth

  function Delta(c: char): int {
    if c == '[' then 1 else if c == ']' then -1 else 0
  }

  /** The number of `[` minus the number of `]` among the first `n`
      characters of `s`. */
  function Depth(s: seq<char>, n: nat): int
    requires n <= |s|
  {
    if n == 0 then 0 else Depth(s, n - 1) + Delta(s[n - 1])
  }

  /** No prefix of the first `n` characters of `s` closes more brackets than
      it opened. */
  ghost predicate NonNegativeUpTo(s: seq<char>, n: nat)
    requires n <= |s|
  {
    forall k :: 0 <= k <= n ==> Depth(s, k) >= 0
  }

  /** The brackets of `s` balance. */
  ghost predicate Balanced(s: seq<char>) {
    NonNegativeUpTo(s, |s|) && Depth(s, |s|) == 0
  }

  /** The index of the first `]` among the first `n` characters of `s` that
      takes the running depth below zero. */
  function FirstUnmatchedClose(s: seq<char>, n: nat): (r: Option<nat>)
    requires n <= |s|
    ensures r.Some? ==>
      r.value < n && s[r.value] == ']' &&
      Depth(s, r.value) == 0 && Depth(s, r.value + 1) < 0 &&
      NonNegativeUpTo(s, r.value)
    ensures r.None? <==> NonNegativeUpTo(s, n)
  {
    if n == 0 then None
    else
      match FirstUnmatchedClose(s, n - 1)
      case Some(i) => Some(i)
      case None => if Depth(s, n) < 0 then Some(n - 1) else None
  }

  /** The last index `j < n` such that the first `j` characters of `s` have
      depth below `d`. */
  function LastBelow(s: seq<char>, n: nat, d: int): (j: nat)
    requires 0 < n <= |s| && d > 0
    requires Depth(s, 0) < d
    ensures j < n && Depth(s, j) < d
    ensures forall k :: j < k < n ==> Depth(s, k) >= d
  {
    if Depth(s, n - 1) < d then n - 1 else LastBelow(s, n - 1, d)
  }

  /** The innermost `[` still open at the end of `s`: the `[` after which the
      depth never returns to what it was before it. */
  function InnermostOpen(s: seq<char>): (j: nat)
    requires Depth(s, |s|) > 0
    ensures j < |s| && s[j] == '['
    ensures Depth(s, j) == Depth(s, |s|) - 1
    ensures forall k :: j < k <= |s| ==> Depth(s, k) >= Depth(s, |s|)
  {
    var j := LastBelow(s, |s|, Depth(s, |s|));
    assert Depth(s, j + 1) == Depth(s, j) + Delta(s[j]);
    j
  }

  // ---------------------------------------------------------------------
  // Line and column bookkeeping

  /** The number of newline characters among the first `n` characters. */
  function NewlineCount(s: seq<char>, n: nat): nat
    requires n <= |s|
  {
    if n == 0 then 0
    else NewlineCount(s, n - 1) + (if IsNewline(s[n - 1]) then 1 else 0)
  }

  /** The column counter after scanning the first `n` characters: it restarts
      at 1 on a newline character and advances by one on every character,
      recognised or not. */
  function ColumnAfter(s: seq<char>, n: nat): nat
    requires n <= |s|
  {
    if n == 0 then 0
    else if IsNewline(s[n - 1]) then 1
    else ColumnAfter(s, n - 1) + 1
  }

  /** The position reported for the character at index `i`. */
  function PositionOf(s: seq<char>, i: nat): Position
    requires i < |s|
  {
    Position(1 + NewlineCount(s, i + 1), ColumnAfter(s, i + 1))
  }

  // ---------------------------------------------------------------------
  // The collected actions

  /** What one character contributes to the action list: its action, or
      nothing for a comment. */
  function Emitted(c: char): seq<Action>
  {
    var a := Tokenize(c);
    if a == NoOp then [] else [a]
  }

  /** The tokenized first `n` characters of `s`, in order, with every `NoOp`
      dropped. */
  function Filtered(s: seq<char>, n: nat): seq<Action>
    requires n <= |s|
  {
    if n == 0 then [] else Filtered(s, n - 1) + Emitted(s[n - 1])
  }

  // ---------------------------------------------------------------------
  // The specification of the validator

  /** What validation of `s` yields: the first unmatched `]` if there is one,
      otherwise the innermost unmatched `[` if any bracket is left open,
      otherwise the filtered actions. */
  function Expected(s: seq<char>): Outcome {
    match FirstUnmatchedClose(s, |s|)
    case Some(i) => UnmatchedClose(PositionOf(s, i))
    case None =>
      if Depth(s, |s|) > 0 then UnmatchedOpen(PositionOf(s, InnermostOpen(s)))
      else Ok(Filtered(s, |s|))
  }

  // ---------------------------------------------------------------------
  // The validator

  method ProgramHasMatchingBrackets(prog: seq<char>) returns (r: Outcome)
    ensures r == Expected(prog)
  {
    var line: nat, column: nat := 1, 0;
    var stack: seq<Position> := [];
    var actions: seq<Action> := [];
    for i := 0 to |prog|
      invariant line == 1 + NewlineCount(prog, i)
      invariant column == ColumnAfter(prog, i)
      invariant actions == Filtered(prog, i)
      invariant FirstUnmatchedClose(prog, i) == None
      invariant stack == OpenPositions(prog, i)
    {
      var c := prog[i];
      OpenPositionsDepth(prog, i);
      TokenizeBrackets(c);
      if IsNewline(c) {
        line := line + 1;
        column := 0;
      }
      var action := Tokenize(c);
      column := column + 1;
      if action == NoOp {
        continue;
      }
      if action == CondJumpPast {
        stack := stack + [Position(line, column)];
      }
      if action == CondJumpBack {
        if stack == [] {
          ExpectedOnClose(prog, i);
          r := UnmatchedClose(Position(line, column));
          return;
        }
        stack := stack[..|stack| - 1];
      }
      actions := actions + [action];
    }
    ExpectedAtEnd(prog);
    if |stack| > 0 {
      // The source walks the remaining stack from the top but returns on
      // the first entry it reports, so only the innermost bracket is reported.
      r := UnmatchedOpen(stack[|stack| - 1]);
      return;
    }
    r := Ok(actions);
  }

  // ---------------------------------------------------------------------
  // The stack of open brackets

  /** The validator's stack after the first `n` characters: the position of
      each `[` is pushed, and each `]` pops one if there is one. */
  ghost function OpenPositions(s: seq<char>, n: nat): seq<Position>
    requires n <= |s|
  {
    if n == 0 then []
    else
      var st := OpenPositions(s, n - 1);
      if s[n - 1] == '[' then st + [PositionOf(s, n - 1)]
      else if s[n - 1] == ']' && st != [] then st[..|st| - 1]
      else st
  }

  /** The validator's stack holds the positions of the brackets that
      `OpenIndices` names, in the same order. */
  lemma {:induction false} OpenPositionsOfIndices(s: seq<char>, n: nat)
    requires n <= |s|
    ensures var st, opens := OpenPositions(s, n), OpenIndices(s, n);
      |st| == |opens| &&
      forall d :: 0 <= d < |opens| ==> st[d] == PositionOf(s, opens[d])
  {
    if n > 0 {
      OpenPositionsOfIndices(s, n - 1);
    }
  }

  lemma {:induction false} OpenPositionsDepth(s: seq<char>, n: nat)
    requires n <= |s| && FirstUnmatchedClose(s, n) == None
    ensures |OpenPositions(s, n)| == Depth(s, n)
  {
    OpenIndicesSound(s, n);
    OpenPositionsOfIndices(s, n);
  }

  /** `opens` holds, bottom to top, the indices of the `[` still open after
      the first `n` characters of `s`: the one at height `d` was scanned at
      depth `d`, and the depth has stayed above `d` ever since. */
  ghost predicate OpenStack(s: seq<char>, n: nat, opens: seq<nat>)
    requires n <= |s|
  {
    |opens| == Depth(s, n) &&
    forall d :: 0 <= d < |opens| ==>
      opens[d] < n && Depth(s, opens[d]) == d &&
      forall k :: opens[d] < k <= n ==> Depth(s, k) > d
  }

  /** The stack after the character at index `i`: pushed on `[`, popped on
      `]`. */
  ghost function NextOpens(s: seq<char>, i: nat, opens: seq<nat>): seq<nat>
    requires i < |s|
  {
    if s[i] == '[' then opens + [i]
    else if s[i] == ']' && opens != [] then opens[..|opens| - 1]
    else opens
  }

  /** The indices of the `[` still open after the first `n` characters,
      bottom to top, as the validator's stack holds their positions. */
  ghost function OpenIndices(s: seq<char>, n: nat): (r: seq<nat>)
    requires n <= |s|
    ensures forall d :: 0 <= d < |r| ==> r[d] < n
  {
    if n == 0 then [] else NextOpens(s, n - 1, OpenIndices(s, n - 1))
  }

  /** One step of the scan keeps `OpenStack`, unless it meets a `]` with no
      open `[` left. */
  lemma {:induction false} OpenStackStep(s: seq<char>, i: nat, opens: seq<nat>)
    requires i < |s| && NonNegativeUpTo(s, i) && OpenStack(s, i, opens)
    ensures Depth(s, i + 1) >= 0 ==> OpenStack(s, i + 1, NextOpens(s, i, opens))
  {
    var next := NextOpens(s, i, opens);
    if Depth(s, i + 1) >= 0 {
      assert |next| == Depth(s, i + 1);
      forall d | 0 <= d < |next|
        ensures next[d] < i + 1 && Depth(s, next[d]) == d
        ensures forall k :: next[d] < k <= i + 1 ==> Depth(s, k) > d
      {
        if d < |opens| {
          assert next[d] == opens[d];
        }
      }
    }
  }

  lemma {:induction false} OpenIndicesSound(s: seq<char>, n: nat)
    requires n <= |s| && NonNegativeUpTo(s, n)
    ensures OpenStack(s, n, OpenIndices(s, n))
  {
    if n > 0 {
      OpenIndicesSound(s, n - 1);
      OpenStackStep(s, n - 1, OpenIndices(s, n - 1));
    }
  }

  // ---------------------------------------------------------------------
  // The two ways the scan ends

  /** The first `]` that takes the running depth below zero is the one
      `FirstUnmatchedClose` names. */
  lemma {:induction false} FirstUnmatchedCloseAt(s: seq<char>, i: nat)
    requires i < |s| && Depth(s, i + 1) < 0 && NonNegativeUpTo(s, i)
    ensures FirstUnmatchedClose(s, |s|) == Some(i)
  {
  }

  lemma {:induction false} ExpectedOnClose(s: seq<char>, i: nat)
    requires i < |s| && Depth(s, i + 1) < 0 && NonNegativeUpTo(s, i)
    ensures Expected(s) == UnmatchedClose(PositionOf(s, i))
  {
    FirstUnmatchedCloseAt(s, i);
  }

  lemma {:induction false} ExpectedAtEnd(s: seq<char>)
    requires FirstUnmatchedClose(s, |s|) == None
    ensures var st := OpenPositions(s, |s|);
      (st != [] ==> Expected(s) == UnmatchedOpen(st[|st| - 1])) &&
      (st == [] ==> Expected(s) == Ok(Filtered(s, |s|)))
  {
    OpenIndicesSound(s, |s|);
    OpenPositionsOfIndices(s, |s|);
  }
}
