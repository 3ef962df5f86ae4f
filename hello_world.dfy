/** The program the source ships as its smoke test, and the proof that the
    validator accepts it. */
module HelloWorld {
  import opened Brackets
  import opened BracketProperties

  /** The text before the program's only loop: eleven increments. */
  const Setup: string := "+++++++++++"

  /** The body of the program's only loop, one piece per cell it adds to,
      then the walk back and the decrement of the counter. */
  const LoopBody: string :=
    ">++++++" + ">+++++++++" + ">++++++++" + ">++++" + ">+++" + ">+" + "<<<<<<-"

  /** The text after the loop, over the source's two lines, one piece per
      character it outputs, then the final newline. */
  const Printing: string :=
    ">+++\n+++." + ">++." + "+++++++." + "." + "+++." + ">>." + ">-." + "<<-." +
    "<." + "+++." + "------." + "--------." + ">>>+." + ">-." + "\n"

  /** The "Hello World!" program: one loop between its setup and its output
      code. */
  const HelloWorldProg: string := Setup + "[" + LoopBody + "]" + Printing

  predicate BracketFree(t: string) {
    '[' !in t && ']' !in t
  }

  /** The depth profile of one loop: zero before the `[`, one inside, zero
      after the `]`. */
  lemma {:induction false} SingleLoopDepth(x: string, y: string, z: string, k: nat)
    requires BracketFree(x) && BracketFree(y) && BracketFree(z)
    requires k <= |x + "[" + y + "]" + z|
    ensures Depth(x + "[" + y + "]" + z, k) ==
      if k <= |x| then 0 else if k <= |x| + 1 + |y| then 1 else 0
  {
    var s := x + "[" + y + "]" + z;
    if k > 0 {
      SingleLoopDepth(x, y, z, k - 1);
      var j := k - 1;
      if j < |x| {
        assert s[j] == x[j] && x[j] in x;
      } else if j == |x| {
        assert s[j] == '[';
      } else if j < |x| + 1 + |y| {
        assert s[j] == y[j - |x| - 1] && y[j - |x| - 1] in y;
      } else if j == |x| + 1 + |y| {
        assert s[j] == ']';
      } else {
        assert s[j] == z[j - |x| - 2 - |y|] && z[j - |x| - 2 - |y|] in z;
      }
    }
  }

  lemma {:induction false} SingleLoopBalanced(x: string, y: string, z: string)
    requires BracketFree(x) && BracketFree(y) && BracketFree(z)
    ensures Balanced(x + "[" + y + "]" + z)
  {
    var s := x + "[" + y + "]" + z;
    forall k | 0 <= k <= |s|
      ensures Depth(s, k) >= 0
    {
      SingleLoopDepth(x, y, z, k);
    }
    SingleLoopDepth(x, y, z, |s|);
  }

  /** The validator accepts the shipped program. */
  lemma {:induction false} HelloWorldValidates()
    ensures Expected(HelloWorldProg).Ok?
  {
    assert BracketFree(Setup);
    assert BracketFree(LoopBody);
    assert BracketFree(Printing);
    SingleLoopBalanced(Setup, LoopBody, Printing);
    OkIffBalanced(HelloWorldProg);
  }
}
