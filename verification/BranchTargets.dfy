/** How the JIT's compile loop notices branch targets, where its register cache must start
    again from memory. */
module BranchTargets {
  import opened Bytecode

  /** Before the first target, and when there is none left. */
  const NO_TARGET: U32 := 0xffff_ffff

  predicate IsAfter(target: U32, prev: U32) {
    prev == NO_TARGET || target > prev
  }

  /** getNextBranchTarget: the least target after `prev`. */
  method GetNextBranchTarget(targets: seq<U32>, prev: U32) returns (mint: U32)
    ensures mint != NO_TARGET ==> mint in targets && IsAfter(mint, prev)
    ensures forall t :: t in targets && IsAfter(t, prev) ==> mint <= t
  {
    mint := NO_TARGET;
    for i := 0 to |targets|
      invariant mint != NO_TARGET ==> mint in targets && IsAfter(mint, prev)
      invariant forall k :: 0 <= k < i && IsAfter(targets[k], prev) ==> mint <= targets[k]
    {
      if (prev == NO_TARGET || targets[i] > prev) && targets[i] < mint {
        mint := targets[i];
      }
    }
  }

  const MAX_TARGETS: nat := 32

  /** The targets of the branches, in the order of the code. */
  function TargetsOf(code: seq<Instruction>): (r: seq<U32>)
    ensures |r| <= |code|
  {
    if code == [] then []
    else
      var n := |code| - 1;
      TargetsOf(code[..n]) + if IsBranchOp(code[n].opcode) then [Combine(code[n].arg2, code[n].arg3)] else []
  }

  lemma {:induction false} TargetsAreBranchedTo(code: seq<Instruction>, target: U32)
    ensures target in TargetsOf(code) <==> exists k :: 0 <= k < |code| && BranchesTo(code[k], target)
  {
    if code != [] {
      var n := |code| - 1;
      TargetsAreBranchedTo(code[..n], target);
      assert forall k :: 0 <= k < n ==> code[..n][k] == code[k];
      if target in TargetsOf(code[..n]) {
        var k :| 0 <= k < n && BranchesTo(code[..n][k], target);
        assert BranchesTo(code[k], target);
      } else if IsBranchOp(code[n].opcode) && Combine(code[n].arg2, code[n].arg3) == target {
        assert BranchesTo(code[n], target);
      }
    }
  }

  lemma {:induction false} TargetsGrow(code: seq<Instruction>, k: nat)
    requires k <= |code|
    ensures |TargetsOf(code[..k])| <= |TargetsOf(code)|
    decreases |code|
  {
    if k < |code| {
      var n := |code| - 1;
      assert code[..n][..k] == code[..k];
      TargetsGrow(code[..n], k);
    } else {
      assert code[..k] == code;
    }
  }

  /** The targets go into an array of 32, and its end is not looked at: with more branches than
      that the collecting leaves it, and nothing is known of what follows. */
  method CollectTargets(code: seq<Instruction>) returns (fits: bool, targets: array<U32>, count: nat)
    ensures fresh(targets) && targets.Length == MAX_TARGETS
    ensures fits <==> |TargetsOf(code)| <= MAX_TARGETS
    ensures fits ==> count == |TargetsOf(code)| && targets[..count] == TargetsOf(code)
  {
    targets := new U32[MAX_TARGETS](_ => 0);
    count := 0;
    for i := 0 to |code|
      invariant count == |TargetsOf(code[..i])| <= MAX_TARGETS && targets[..count] == TargetsOf(code[..i])
    {
      assert code[..i + 1][..i] == code[..i];
      if IsBranchOp(code[i].opcode) {
        if count == MAX_TARGETS {
          TargetsGrow(code, i + 1);
          return false, targets, count;
        }
        targets[count] := Combine(code[i].arg2, code[i].arg3);
        count := count + 1;
      }
    }
    assert code[..|code|] == code;
    fits := true;
  }

  /** The compile loop stops to evict at exactly the instructions, or the end of the code, that
      some branch goes to, however the branches are ordered and repeated. */
  method EvictionPoints(code: seq<Instruction>) returns (fits: bool, evicts: seq<bool>)
    requires |code| < NO_TARGET
    ensures fits <==> |TargetsOf(code)| <= MAX_TARGETS
    ensures fits ==> |evicts| == |code| + 1 && forall i :: 0 <= i <= |code| ==>
                       (evicts[i] <==> exists k :: 0 <= k < |code| && BranchesTo(code[k], i))
  {
    evicts := [];
    var collected, count;
    fits, collected, count := CollectTargets(code);
    if !fits {
      return;
    }
    var targets := collected[..count];
    var next := GetNextBranchTarget(targets, NO_TARGET);
    var cur := 0;
    while cur <= |code|
      invariant cur <= |code| + 1 && |evicts| == cur
      invariant forall i: U32 :: 0 <= i < cur ==> (evicts[i] <==> i in targets)
      invariant next == NO_TARGET || (next in targets && next >= cur)
      invariant forall t :: t in targets && t >= cur ==> next <= t
    {
      evicts := evicts + [cur == next];
      if cur == next {
        next := GetNextBranchTarget(targets, next);
      }
      cur := cur + 1;
    }
    forall i | 0 <= i <= |code| ensures evicts[i] <==> exists k :: 0 <= k < |code| && BranchesTo(code[k], i) {
      TargetsAreBranchedTo(code, i);
    }
  }
}
