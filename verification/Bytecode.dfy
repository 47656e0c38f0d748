/** The LMNT bytecode: machine words, instructions, function definitions. */
module Bytecode {

  type Byte = x: int | 0 <= x < 0x100
  type U16 = x: int | 0 <= x < 0x1_0000
  type U32 = x: int | 0 <= x < 0x1_0000_0000
  type U64 = x: int | 0 <= x < 0x1_0000_0000_0000_0000

  /** A stack value by its bit pattern; what the bits mean is left to the float unit. */
  type Word = U32

  datatype Instruction = Instruction(opcode: U16, arg1: U16, arg2: U16, arg3: U16)

  /** Two 16-bit halves read as one 32-bit offset. */
  function Combine(lo: U16, hi: U16): U32 {
    lo + 0x1_0000 * hi
  }

  const DEFFLAG_INTERFACE: nat := 1
  const DEFFLAG_EXTERN: nat := 2
  const DEFFLAG_HAS_BACKBRANCHES: nat := 4
  const DEFFLAG_HAS_DEFAULT_ARGS: nat := 8

  /** Is the bit of weight `flag` set? */
  predicate Has(flags: U16, flag: nat)
    requires flag > 0
  {
    (flags / flag) % 2 == 1
  }

  datatype Def = Def(name: U16, flags: U16, code: U32, stackCount: U16, argsCount: U16, rvalsCount: U16, defaultArgs: U16)

  const NOOP: U16 := 0
  const RETURN: U16 := 1
  const ASSIGNSS: U16 := 2
  const ASSIGNVV: U16 := 3
  const ASSIGNSV: U16 := 4
  const ASSIGNIBS: U16 := 5
  const ASSIGNIBV: U16 := 6
  const DLOADIIS: U16 := 7
  const DLOADIIV: U16 := 8
  const DLOADIRS: U16 := 9
  const DLOADIRV: U16 := 10
  const DSECLEN: U16 := 11
  const ADDSS: U16 := 12
  const ADDVV: U16 := 13
  const SUBSS: U16 := 14
  const SUBVV: U16 := 15
  const MULSS: U16 := 16
  const MULVV: U16 := 17
  const DIVSS: U16 := 18
  const DIVVV: U16 := 19
  const REMSS: U16 := 20
  const REMVV: U16 := 21
  const SIN: U16 := 22
  const COS: U16 := 23
  const TAN: U16 := 24
  const ASIN: U16 := 25
  const ACOS: U16 := 26
  const ATAN: U16 := 27
  const ATAN2: U16 := 28
  const SINCOS: U16 := 29
  const POWSS: U16 := 30
  const POWVV: U16 := 31
  const POWVS: U16 := 32
  const SQRTS: U16 := 33
  const SQRTV: U16 := 34
  const LN: U16 := 35
  const LOG2: U16 := 36
  const LOG10: U16 := 37
  const ABSS: U16 := 38
  const ABSV: U16 := 39
  const SUMV: U16 := 40
  const MINSS: U16 := 41
  const MINVV: U16 := 42
  const MAXSS: U16 := 43
  const MAXVV: U16 := 44
  const MINVS: U16 := 45
  const MAXVS: U16 := 46
  const FLOORS: U16 := 47
  const FLOORV: U16 := 48
  const ROUNDS: U16 := 49
  const ROUNDV: U16 := 50
  const CEILS: U16 := 51
  const CEILV: U16 := 52
  const TRUNCS: U16 := 53
  const TRUNCV: U16 := 54
  const INDEXRIS: U16 := 55
  const INDEXRIR: U16 := 56
  const BRANCH: U16 := 57
  const BRANCHZ: U16 := 58
  const BRANCHNZ: U16 := 59
  const BRANCHPOS: U16 := 60
  const BRANCHNEG: U16 := 61
  const BRANCHUN: U16 := 62
  const CMP: U16 := 63
  const CMPZ: U16 := 64
  const BRANCHCEQ: U16 := 65
  const BRANCHCNE: U16 := 66
  const BRANCHCLT: U16 := 67
  const BRANCHCLE: U16 := 68
  const BRANCHCGT: U16 := 69
  const BRANCHCGE: U16 := 70
  const BRANCHCUN: U16 := 71
  const ASSIGNCEQ: U16 := 72
  const ASSIGNCNE: U16 := 73
  const ASSIGNCLT: U16 := 74
  const ASSIGNCLE: U16 := 75
  const ASSIGNCGT: U16 := 76
  const ASSIGNCGE: U16 := 77
  const ASSIGNCUN: U16 := 78
  const EXTCALL: U16 := 79
  const END: U16 := 80

  predicate IsBranchOp(op: U16) {
    (BRANCH <= op <= BRANCHUN) || (BRANCHCEQ <= op <= BRANCHCUN)
  }

  predicate BranchesTo(i: Instruction, target: nat) {
    IsBranchOp(i.opcode) && Combine(i.arg2, i.arg3) == target
  }

  /** The flags are the four lowest bits. */
  lemma FlagBits(flags: U16)
    ensures Has(flags, DEFFLAG_INTERFACE) <==> flags % 2 == 1
    ensures Has(flags, DEFFLAG_EXTERN) <==> (flags / 2) % 2 == 1
    ensures Has(flags, DEFFLAG_HAS_BACKBRANCHES) <==> (flags / 4) % 2 == 1
    ensures Has(flags, DEFFLAG_HAS_DEFAULT_ARGS) <==> (flags / 8) % 2 == 1
  {
  }
}
