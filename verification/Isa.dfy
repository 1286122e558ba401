/** The instruction set of il_streamer.h: opcodes and encoded lengths. */
module Isa {
  import opened Bytes

  const INS_SCTX := 8
  const INS_RCTX := 9
  const INS_OBJCONST := 16
  const INS_OBJNEW := 17
  const INS_OBJPUSH := 25
  const INS_LBL := 62
  const INS_JMP := 70
  const INS_JFALSE := 71
  const INS_JTRUE := 72
  const INS_SWITCH := 74
  const INS_F2O := 96
  const INS_F2O_15 := 111
  const INS_RET := 126
  const INS_CALL := 127
  const INS_SYSCALL0 := 128
  const INS_SYSCALL15 := 143
  const INS_EXTCALL0 := 160
  const INS_EXTCALL15 := 175

  /** SCTX RCTX OBJPUSH OBJPOP OBJSTORE SYSCALLn: one operand byte. */
  predicate TwoByte(op: byte) {
    op == INS_SCTX || op == INS_RCTX || op == INS_OBJPUSH || op == 26 || op == 29 || INS_SYSCALL0 <= op <= INS_SYSCALL15
  }

  /** Instructions with a 16-bit operand. */
  predicate ThreeByte(op: byte) {
    || op == INS_OBJCONST || op == INS_OBJNEW || INS_JMP <= op <= INS_JTRUE || op == INS_SWITCH
    || INS_F2O <= op <= INS_F2O_15 || op == INS_CALL || INS_EXTCALL0 <= op <= INS_EXTCALL15
  }

  /** Bytes the linker's scan (and every pass of the optimizer) advances by at address p. */
  function LengthAt(c: seq<byte>, p: nat): (n: nat)
    requires p < |c|
    ensures 1 <= n
  {
    if c[p] == INS_LBL then (if p + 1 < |c| then c[p + 1] as int else 0) + 2
    else if TwoByte(c[p]) then 2
    else if ThreeByte(c[p]) then 3
    else 1
  }

  /** Opcodes named in the optimizer's switch statements; its loops do not advance on any other. */
  predicate Listed(op: byte) {
    || op == INS_LBL || TwoByte(op)
    || (ThreeByte(op) && !(INS_F2O < op <= INS_F2O_15))
    || op == 18 || op == 19 || op == 22 || op == 23   // OBJDUP OBJDEL OBJSZ OBJSUB
    || 32 <= op <= 36                                   // ADD SUB MUL DIV MOD
    || 64 <= op <= 69                                   // CREQ .. CRLTEQ
    || op == INS_RET
  }

  /** Instructions whose operand is a code address that compaction relocates. */
  predicate IsJump(op: byte) {
    op == INS_F2O || op == INS_CALL || INS_JMP <= op <= INS_JTRUE
  }

  /** Instructions that jump threading rewrites. */
  predicate IsBranch(op: byte) {
    INS_JMP <= op <= INS_JTRUE
  }
}
