/** Key flags and the operations on them. */
module Flags {
  import opened NodeTable
  import opened Invariants

  const PRESUME_KNE: KeyFlags := 1
  const KEY_LOCKED: KeyFlags := 2
  const KEY_LOCKED_VAL_EXIST: KeyFlags := 4
  const NEED_CHECK_EXISTS: KeyFlags := 8
  const NO_NEED_COMMIT: KeyFlags := 16

  datatype FlagsOp =
    | SetPresumeKeyNotExists
    | DelPresumeKeyNotExists
    | SetKeyLocked
    | DelKeyLocked
    | SetKeyLockedValueExists
    | SetKeyLockedValueNotExists
    | DelNeedCheckExists
    | SetNoNeedCommit

  function ApplyOp(f: KeyFlags, op: FlagsOp): KeyFlags {
    match op
    case SetPresumeKeyNotExists => f | PRESUME_KNE | NEED_CHECK_EXISTS
    case DelPresumeKeyNotExists => f & !(PRESUME_KNE | NEED_CHECK_EXISTS)
    case SetKeyLocked => f | KEY_LOCKED
    case DelKeyLocked => f & !KEY_LOCKED
    case SetKeyLockedValueExists => f | KEY_LOCKED_VAL_EXIST
    case DelNeedCheckExists => f & !NEED_CHECK_EXISTS
    case SetKeyLockedValueNotExists => f & !KEY_LOCKED_VAL_EXIST
    case SetNoNeedCommit => f | NO_NEED_COMMIT
  }

  function ApplyOps(f: KeyFlags, ops: seq<FlagsOp>): KeyFlags {
    if ops == [] then f else ApplyOp(ApplyOps(f, ops[..|ops| - 1]), ops[|ops| - 1])
  }

  /** The bits that an operation sets, and those that it clears. */
  function Sets(op: FlagsOp): KeyFlags {
    match op
    case SetPresumeKeyNotExists => PRESUME_KNE | NEED_CHECK_EXISTS
    case SetKeyLocked => KEY_LOCKED
    case SetKeyLockedValueExists => KEY_LOCKED_VAL_EXIST
    case SetNoNeedCommit => NO_NEED_COMMIT
    case _ => 0
  }

  function Clears(op: FlagsOp): KeyFlags {
    match op
    case DelPresumeKeyNotExists => PRESUME_KNE | NEED_CHECK_EXISTS
    case DelKeyLocked => KEY_LOCKED
    case SetKeyLockedValueNotExists => KEY_LOCKED_VAL_EXIST
    case DelNeedCheckExists => NEED_CHECK_EXISTS
    case _ => 0
  }

  /** An operation leaves none of the bits alone. */
  predicate Decides(op: FlagsOp, bits: KeyFlags) {
    bits & !(Sets(op) | Clears(op)) == 0
  }

  /** An operation leaves all of the bits alone. */
  predicate Leaves(op: FlagsOp, bits: KeyFlags) {
    bits & (Sets(op) | Clears(op)) == 0
  }

  lemma OpBits(f: KeyFlags, op: FlagsOp, bits: KeyFlags)
    ensures Leaves(op, bits) ==> ApplyOp(f, op) & bits == f & bits
    ensures Decides(op, bits) ==> ApplyOp(f, op) & bits == bits & Sets(op)
  {
  }

  /** Bits that no operation sets or clears stay as they are. */
  lemma {:induction false} OtherBitsStay(f: KeyFlags, ops: seq<FlagsOp>, bits: KeyFlags)
    requires forall op | op in ops :: Leaves(op, bits)
    ensures ApplyOps(f, ops) & bits == f & bits
  {
    hide Leaves, Decides, ApplyOp;
    if ops != [] {
      OtherBitsStay(f, ops[..|ops| - 1], bits);
      OpBits(ApplyOps(f, ops[..|ops| - 1]), ops[|ops| - 1], bits);
    }
  }

  /** Bits that an operation sets or clears are afterwards as the last operation that does so leaves them, whatever
      they were before. */
  lemma {:induction false} LastOpDecides(f: KeyFlags, ops: seq<FlagsOp>, bits: KeyFlags, i: nat)
    requires i < |ops| && Decides(ops[i], bits) && forall j | i < j < |ops| :: Leaves(ops[j], bits)
    ensures ApplyOps(f, ops) & bits == bits & Sets(ops[i])
    decreases |ops|
  {
    hide Leaves, Decides, ApplyOp, Sets;
    var n := |ops| - 1;
    OpBits(ApplyOps(f, ops[..n]), ops[n], bits);
    if i < n { LastOpDecides(f, ops[..n], bits, i); }
  }

  /** The five flags are single bits, each another one, as in the source. */
  lemma FlagsDiffer()
    ensures [PRESUME_KNE, KEY_LOCKED, KEY_LOCKED_VAL_EXIST, NEED_CHECK_EXISTS, NO_NEED_COMMIT] == [1, 2, 4, 8, 16]
    ensures forall a, b | Sets(a) & Sets(b) != 0 :: a == b
    ensures Sets(SetPresumeKeyNotExists) == 1 | 8 && Sets(SetKeyLocked) == 2 && Sets(SetKeyLockedValueExists) == 4
    ensures Sets(SetNoNeedCommit) == 16 && Clears(DelNeedCheckExists) == 8
    ensures Clears(DelPresumeKeyNotExists) == Sets(SetPresumeKeyNotExists) && Clears(DelKeyLocked) == Sets(SetKeyLocked)
    ensures Clears(SetKeyLockedValueNotExists) == Sets(SetKeyLockedValueExists)
  {
  }

  /** The bits that locking a key sets, and finding that it has a value then. */
  function LockBits(): KeyFlags {
    ApplyOp(0, SetKeyLocked) | ApplyOp(0, SetKeyLockedValueExists)
  }

  /** Flags of a key that is locked, or was found to have a value when it was locked. */
  predicate Locks(f: KeyFlags) {
    f & LockBits() != 0
  }

  lemma PersistentFlagsAreLocks()
    ensures PERSISTENT_FLAGS == LockBits()
  {
  }

  method ApplyFlagsOps(origin: KeyFlags, ops: seq<FlagsOp>) returns (f: KeyFlags)
    ensures f == ApplyOps(origin, ops)
  {
    f := origin;
    for i := 0 to |ops|
      invariant f == ApplyOps(origin, ops[..i])
    {
      assert ops[..i + 1][..i] == ops[..i];
      match ops[i] {
        case SetPresumeKeyNotExists => f := f | (PRESUME_KNE | NEED_CHECK_EXISTS);
        case DelPresumeKeyNotExists => f := f & !(PRESUME_KNE | NEED_CHECK_EXISTS);
        case SetKeyLocked => f := f | KEY_LOCKED;
        case DelKeyLocked => f := f & !KEY_LOCKED;
        case SetKeyLockedValueExists => f := f | KEY_LOCKED_VAL_EXIST;
        case DelNeedCheckExists => f := f & !NEED_CHECK_EXISTS;
        case SetKeyLockedValueNotExists => f := f & !KEY_LOCKED_VAL_EXIST;
        case SetNoNeedCommit => f := f | NO_NEED_COMMIT;
      }
    }
    assert ops[..|ops|] == ops;
  }

  // ---------- the packed flag byte ----------

  /** The source keeps a node's colour in the top bit of its flag byte and the key flags in the rest. */
  const COLOUR_BIT: bv8 := 0x80

  function Pack(red: bool, f: KeyFlags): bv8 {
    if red then f | COLOUR_BIT else f
  }

  /** Setting the colour keeps the flags and setting the flags keeps the colour: the two are independent fields,
      as the node records of this model have them. */
  lemma PackedFields(red: bool, f: KeyFlags, red': bool, f': KeyFlags)
    requires f & COLOUR_BIT == 0 && f' & COLOUR_BIT == 0
    ensures Pack(red, f) & COLOUR_BIT != 0 <==> red
    ensures Pack(red, f) & !COLOUR_BIT == f
    ensures Pack(red, f) | COLOUR_BIT == Pack(true, f) && Pack(red, f) & !COLOUR_BIT == Pack(false, f)
    ensures (COLOUR_BIT & Pack(red, f)) | f' == Pack(red, f')
  {
  }

  /** No operation reaches the colour bit. */
  lemma {:induction false} OpsKeepColour(f: KeyFlags, ops: seq<FlagsOp>)
    requires f & COLOUR_BIT == 0
    ensures ApplyOps(f, ops) & COLOUR_BIT == 0
  {
    if ops != [] { OpsKeepColour(f, ops[..|ops| - 1]); }
  }
}
