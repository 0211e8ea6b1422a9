// The processor as the single-stepping code sees it: saved registers, breakpoint
// register pair 0, and the rule by which a user-mode fetch faults
// (labs/14-ss-equiv-deux/code/armv6-debug-impl.h and mini-step.c).
module DebugHardware {
  import opened Words

  const SP := 13
  const LR := 14
  const PC := 15
  const CPSR := 16

  /** regs_t: r0-r15 and the status register. */
  type Regs = r: seq<Word> | |r| == 17 witness seq(17, _ => 0)

  /** Memory private to a thread. */
  type Mem = map<Word, Word>

  // ----- The breakpoint control register -----

  /** bits_set(v, lb, ub, x) for a field given by its mask. */
  function SetField(v: bv32, mask: bv32, x: bv32): bv32 {
    (v & !mask) | x
  }

  predicate Enabled(bcr: bv32) {
    bcr & 1 == 1
  }

  /** The word that cp14_bcr0_enable_mismatch computes. */
  function MismatchWord(bcr: bv32): bv32 {
    var v := SetField(bcr, 0x60_0000, 0x60_0000);  // [22:21] b11, a reserved encoding
    var v := SetField(v, 0x10_0000, 0);            // [20] no linking
    var v := SetField(v, 0xC000, 0);               // [15:14] either world
    var v := SetField(v, 0x1E0, 0x1E0);            // [8:5] every byte
    var v := SetField(v, 0x6, 0x4);                // [2:1] user mode only
    v | 1
  }

  /** What a control register holds once a word is written: without context ID capability bit 21 reads as zero. */
  function Stored(contextCapable: bool, v: bv32): bv32 {
    if contextCapable then v else v & 0xFFDF_FFFF
  }

  /** cp14_bcr0_enable_mismatch: written only if the breakpoint is off. Pair 0 is not context ID capable. */
  function EnableMismatch(bcr: bv32): bv32 {
    if Enabled(bcr) then bcr else Stored(false, MismatchWord(bcr))
  }

  /** cp14_bcr0_disable. */
  function Disable(bcr: bv32): bv32 {
    Stored(false, SetField(bcr, 1, 0))
  }

  /** The control word selects an unlinked, user-only, every-byte address mismatch, b10 in [22:21], and is on. */
  predicate IsUserMismatch(bcr: bv32) {
    && bcr & 0x60_0000 == 0x40_0000 && bcr & 0x10_0000 == 0 && bcr & 0xC000 == 0
    && bcr & 0x1E0 == 0x1E0 && bcr & 0x6 == 0x4 && bcr & 1 == 1
  }

  /** The bits the code never writes. */
  function OtherBits(bcr: bv32): bv32 {
    bcr & 0xFF8F_3E18
  }

  /** Arming works from every disarmed state, and is a no-op when already armed. */
  lemma ArmingSetsMismatch(bcr: bv32)
    ensures !Enabled(bcr) ==> IsUserMismatch(EnableMismatch(bcr))
    ensures IsUserMismatch(bcr) ==> EnableMismatch(bcr) == bcr
  {
  }

  /**
   * The code asks for a reserved kind of breakpoint. It gets the mismatch it means
   * exactly because the pair it uses cannot hold the bit that is too many.
   */
  lemma ReservedEncodingWorksIff(bcr: bv32, contextCapable: bool)
    ensures MismatchWord(bcr) & 0x60_0000 == 0x60_0000
    ensures IsUserMismatch(Stored(contextCapable, MismatchWord(bcr))) <==> !contextCapable
  {
  }

  /** What the register can hold, bit 21 clear, differs after disabling in the enable bit only. */
  lemma DisableOnlyDisables(bcr: bv32)
    ensures !Enabled(Disable(bcr))
    ensures OtherBits(Disable(bcr)) == OtherBits(bcr)
    ensures Stored(false, bcr) == bcr ==> Disable(bcr) == bcr & 0xFFFF_FFFE
  {
    DisabledWord(bcr);
    hide Disable;
    MaskedFurther(bcr);
  }

  lemma DisabledWord(v: bv32)
    ensures Disable(v) == v & 0xFFDF_FFFE
  {
  }

  lemma MaskedFurther(v: bv32)
    ensures v & 0xFFDF_FFFE & 1 == 0
    ensures v & 0xFFDF_FFFE & 0xFF8F_3E18 == v & 0xFF8F_3E18
    ensures v & 0xFFDF_FFFF == v ==> v & 0xFFDF_FFFE == v & 0xFFFF_FFFE
  {
  }

  /** Together the field writes keep every other bit and fix the rest. */
  lemma ArmedWord(bcr: bv32)
    requires !Enabled(bcr)
    ensures EnableMismatch(bcr) == (bcr & 0xFF8F_3E18) | 0x40_01E5
  {
  }

  /** Arming touches no bit outside the fields it names. */
  lemma ArmingKeepsOtherBits(bcr: bv32)
    ensures OtherBits(EnableMismatch(bcr)) == OtherBits(bcr)
  {
    if !Enabled(bcr) {
      ArmedWord(bcr);
      hide EnableMismatch;
      KeepsOther(bcr, EnableMismatch(bcr));
    }
  }

  lemma KeepsOther(v: bv32, w: bv32)
    requires w == (v & 0xFF8F_3E18) | 0x40_01E5
    ensures OtherBits(w) == OtherBits(v)
  {
  }

  /** Disarming and arming again restores the register. */
  lemma RearmRestores(bcr: bv32)
    requires IsUserMismatch(bcr)
    ensures EnableMismatch(Disable(bcr)) == bcr
  {
    DisableOnlyDisables(bcr);
    ArmedWord(Disable(bcr));
    hide EnableMismatch;
    DisabledFields(bcr);
  }

  lemma DisabledFields(bcr: bv32)
    requires IsUserMismatch(bcr)
    ensures (Disable(bcr) & 0xFF8F_3E18) | 0x40_01E5 == bcr
  {
  }

  /** Arming trusts a breakpoint that is already on, so it fails exactly when that one is not a mismatch. */
  lemma ArmsUnlessOtherwiseEnabled(bcr: bv32)
    ensures IsUserMismatch(EnableMismatch(bcr)) <==> !Enabled(bcr) || IsUserMismatch(bcr)
  {
  }

  /** The debug hardware and the flag single_step_on_p. */
  class DebugUnit {
    var singleStepOn: bool
    var bvr0: Word
    var bcr0: bv32

    constructor ()
      ensures Idle()
    {
      singleStepOn, bvr0, bcr0 := false, 0, 0;
    }

    /** As mini_step_init leaves it. */
    predicate Idle()
      reads this
    {
      !singleStepOn && !Enabled(bcr0)
    }

    predicate Armed()
      reads this
    {
      singleStepOn && IsUserMismatch(bcr0)
    }

    /** Whether fetching at `pc` in user mode raises a prefetch abort. */
    predicate Faults(pc: Word)
      reads this
    {
      Enabled(bcr0) && pc != bvr0
    }

    method MismatchPcSet(pc: Word) returns (oldPc: Word)
      requires singleStepOn && (Enabled(bcr0) ==> IsUserMismatch(bcr0))
      modifies this
      ensures Armed() && bvr0 == pc && oldPc == old(bvr0)
      ensures forall p: Word :: Faults(p) <==> p != pc
    {
      ArmingSetsMismatch(bcr0);
      oldPc := bvr0;
      bvr0 := pc;
      bcr0 := EnableMismatch(bcr0);
    }

    method MismatchOn()
      requires Idle()
      modifies this
      ensures Armed() && bvr0 == 0
    {
      singleStepOn := true;
      var _ := MismatchPcSet(0);
    }

    method MismatchOff()
      requires Armed()
      modifies this
      ensures Idle() && OtherBits(bcr0) == old(OtherBits(bcr0))
    {
      DisableOnlyDisables(bcr0);
      singleStepOn := false;
      bcr0 := Disable(bcr0);
    }
  }
}
