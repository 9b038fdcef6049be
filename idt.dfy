// 64-bit IDT gate descriptors (Intel SDM Vol. 3A section 6.14.1), the
// exception vector numbers (AMD64 Architecture Programmer's Manual Vol. 2
// section 8.2) and the layout of the 256-entry IDT. The builders take an
// entry by value and return an updated copy, so they are functions here.

module Idt {
  import opened Segment
  import Gdt

  /**
   * An IDT gate, field by field in memory order: target offset bits 15..0,
   * target code selector, IST index, flags (type, DPL, present), target
   * offset bits 31..16, target offset bits 63..32, and a reserved word.
   */
  datatype IdtEntry = IdtEntry(
    tgtOff0015: bv16,
    tgtSel: bv16,
    ist: bv8,
    flags: bv8,
    tgtOff1631: bv16,
    tgtOff3263: bv32,
    resv: bv32)

  /** The size of an entry in bytes, the sum of its field widths. */
  const ENTRY_BYTES: nat := 2 + 2 + 1 + 1 + 2 + 4 + 4

  const CALL_GATE_TYPE: bv8 := 0xc
  const INT_GATE_TYPE: bv8 := 0xe
  const TRAP_GATE_TYPE: bv8 := 0xf

  /** `target_offset`: the three offset fields joined into one 64-bit address. */
  function TargetOffset(e: IdtEntry): bv64
  {
    ((e.tgtOff3263 as bv64) << 32) | ((e.tgtOff1631 as bv64) << 16) | (e.tgtOff0015 as bv64)
  }

  /** `ist_bits`: the low three bits of the IST field, an index into the interrupt stack table. */
  function IstBits(e: IdtEntry): (r: bv8)
    ensures r < 8
  {
    e.ist & 0x07
  }

  /** `type_bits`: flags bits 3..0. */
  function TypeBits(e: IdtEntry): (r: bv8)
    ensures r < 0x10
  {
    e.flags & 0x0f
  }

  /** `dpl`: flags bits 6..5. */
  function Dpl(e: IdtEntry): (r: bv8)
    ensures r < 4
  {
    (e.flags & 0x60) >> 5
  }

  /** `present`: flags bit 7. */
  function Present(e: IdtEntry): bool
  {
    e.flags & 0x80 != 0
  }

  /** `empty`: every field zero, so the gate is not present. */
  function Empty(): (e: IdtEntry)
    ensures !Present(e) && TargetOffset(e) == 0 && e.tgtSel == 0
    ensures TypeBits(e) == 0 && Dpl(e) == 0 && IstBits(e) == 0
  {
    IdtEntry(0, 0, 0, 0, 0, 0, 0)
  }

  /**
   * `with_target_offset`: split `offset` over the three offset fields; the
   * offset reads back whole whatever the entry held before, and nothing
   * else changes.
   */
  function WithTargetOffset(e: IdtEntry, offset: bv64): (r: IdtEntry)
    ensures TargetOffset(r) == offset
    ensures r.tgtSel == e.tgtSel && r.ist == e.ist && r.flags == e.flags && r.resv == e.resv
  {
    e.(tgtOff0015 := (offset & 0x0000_0000_0000_ffff) as bv16,
       tgtOff1631 := ((offset & 0x0000_0000_ffff_0000) >> 16) as bv16,
       tgtOff3263 := ((offset & 0xffff_ffff_0000_0000) >> 32) as bv32)
  }

  /** `with_target_selector`: the selector changes and the target offset and flags do not. */
  function WithTargetSelector(e: IdtEntry, sel: bv16): (r: IdtEntry)
    ensures r.tgtSel == sel
    ensures r.(tgtSel := e.tgtSel) == e
  {
    e.(tgtSel := sel)
  }

  /** `with_type`: or the low four bits of `ty` into the type; no flag is cleared. */
  function WithType(e: IdtEntry, ty: bv8): (r: IdtEntry)
    ensures r.flags & e.flags == e.flags
    ensures TypeBits(r) == TypeBits(e) | (ty & 0x0f)
    ensures Dpl(r) == Dpl(e) && Present(r) == Present(e)
    ensures r.(flags := e.flags) == e
  {
    e.(flags := e.flags | (ty & 0x0f))
  }

  /** `with_present`: set the present bit; no flag is cleared. */
  function WithPresent(e: IdtEntry): (r: IdtEntry)
    ensures r.flags & e.flags == e.flags
    ensures Present(r)
    ensures TypeBits(r) == TypeBits(e) && Dpl(r) == Dpl(e)
    ensures r.(flags := e.flags) == e
  {
    e.(flags := e.flags | (1 << 7))
  }

  /** `with_dpl`: or the low two bits of `dpl` into the DPL field; no flag is cleared. */
  function WithDpl(e: IdtEntry, dpl: bv8): (r: IdtEntry)
    ensures r.flags & e.flags == e.flags
    ensures Dpl(r) == Dpl(e) | (dpl & 0x03)
    ensures TypeBits(r) == TypeBits(e) && Present(r) == Present(e)
    ensures r.(flags := e.flags) == e
  {
    e.(flags := e.flags | ((dpl & 0x03) << 5))
  }

  /** On an empty entry, `with_type` and `with_dpl` store their argument's low bits exactly. */
  lemma FieldsOfEmpty(ty: bv8, dpl: bv8)
    ensures TypeBits(WithType(Empty(), ty)) == ty & 0x0f
    ensures Dpl(WithDpl(Empty(), dpl)) == dpl & 0x03
    ensures !Present(WithType(Empty(), ty)) && Present(WithPresent(Empty()))
  {
  }

  /**
   * `new_interrupt`: an empty entry made a present ring-0 interrupt gate on
   * the kernel code selector, with `handler` as its target offset and no
   * interrupt stack.
   */
  function NewInterrupt(handler: bv64): (e: IdtEntry)
    ensures TypeBits(e) == INT_GATE_TYPE && Dpl(e) == 0 && IstBits(e) == 0 && Present(e)
    ensures e.tgtSel == AsU16(Gdt.KERNEL_CODE_SEL)
    ensures TargetOffset(e) == handler
  {
    var e0 := WithType(Empty(), INT_GATE_TYPE);
    var e1 := WithTargetSelector(e0, AsU16(Gdt.KERNEL_CODE_SEL));
    var e2 := WithDpl(e1, 0);
    var e3 := WithPresent(e2);
    WithTargetOffset(e3, handler)
  }

  // ---------------------------------------------------------------------
  // Vectors and the table

  datatype IdtVector =
    | DivideByZero | Debug | Nmi | Breakpoint | Overflow | BoundRange | InvalidOpcode | DeviceNotAvail | DoubleFault
    | InvalidTss | SegmentNotPresent | Stack | GeneralProt | PageFault
    | X87Fp | AlignmentCheck | MachineCheck | SimdFp
    | ControlProt
    | HypervisorInj | VmmComm | Security

  /** `Into<usize> for IdtVector`: the architectural vector number. */
  function VectorNumber(v: IdtVector): (n: nat)
    ensures n < FIXED_SLOTS
  {
    match v
    case DivideByZero => 0
    case Debug => 1
    case Nmi => 2
    case Breakpoint => 3
    case Overflow => 4
    case BoundRange => 5
    case InvalidOpcode => 6
    case DeviceNotAvail => 7
    case DoubleFault => 8
    case InvalidTss => 10
    case SegmentNotPresent => 11
    case Stack => 12
    case GeneralProt => 13
    case PageFault => 14
    case X87Fp => 16
    case AlignmentCheck => 17
    case MachineCheck => 18
    case SimdFp => 19
    case ControlProt => 21
    case HypervisorInj => 28
    case VmmComm => 29
    case Security => 30
  }

  /** The handler signature an `Idt` field is declared with: with or without an error code argument. */
  datatype HandlerKind = Plain | WithErrorCode

  /** A named field of `Idt`: the vector it serves and its handler kind, or a reserved gap. */
  datatype IdtField = Named(vector: IdtVector, kind: HandlerKind) | Reserved

  /** The architecturally defined vectors 0 to 31 precede the user vectors. */
  const FIXED_SLOTS: nat := 32
  /** `NUM_USER`: the user vectors 32 to 255. */
  const NUM_USER: nat := 256 - 32

  /** The 32 named fields of `Idt` in declaration order, as declared. */
  const IDT_FIELDS: seq<IdtField> := [
    Named(DivideByZero, Plain), Named(Debug, Plain), Named(Nmi, Plain), Named(Breakpoint, Plain),
    Named(Overflow, Plain), Named(BoundRange, Plain), Named(InvalidOpcode, Plain), Named(DeviceNotAvail, Plain),
    Named(DoubleFault, Plain),
    Reserved,
    Named(InvalidTss, WithErrorCode), Named(SegmentNotPresent, WithErrorCode), Named(Stack, WithErrorCode),
    Named(GeneralProt, WithErrorCode),
    Named(PageFault, WithErrorCode),
    Reserved, Named(X87Fp, Plain), Named(AlignmentCheck, WithErrorCode),
    Named(MachineCheck, Plain),
    Named(SimdFp, Plain),
    Reserved,
    Named(ControlProt, WithErrorCode),
    Reserved, Reserved, Reserved, Reserved, Reserved, Reserved,
    Named(HypervisorInj, Plain), Named(VmmComm, WithErrorCode), Named(Security, WithErrorCode),
    Reserved]

  /**
   * The exceptions for which the processor pushes an error code (AMD64
   * Architecture Programmer's Manual Vol. 2 section 8.2): #DF (always zero),
   * #TS, #NP, #SS, #GP, #PF, #AC, #CP, #VC and #SX.
   */
  predicate PushesErrorCode(v: IdtVector)
  {
    v in {DoubleFault, InvalidTss, SegmentNotPresent, Stack, GeneralProt, PageFault,
          AlignmentCheck, ControlProt, VmmComm, Security}
  }

  /** The handler kind an exception needs: an error code argument exactly when one is pushed. */
  function RequiredKind(v: IdtVector): HandlerKind
  {
    if PushesErrorCode(v) then WithErrorCode else Plain
  }

  /** The declared fields with the double-fault field taking the error code #DF pushes. */
  const IDT_FIELDS_FIXED: seq<IdtField> := IDT_FIELDS[8 := Named(DoubleFault, WithErrorCode)]

  /** Each vector's field sits at the position of its vector number. */
  lemma VectorSlot(v: IdtVector)
    ensures |IDT_FIELDS| == |IDT_FIELDS_FIXED| == FIXED_SLOTS
    ensures IDT_FIELDS[VectorNumber(v)].Named? && IDT_FIELDS[VectorNumber(v)].vector == v
    ensures IDT_FIELDS_FIXED[VectorNumber(v)].Named? && IDT_FIELDS_FIXED[VectorNumber(v)].vector == v
  {
  }

  /** Distinct vectors have distinct numbers: the table position tells the vector. */
  lemma VectorNumberInjective(a: IdtVector, b: IdtVector)
    ensures VectorNumber(a) == VectorNumber(b) ==> a == b
  {
    VectorSlot(a);
    VectorSlot(b);
  }

  /** Each named field serves the vector whose number is its position. */
  lemma FieldVector(i: nat)
    requires i < FIXED_SLOTS
    ensures IDT_FIELDS[i].Named? ==> VectorNumber(IDT_FIELDS[i].vector) == i
  {
  }

  /** The reserved fields fill exactly the positions no vector uses: 9, 15, 20, 22 to 27 and 31. */
  lemma ReservedGaps(i: nat)
    requires i < FIXED_SLOTS
    ensures IDT_FIELDS[i].Reserved? <==> i in {9, 15, 20, 22, 23, 24, 25, 26, 27, 31}
    ensures IDT_FIELDS[i].Reserved? <==> forall v: IdtVector :: VectorNumber(v) != i
  {
    FieldVector(i);
    forall v: IdtVector
      ensures VectorNumber(v) == i ==> IDT_FIELDS[i].Named?
    {
      VectorSlot(v);
    }
  }

  /** As declared, the double-fault handler takes no error code although #DF pushes one. */
  lemma DoubleFaultDeclaredWithoutErrorCode()
    ensures IDT_FIELDS[VectorNumber(DoubleFault)].kind == Plain
    ensures RequiredKind(DoubleFault) == WithErrorCode
  {
  }

  /** With that field corrected, every exception's handler takes an error code exactly when one is pushed. */
  lemma FixedKindsMatch(v: IdtVector)
    ensures IDT_FIELDS_FIXED[VectorNumber(v)].kind == RequiredKind(v)
  {
  }

  /** The table: the 32 named fields, then the user vectors. */
  datatype IdtTable = IdtTable(fixed: seq<IdtEntry>, usr: seq<IdtEntry>)

  /** `Idt::init`: every entry empty. */
  function IdtInit(): (t: IdtTable)
    ensures |t.fixed| == FIXED_SLOTS && |t.usr| == NUM_USER
    ensures forall i :: 0 <= i < FIXED_SLOTS ==> !Present(t.fixed[i])
    ensures forall i :: 0 <= i < NUM_USER ==> !Present(t.usr[i])
  {
    IdtTable(seq(FIXED_SLOTS, _ => Empty()), seq(NUM_USER, _ => Empty()))
  }

  /** The entry of `t` the processor reads for vector number `n`. */
  function Gate(t: IdtTable, n: nat): (e: IdtEntry)
    requires |t.fixed| == FIXED_SLOTS && |t.usr| == NUM_USER && n < FIXED_SLOTS + NUM_USER
  {
    if n < FIXED_SLOTS then t.fixed[n] else t.usr[n - FIXED_SLOTS]
  }

  /** Byte offset of entry `n` in the table. */
  function GateOffset(n: nat): nat
  {
    n * ENTRY_BYTES
  }

  /**
   * The table holds 256 gates of 16 bytes, one page: the gates of two
   * distinct named vectors never overlap, all of them lie in the first 512
   * bytes ahead of every user gate, and the field of each named vector is
   * the gate the processor reads for it.
   */
  lemma IdtLayout(t: IdtTable, a: IdtVector, b: IdtVector, u: nat)
    requires |t.fixed| == FIXED_SLOTS && |t.usr| == NUM_USER && u < NUM_USER
    ensures a != b ==>
      || GateOffset(VectorNumber(a)) + ENTRY_BYTES <= GateOffset(VectorNumber(b))
      || GateOffset(VectorNumber(b)) + ENTRY_BYTES <= GateOffset(VectorNumber(a))
    ensures GateOffset(VectorNumber(a)) + ENTRY_BYTES <= GateOffset(FIXED_SLOTS) == 512 <= GateOffset(FIXED_SLOTS + u)
    ensures GateOffset(FIXED_SLOTS + u) + ENTRY_BYTES <= GateOffset(FIXED_SLOTS + NUM_USER) == 0x1000
    ensures Gate(t, VectorNumber(a)) == t.fixed[VectorNumber(a)]
  {
    VectorNumberInjective(a, b);
    VectorSlot(a);
  }
}
