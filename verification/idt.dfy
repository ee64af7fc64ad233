/**
 * The interrupt descriptor table: 256 packed 8-byte gate descriptors
 * (Intel SDM Vol. 3A section 6.11) and the IDTR value that points the CPU
 * at them.
 *
 * Handler addresses are link-time constants of the kernel image, so they
 * are parameters here; the `lidt` and `sti` instructions are not modelled.
 */
module Idt {

  const IDT_ENTRIES: nat := 256
  const ENTRY_SIZE: nat := 8
  const PIC1_OFFSET: nat := 0x20
  const IRQ0_IDX: nat := PIC1_OFFSET
  const IRQ1_IDX: nat := IRQ0_IDX + 1

  const DIVIDE_ERROR: nat := 0
  const BREAKPOINT: nat := 3
  const PAGE_FAULT: nat := 14

  /** Ring-0 code segment of the GDT. */
  const KERNEL_CS: bv16 := 0x08
  /** Present, DPL 0, 32-bit interrupt gate. */
  const INTERRUPT_GATE: bv8 := 0x8E

  /** One `idte_t`, field for field. */
  datatype Entry = Entry(offsetLow: bv16, selector: bv16, zero: bv8, typeAttributes: bv8, offsetHigh: bv16)

  const NULL_ENTRY: Entry := Entry(0, 0, 0, 0, 0)

  /** The `idtr_t` operand of `lidt`. */
  datatype Idtr = Idtr(limit: bv16, base: bv32)

  /** The addresses of the four handlers the kernel installs. */
  datatype Handlers = Handlers(divideError: bv32, breakpoint: bv32, pageFault: bv32, irq1: bv32)

  /** The 32-bit handler address a descriptor holds in its two halves. */
  function Offset(e: Entry): bv32
  {
    ((e.offsetHigh as bv32) << 16) | (e.offsetLow as bv32)
  }

  /** The descriptor `idt_set_gate` writes. */
  function Gate(handler: bv32, selector: bv16, typeAttributes: bv8): (e: Entry)
    ensures e.selector == selector && e.typeAttributes == typeAttributes && e.zero == 0
  {
    Entry((handler & 0xFFFF) as bv16, selector, 0, typeAttributes, ((handler >> 16) & 0xFFFF) as bv16)
  }

  /** `idt_set_gate(n, ...)` on the table: entry `n` becomes the gate, every other entry stays. */
  function SetGate(idt: seq<Entry>, n: nat, handler: bv32, selector: bv16, typeAttributes: bv8): (r: seq<Entry>)
    requires n < |idt|
    ensures |r| == |idt|
    ensures r[n] == Gate(handler, selector, typeAttributes)
    ensures forall j :: 0 <= j < |idt| && j != n ==> r[j] == idt[j]
  {
    idt[n := Gate(handler, selector, typeAttributes)]
  }

  /** The IDTR limit: the table size in bytes minus one, stored in 16 bits. */
  function Limit(entries: nat): bv16
    requires 0 < entries * ENTRY_SIZE <= 0x1_0000
  {
    (entries * ENTRY_SIZE - 1) as bv16
  }

  /** What `idt_init` leaves in entry `j`. */
  function Installed(h: Handlers, j: nat): Entry
  {
    if j == DIVIDE_ERROR then Gate(h.divideError, KERNEL_CS, INTERRUPT_GATE)
    else if j == BREAKPOINT then Gate(h.breakpoint, KERNEL_CS, INTERRUPT_GATE)
    else if j == PAGE_FAULT then Gate(h.pageFault, KERNEL_CS, INTERRUPT_GATE)
    else if j == IRQ1_IDX then Gate(h.irq1, KERNEL_CS, INTERRUPT_GATE)
    else NULL_ENTRY
  }

  /**
   * `idt_init`: whatever the table held is zeroed, the four gates are
   * written, and the IDTR gets the table's base and a limit of 2047.
   */
  method IdtInit(previous: seq<Entry>, tableBase: bv32, h: Handlers) returns (idt: seq<Entry>, idtr: Idtr)
    requires |previous| == IDT_ENTRIES
    ensures |idt| == IDT_ENTRIES
    ensures forall j :: 0 <= j < IDT_ENTRIES ==> idt[j] == Installed(h, j)
    ensures idtr == Idtr(2047, tableBase)
  {
    // memset(&idt, 0, sizeof(idte_t) * IDT_ENTRIES)
    idt := previous;
    var j := 0;
    while j < IDT_ENTRIES
      invariant 0 <= j <= IDT_ENTRIES && |idt| == IDT_ENTRIES
      invariant forall i :: 0 <= i < j ==> idt[i] == NULL_ENTRY
    {
      idt := idt[j := NULL_ENTRY];
      j := j + 1;
    }
    idt := SetGate(idt, DIVIDE_ERROR, h.divideError, KERNEL_CS, INTERRUPT_GATE);
    idt := SetGate(idt, BREAKPOINT, h.breakpoint, KERNEL_CS, INTERRUPT_GATE);
    idt := SetGate(idt, PAGE_FAULT, h.pageFault, KERNEL_CS, INTERRUPT_GATE);
    idt := SetGate(idt, IRQ1_IDX, h.irq1, KERNEL_CS, INTERRUPT_GATE);
    idtr := Idtr(Limit(IDT_ENTRIES), tableBase);
  }

  // ---------------------------------------------------------------------
  // The packed 8-byte descriptor.

  /** The descriptor as the CPU reads it: bytes 0..7 of the packed struct, little-endian. */
  function Encode(e: Entry): bv64
  {
    (e.offsetLow as bv64)
    | ((e.selector as bv64) << 16)
    | ((e.zero as bv64) << 32)
    | ((e.typeAttributes as bv64) << 40)
    | ((e.offsetHigh as bv64) << 48)
  }

  function Decode(w: bv64): Entry
  {
    Entry((w & 0xFFFF) as bv16,
          ((w >> 16) & 0xFFFF) as bv16,
          ((w >> 32) & 0xFF) as bv8,
          ((w >> 40) & 0xFF) as bv8,
          ((w >> 48) & 0xFFFF) as bv16)
  }

  // ---------------------------------------------------------------------
  // Properties.

  /** The two halves `idt_set_gate` stores join back into the handler address. */
  lemma GateOffset(handler: bv32, selector: bv16, typeAttributes: bv8)
    ensures Offset(Gate(handler, selector, typeAttributes)) == handler
  {
  }

  /** Different handler addresses give different gates. */
  lemma GateInjective(h1: bv32, h2: bv32, selector: bv16, typeAttributes: bv8)
    requires Gate(h1, selector, typeAttributes) == Gate(h2, selector, typeAttributes)
    ensures h1 == h2
  {
    GateOffset(h1, selector, typeAttributes);
    GateOffset(h2, selector, typeAttributes);
  }

  lemma DecodeOffsetLow(e: Entry)
    ensures Decode(Encode(e)).offsetLow == e.offsetLow
  {
  }

  lemma DecodeSelector(e: Entry)
    ensures Decode(Encode(e)).selector == e.selector
  {
  }

  lemma DecodeZero(e: Entry)
    ensures Decode(Encode(e)).zero == e.zero
  {
  }

  lemma DecodeTypeAttributes(e: Entry)
    ensures Decode(Encode(e)).typeAttributes == e.typeAttributes
  {
  }

  lemma DecodeOffsetHigh(e: Entry)
    ensures Decode(Encode(e)).offsetHigh == e.offsetHigh
  {
  }

  /** Packing a descriptor loses no field. */
  lemma DecodeEncode(e: Entry)
    ensures Decode(Encode(e)) == e
  {
    DecodeOffsetLow(e);
    DecodeSelector(e);
    DecodeZero(e);
    DecodeTypeAttributes(e);
    DecodeOffsetHigh(e);
  }

  /** Every 8-byte value is the packing of its own fields. */
  lemma EncodeDecode(w: bv64)
    ensures Encode(Decode(w)) == w
  {
  }

  /** The zeroed entry is the all-zero descriptor, which the CPU reads as not present. */
  lemma NullEntryNotPresent()
    ensures Encode(NULL_ENTRY) == 0
    ensures NULL_ENTRY.typeAttributes & 0x80 == 0
  {
  }

  /** A present, ring-0, 32-bit interrupt gate into the kernel code segment. */
  predicate KernelInterruptGate(e: Entry)
  {
    && e.selector == KERNEL_CS
    && e.zero == 0
    && e.typeAttributes & 0x80 != 0
    && (e.typeAttributes >> 5) & 0x3 == 0
    && e.typeAttributes & 0x1F == 0x0E
  }

  /**
   * After `idt_init` exactly the vectors 0, 3, 14 and 0x21 are kernel
   * interrupt gates, each jumping to its own handler; every other vector
   * is not present.
   */
  lemma InstalledGates(h: Handlers, j: nat)
    requires j < IDT_ENTRIES
    ensures j in {DIVIDE_ERROR, BREAKPOINT, PAGE_FAULT, IRQ1_IDX} <==> KernelInterruptGate(Installed(h, j))
    ensures j !in {DIVIDE_ERROR, BREAKPOINT, PAGE_FAULT, IRQ1_IDX} ==> Installed(h, j) == NULL_ENTRY
    ensures j == DIVIDE_ERROR ==> Offset(Installed(h, j)) == h.divideError
    ensures j == BREAKPOINT ==> Offset(Installed(h, j)) == h.breakpoint
    ensures j == PAGE_FAULT ==> Offset(Installed(h, j)) == h.pageFault
    ensures j == IRQ1_IDX ==> Offset(Installed(h, j)) == h.irq1
  {
    GateOffset(h.divideError, KERNEL_CS, INTERRUPT_GATE);
    GateOffset(h.breakpoint, KERNEL_CS, INTERRUPT_GATE);
    GateOffset(h.pageFault, KERNEL_CS, INTERRUPT_GATE);
    GateOffset(h.irq1, KERNEL_CS, INTERRUPT_GATE);
  }

  /** The keyboard's vector is the master PIC's base plus IRQ line 1. */
  lemma KeyboardVector()
    ensures IRQ1_IDX == 0x21
  {
  }
}
