/** What the pointer slots hold and how accesses turn a slot into a pointer.

A validated access yields bias + address, where the bias belongs to the page and
the direction of the access. Slots keep that pointer, or a window or segment
anchor from which every access of the same identity is rebuilt.
 */
module CachePointers {
  import opened Words
  import opened IntegerSemantics
  import opened AddressDisplacements
  import opened AddressKeys

  datatype Identity = Direct(key: Key) | Window(index: nat) | Segment(id: nat)

  /** Registers whose writes revoke a slot. Window slots anchor the entry base,
      segment slots a proven range, even across temporary base writes. */
  function Inputs(id: Identity): set<Reg> {
    if id.Direct? then id.key.Inputs() else {}
  }

  datatype WindowView = WindowView(base: Reg, load: bool, strided: bool)

  /** One group's fixed facts: page translations, registers at its start, the
      windows, and the anchor each segment's validated accesses publish. Validating
      an address that is not admitted publishes nothing; unset stands for whatever
      its slot would be taken to hold. */
  datatype View = View(
    bias: (bool, int) -> int, entry: seq<Word>, windows: seq<WindowView>, segment: nat -> int,
    admits: (Identity, Word) -> bool, unset: int)

  /** The host pointer a fresh validation of key produces. */
  function Pointer(v: View, key: Key, regs: seq<Word>): int
    requires |regs| == 16
  {
    var ea := EffectiveAddress(key, regs);
    v.bias(key.load, ea / PAGE) + ea
  }

  /** What a slot of this identity holds after a validated publication. */
  function SlotValue(v: View, id: Identity, regs: seq<Word>): int
    requires |regs| == |v.entry| == 16
  {
    match id
    case Direct(key) => if v.admits(id, EffectiveAddress(key, regs)) then Pointer(v, key, regs) else v.unset
    case Window(index) =>
      if index < |v.windows| && v.admits(id, v.entry[v.windows[index].base]) then WindowAnchor(v, index) else v.unset
    case Segment(id) => v.segment(id)
  }

  /** What validating through a window stores. */
  function WindowAnchor(v: View, index: nat): int
    requires |v.entry| == 16 && index < |v.windows|
  {
    var w := v.windows[index];
    v.bias(w.load, v.entry[w.base] / PAGE) + (if w.strided then 0 else v.entry[w.base])
  }

  /** A slot's value only depends on its inputs, within a group. */
  lemma ValueStays(v: View, id: Identity, before: seq<Word>, after: seq<Word>)
    requires |before| == |after| == |v.entry| == 16
    requires forall r <- Inputs(id) :: after[r] == before[r]
    ensures SlotValue(v, id, after) == SlotValue(v, id, before)
  {
    hide Shift;
  }

  /** The emitted publication of a static window slot: the pointer without its
      address, plus the entry base rebuilt from the moved base register. */
  function PublishedStatic(pointer: int, ea: Word, base: Word, displacement: Int32): int {
    pointer - ea + Wrap(base - Wrap(displacement))
  }

  /** Publishing through any access of a static window stores the same anchor. */
  lemma StaticPublication(v: View, index: nat, key: Key, regs: seq<Word>, d: Int32)
    requires |regs| == |v.entry| == 16 && index < |v.windows|
    requires var w := v.windows[index]; w.base == key.base && w.load == key.load && !w.strided
    requires regs[key.base] == Wrap(v.entry[key.base] + d)
    requires InPage(EffectiveAddress(key, regs), key.size, v.entry[key.base])
    ensures PublishedStatic(Pointer(v, key, regs), EffectiveAddress(key, regs), regs[key.base], d) ==
            WindowAnchor(v, index)
  {
    hide EffectiveAddress;
    assert Wrap(regs[key.base] - Wrap(d)) == v.entry[key.base];
  }

  /** The pointer an access forms from a static window slot: a signed 32-bit
      immediate, or the displacement and a zero-extended index. */
  function StaticReference(slot: int, key: Key, displacement: Int32, offset: Word): int {
    if key.index.Some? then slot + displacement + Towards(key.add, offset)
    else slot + ToSigned(displacement + Towards(key.add, offset))
  }

  /** A page-local static access rebuilds exactly the pointer that a fresh
      validation would produce. */
  lemma StaticReferenceExact(v: View, index: nat, key: Key, regs: seq<Word>, d: Int32)
    requires |regs| == |v.entry| == 16 && index < |v.windows| && key.pcBase.None?
    requires var w := v.windows[index]; w.base == key.base && w.load == key.load && !w.strided
    requires regs[key.base] == Wrap(v.entry[key.base] + d) && (key.index.Some? ==> Offset(key, regs) <= PAGE)
    requires InPage(EffectiveAddress(key, regs), key.size, v.entry[key.base])
    ensures StaticReference(WindowAnchor(v, index), key, d, Offset(key, regs)) == Pointer(v, key, regs)
  {
    hide Offset, ToSigned;
    var offset, ea := Towards(key.add, Offset(key, regs)), EffectiveAddress(key, regs);
    NearSigned(v.entry[key.base], d, offset, ea);
    if key.index.Some? {
      NearExact(v.entry[key.base], d, offset, ea);
    }
  }

  /** A nearby address is a signed 32-bit distance away, however far around the
      displacement and the offset went. */
  lemma NearSigned(entry: Word, d: Int32, offset: int, ea: Word)
    requires ea == Wrap(Wrap(entry + d) + offset) && ea / PAGE == entry / PAGE
    ensures ToSigned(d + offset) == ea - entry
  {
    hide Wrap;
    SumMoves(entry, d, offset);
    SumMoves(entry, d + offset, 0 - entry);
    SmallSigned(ea - entry);
    assert entry + (d + offset) + (0 - entry) == d + offset;
  }

  lemma SmallSigned(v: int)
    requires -PAGE < v < PAGE
    ensures ToSigned(v) == v
  {
  }

  /** Displacements too short to wrap around reach a nearby address exactly. */
  lemma NearExact(entry: Word, d: Int32, offset: int, ea: Word)
    requires -PAGE <= offset <= PAGE && ea == Wrap(Wrap(entry + d) + offset) && ea / PAGE == entry / PAGE
    ensures ea == entry + d + offset
  {
  }

  /** A strided window slot keeps only the page bias; the address is formed anew. */
  lemma StridedReferenceExact(v: View, index: nat, key: Key, regs: seq<Word>)
    requires |regs| == |v.entry| == 16 && index < |v.windows|
    requires var w := v.windows[index]; w.base == key.base && w.load == key.load && w.strided
    requires InPage(EffectiveAddress(key, regs), key.size, v.entry[key.base])
    ensures WindowAnchor(v, index) + EffectiveAddress(key, regs) == Pointer(v, key, regs)
    ensures Pointer(v, key, regs) - EffectiveAddress(key, regs) == WindowAnchor(v, index)
  {
    hide EffectiveAddress;
  }

  /** Two page-local accesses of one static segment: the anchor published by the
      first and the offset of the second give the second's own pointer. */
  lemma SegmentReferenceExact(v: View, first: Key, regs1: seq<Word>, offset1: int,
                              second: Key, regs2: seq<Word>, offset2: int)
    requires |regs1| == |regs2| == 16 && first.load == second.load
    requires Wrap(EffectiveAddress(first, regs1) - offset1) == Wrap(EffectiveAddress(second, regs2) - offset2)
    requires InPage(EffectiveAddress(second, regs2), second.size, EffectiveAddress(first, regs1))
    requires -PAGE <= offset2 - offset1 <= PAGE
    ensures Pointer(v, first, regs1) - offset1 + offset2 == Pointer(v, second, regs2)
  {
    hide EffectiveAddress;
    SameDistance(EffectiveAddress(first, regs1), offset1, EffectiveAddress(second, regs2), offset2);
  }

  /** Any validated access of a strided segment keeps the same page bias, and the
      address formed anew on it is the second access's own pointer. */
  lemma StridedSegmentExact(v: View, first: Key, regs1: seq<Word>, second: Key, regs2: seq<Word>)
    requires |regs1| == |regs2| == 16 && first.load == second.load
    requires InPage(EffectiveAddress(second, regs2), second.size, EffectiveAddress(first, regs1))
    ensures Pointer(v, first, regs1) - EffectiveAddress(first, regs1) ==
            Pointer(v, second, regs2) - EffectiveAddress(second, regs2)
  {
    hide EffectiveAddress;
  }

  lemma SameDistance(a: Word, x: int, b: Word, y: int)
    requires Wrap(a - x) == Wrap(b - y) && a / PAGE == b / PAGE && -PAGE <= y - x <= PAGE
    ensures b == a - x + y
  {
    WrapSame(a - x, b - y);
    var k :| a - x == b - y + k * WORD;
  }
}
