/** Typed, access-controlled memory cells and the half-open address ranges that hold them. */
module Cells {
  import opened Basics

  /** One 16-bit register word. */
  type Word = w: int | 0 <= w < 0x1_0000

  datatype CellType = Coil | Register

  datatype Access = Read | Write | ReadWrite

  datatype CellKind = CellKind(ty: CellType, access: Access)

  datatype Cell = Cell(kind: CellKind, value: Word) {
    predicate AcceptsWrite(ty: CellType) {
      kind.ty == ty && (kind.access == Access.Write || kind.access == ReadWrite)
    }

    predicate AcceptsRead(ty: CellType) {
      kind.ty == ty && (kind.access == Access.Read || kind.access == ReadWrite)
    }

    function TrySetValue(v: Word): Cell {
      if kind.access != Access.Read then this.(value := v) else this
    }

    function TryValue(): Option<Word> {
      if kind.access != Access.Write then Some(value) else None
    }
  }

  /** How a declaration of access `kind` changes a cell of access `cell`; `None` is a refusal. */
  function Widen(cell: Access, kind: Access): Option<Access> {
    if cell == kind then Some(cell)
    else match (cell, kind)
      case (Read, Write) => Some(ReadWrite)
      case (Write, Read) => Some(ReadWrite)
      case _ => None
  }

  datatype RangeBase = Range(start: nat, end: nat) {
    predicate Has(a: nat) { start <= a < end }
  }

  /** A half-open address range `[start, end)`. */
  type Range = r: RangeBase | r.start <= r.end witness Range(0, 0)

  function NewRange(start: nat, size: nat): Range { Range(start, start + size) }

  function Length(r: Range): nat { r.end - r.start }

  function Intersect(r: Range, s: Range): (o: Option<Range>)
    ensures o.None? ==> forall a :: !(r.Has(a) && s.Has(a))
    ensures o.Some? ==> o.value.start < o.value.end
    ensures o.Some? ==> forall a :: o.value.Has(a) <==> r.Has(a) && s.Has(a)
  {
    var start := Max(r.start, s.start);
    var end := Min(r.end, s.end);
    if start >= end then None else Some(NewRange(start, end - start))
  }

  /** The ordering of ranges as map keys: by start, then by end. */
  predicate Before(r: Range, s: Range) {
    r.start < s.start || (r.start == s.start && r.end < s.end)
  }
}
