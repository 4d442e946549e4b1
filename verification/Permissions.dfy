/** What declared access permits: reading, writing or both, in terms of the declarations themselves. */
module Permissions {
  import opened Cells
  import opened Slices
  import opened Declaration
  import opened Walk
  import opened FlatStore

  /** A cell is readable unless it is write-only, writable unless it is read-only, and only as its own type. */
  lemma CellPermits(c: Cell, ty: CellType)
    ensures Allows(c, ty, Access.Read) <==> ty == c.kind.ty && c.kind.access != Access.Write
    ensures Allows(c, ty, Access.Write) <==> ty == c.kind.ty && c.kind.access != Access.Read
  {
    match c.kind.access
    case Read =>
    case Write =>
    case ReadWrite =>
  }

  /** What a declaration of `kind` permits on cells that are new. */
  predicate KindPermits(kind: CellKind, ty: CellType, access: Access) {
    ty == kind.ty && match access
      case Read => kind.access != Access.Write
      case Write => kind.access != Access.Read
      case ReadWrite => false
  }

  /** A fresh declaration is readable, or writable, in exactly the declared ranges, as the declared type and access say. */
  lemma FreshPermits(kind: CellKind, rs: seq<Range>, ty: CellType, r: Range, access: Access)
    requires access != ReadWrite
    ensures AllAllow(Declared(imap[], kind, rs), r, ty, access) <==>
              forall a: nat :: r.Has(a) ==> Count(rs, a) > 0 && KindPermits(kind, ty, access)
  {
    var f := Declared(imap[], kind, rs);
    forall a: nat ensures a in f && Allows(f[a], ty, access) <==> Count(rs, a) > 0 && KindPermits(kind, ty, access) {
      if a in f { CellPermits(f[a], ty); }
    }
  }

  /** Any declaration: an old cell covered once from the other direction permits both, any other keeps its own. */
  lemma DeclaredPermits(f: Flat, kind: CellKind, rs: seq<Range>, a: nat, ty: CellType)
    requires Declarable(f, kind, rs) && a in f
    ensures var g := Declared(f, kind, rs);
      && a in g
      && (Allows(g[a], ty, Access.Read) <==>
          ty == f[a].kind.ty && (f[a].kind.access != Access.Write || (Count(rs, a) > 0 && kind.access == Access.Read)))
      && (Allows(g[a], ty, Access.Write) <==>
          ty == f[a].kind.ty && (f[a].kind.access != Access.Read || (Count(rs, a) > 0 && kind.access == Access.Write)))
  {
    CellPermits(Declared(f, kind, rs)[a], ty);
    assert Tolerates(f[a], kind, Count(rs, a));
  }

  /** On a new key: declare, then read. The read succeeds exactly where the declaration permits it, and shows zeros. */
  lemma DeclareThenRead<K>(s: Store<K>, id: K, kind: CellKind, rs: seq<Range>, ty: CellType, r: Range)
    requires id !in s && rs != []
    ensures Declare(s, id, kind, rs).0
    ensures var t := Declare(s, id, kind, rs).1;
      && id in t
      && (CheckRead(t, id, ty, r).Ok? <==> forall a: nat :: r.Has(a) ==> Count(rs, a) > 0 && ty == kind.ty && kind.access != Access.Write)
      && (CheckWrite(t, id, ty, r).Ok? <==> forall a: nat :: r.Has(a) ==> Count(rs, a) > 0 && ty == kind.ty && kind.access != Access.Read)
      && (CheckRead(t, id, ty, r).Ok? ==> forall a: nat :: r.Has(a) ==> a in t[id] && t[id][a].value == 0)
  {
    assert DeviceOf(s, id) == imap[];
    FreshPermits(kind, rs, ty, r, Access.Read);
    FreshPermits(kind, rs, ty, r, Access.Write);
  }
}
