/**
 * Declaring address ranges. The specification speaks of the flat map only: a cell's fate
 * depends on how many of the declared ranges cover its address, in no particular order.
 */
module Declaration {
  import opened Basics
  import opened Cells
  import opened Slices

  // ---------- Specification on the flat map ----------

  /** How many of `rs` cover address `a`. */
  ghost function Count(rs: seq<Range>, a: nat): nat {
    if rs == [] then 0 else Count(rs[..|rs|-1], a) + (if rs[|rs|-1].Has(a) then 1 else 0)
  }

  /** Whether an existing cell tolerates being covered by `n` declared ranges of one kind. */
  predicate Tolerates(c: Cell, kind: CellKind, n: nat) {
    n == 0 ||
    (c.kind.ty == kind.ty &&
     (c.kind.access == kind.access || (n == 1 && c.kind.access != ReadWrite && kind.access != ReadWrite)))
  }

  ghost predicate Declarable(f: Flat, kind: CellKind, rs: seq<Range>) {
    forall a: nat :: a in f ==> Tolerates(f[a], kind, Count(rs, a))
  }

  function DeclaredCell(prior: Option<Cell>, kind: CellKind, n: nat): Cell {
    match prior
    case None => Cell(kind, 0)
    case Some(c) =>
      if n == 0 || c.kind.access == kind.access then c else c.(kind := CellKind(c.kind.ty, ReadWrite))
  }

  ghost function Lookup(f: Flat, a: nat): Option<Cell> {
    if a in f then Some(f[a]) else None
  }

  ghost function Declared(f: Flat, kind: CellKind, rs: seq<Range>): Flat {
    imap a: nat | a in f || Count(rs, a) > 0 :: DeclaredCell(Lookup(f, a), kind, Count(rs, a))
  }

  // ---------- One range ----------

  predicate Compatible(c: Cell, kind: CellKind) {
    c.kind.ty == kind.ty && Widen(c.kind.access, kind.access).Some?
  }

  ghost predicate Fits(f: Flat, kind: CellKind, r: Range) {
    forall a: nat :: r.Has(a) && a in f ==> Compatible(f[a], kind)
  }

  function Widened(c: Cell, kind: CellKind): (w: Cell) {
    match Widen(c.kind.access, kind.access)
    case Some(x) => c.(kind := CellKind(c.kind.ty, x))
    case None => c
  }

  ghost function AddedCell(f: Flat, kind: CellKind, r: Range, a: nat): Cell {
    if a !in f then Cell(kind, 0) else if r.Has(a) then Widened(f[a], kind) else f[a]
  }

  ghost function Added(f: Flat, kind: CellKind, r: Range): Flat {
    imap a: nat | a in f || r.Has(a) ::
      AddedCell(f, kind, r, a)
  }

  lemma DeclaredNone(f: Flat, kind: CellKind)
    ensures Declarable(f, kind, []) && Declared(f, kind, []) == f
  {
  }

  /** Declaring one more range acts on the flat map exactly as one more covering range. */
  lemma DeclaredSnoc(f: Flat, kind: CellKind, rs: seq<Range>, r: Range)
    requires Declarable(f, kind, rs)
    ensures Declarable(f, kind, rs + [r]) <==> Fits(Declared(f, kind, rs), kind, r)
    ensures Declarable(f, kind, rs + [r]) ==>
              Declared(f, kind, rs + [r]) == Added(Declared(f, kind, rs), kind, r)
  {
    var g := Declared(f, kind, rs);
    assert forall a: nat :: Count(rs + [r], a) == Count(rs, a) + (if r.Has(a) then 1 else 0) by {
      assert (rs + [r])[..|rs|] == rs;
    }
    if Fits(g, kind, r) {
      forall a: nat | a in f ensures Tolerates(f[a], kind, Count(rs + [r], a)) {
        assert a in g;
      }
    }
    if Declarable(f, kind, rs + [r]) {
      forall a: nat | r.Has(a) && a in g
        ensures Compatible(g[a], kind)
      {
        if a in f { assert Tolerates(f[a], kind, Count(rs + [r], a)); }
      }
    }
  }

  // ---------- The intervals a range absorbs ----------

  ghost predicate Absorbs(m: Device, r: Range, ts: seq<Range>) {
    && Ascending(ts)
    && (forall t :: t in ts <==> t in m && Intersect(r, t).Some?)
  }

  method Targets(m: Device, r: Range) returns (ts: seq<Range>)
    ensures Absorbs(m, r, ts)
  {
    var ks := Keys(m);
    ts := [];
    for i := 0 to |ks|
      invariant Ascending(ts)
      invariant forall t :: t in ts <==> t in ks[..i] && Intersect(r, t).Some?
    {
      assert ks[..i+1] == ks[..i] + [ks[i]];
      if Intersect(r, ks[i]).Some? {
        forall j | 0 <= j < |ts| ensures Before(ts[j], ks[i]) {
          assert ts[j] in ts;
          var k :| 0 <= k < i && ks[k] == ts[j];
        }
        ts := ts + [ks[i]];
      }
    }
    assert ks[..|ks|] == ks;
  }

  ghost predicate Spans(m: Device, r: Range, ts: seq<Range>, whole: Range) {
    && (forall k, a: nat :: k in m && k !in ts && whole.Has(a) ==> !k.Has(a))
    && (forall t, a: nat :: t in ts && t.Has(a) ==> whole.Has(a) && t in m)
    && (forall a: nat :: r.Has(a) ==> whole.Has(a))
    && (forall a: nat :: whole.Has(a) ==> r.Has(a) || Covered(m, a))
  }

  lemma UnionBounds(m: Device, r: Range, ts: seq<Range>)
    requires Valid(m) && Absorbs(m, r, ts) && ts != []
    ensures forall t :: t in ts ==> ts[0].start <= t.start <= t.end <= ts[|ts|-1].end
  {
    var last := ts[|ts|-1];
    forall t | t in ts ensures ts[0].start <= t.start <= t.end <= last.end {
      var i :| 0 <= i < |ts| && ts[i] == t;
      assert last.Has(last.start);
      assert t.end > last.end ==> t.Has(last.start);
    }
  }

  /** The union of a range and the intervals it absorbs is one gap-free interval of its own. */
  lemma Union(m: Device, r: Range, ts: seq<Range>)
    requires Valid(m) && Absorbs(m, r, ts) && ts != []
    ensures var s, e := Min(r.start, ts[0].start), Max(r.end, ts[|ts|-1].end);
      Spans(m, r, ts, Range(s, e)) && forall t :: t in ts ==> s <= t.start <= t.end <= e
  {
    var s, e := Min(r.start, ts[0].start), Max(r.end, ts[|ts|-1].end);
    var first, last := ts[0], ts[|ts|-1];
    assert first in ts && last in ts;
    UnionBounds(m, r, ts);
    NoGap(r, first, last);
    forall k, a: nat | k in m && k !in ts && Range(s, e).Has(a) ensures !k.Has(a) {
      assert k.Has(a) && r.Has(a) ==> Intersect(r, k).Some?;
    }
  }

  lemma NoGap(r: Range, first: Range, last: Range)
    requires Intersect(r, first).Some? && Intersect(r, last).Some?
    ensures forall a: nat :: Min(r.start, first.start) <= a < Max(r.end, last.end) ==> r.Has(a) || first.Has(a) || last.Has(a)
  {
  }

  // ---------- Implementation ----------

  method Splice(buffer: seq<Cell>, offset: nat, cells: seq<Cell>) returns (out: seq<Cell>)
    requires offset + |cells| <= |buffer|
    ensures |out| == |buffer|
    ensures forall i :: 0 <= i < |out| ==>
              out[i] == if offset <= i < offset + |cells| then cells[i - offset] else buffer[i]
  {
    out := buffer;
    for i := 0 to |cells|
      invariant |out| == |buffer|
      invariant forall j :: 0 <= j < |out| ==>
                  out[j] == if offset <= j < offset + i then cells[j - offset] else buffer[j]
    {
      out := out[offset + i := cells[i]];
    }
  }

  /** The cell an absorbing interval holds before widening. */
  ghost function Base(f: Flat, kind: CellKind, a: nat): Cell {
    if a in f then f[a] else Cell(kind, 0)
  }

  /** Takes the absorbed intervals out of the map and copies their cells to one zeroed buffer. */
  method Absorb(m: Device, kind: CellKind, ts: seq<Range>, whole: Range)
    returns (rest: Device, buffer: seq<Cell>)
    requires Valid(m) && Ascending(ts)
    requires forall t :: t in ts ==> t in m && whole.start <= t.start <= t.end <= whole.end
    requires forall k, a: nat :: k in m && k !in ts && whole.Has(a) ==> !k.Has(a)
    ensures rest == map k | k in m && k !in ts :: m[k]
    ensures |buffer| == Length(whole)
    ensures forall a: nat :: whole.Has(a) ==> buffer[a - whole.start] == Base(View(m), kind, a)
  {
    rest := m;
    buffer := seq(Length(whole), _ => Cell(kind, 0));
    for n := 0 to |ts|
      invariant rest == map k | k in m && k !in ts[..n] :: m[k]
      invariant |buffer| == Length(whole)
      invariant forall a: nat :: whole.Has(a) && (forall t :: t in ts[..n] ==> !t.Has(a)) ==>
                  buffer[a - whole.start] == Cell(kind, 0)
      invariant forall t, a: nat :: t in ts[..n] && t.Has(a) ==>
                  buffer[a - whole.start] == m[t].buffer[a - t.start]
    {
      var t := ts[n];
      assert ts[..n+1] == ts[..n] + [t];
      assert t in ts && t !in ts[..n];
      buffer := Splice(buffer, t.start - whole.start, rest[t].buffer);
      rest := rest - {t};
      forall u, a: nat | u in ts[..n+1] && u.Has(a)
        ensures buffer[a - whole.start] == m[u].buffer[a - u.start]
      {
        if u != t { assert u in ts && !t.Has(a); }
      }
    }
    assert ts[..|ts|] == ts;
    forall a: nat | whole.Has(a) ensures buffer[a - whole.start] == Base(View(m), kind, a) {
      if Covered(m, a) {
        assert Owner(m, a) in ts;
      } else {
        assert forall t :: t in ts ==> !t.Has(a);
      }
    }
  }

  /** Widens `buffer[lo..hi]` in place, stopping at the first cell that refuses. */
  method WidenCells(buffer: seq<Cell>, lo: nat, hi: nat, kind: CellKind) returns (ok: bool, out: seq<Cell>)
    requires lo <= hi <= |buffer|
    ensures ok <==> forall i :: lo <= i < hi ==>
                      Compatible(buffer[i], kind)
    ensures ok ==> |out| == |buffer| && forall i :: 0 <= i < |out| ==>
                      out[i] == if lo <= i < hi then Widened(buffer[i], kind) else buffer[i]
  {
    out := buffer;
    for i := lo to hi
      invariant |out| == |buffer|
      invariant forall j :: lo <= j < i ==>
                  Compatible(buffer[j], kind)
      invariant forall j :: 0 <= j < |out| ==>
                  out[j] == if lo <= j < i then Widened(buffer[j], kind) else buffer[j]
    {
      if out[i].kind.ty != kind.ty { return false, out; }
      match Widen(out[i].kind.access, kind.access)
      case None => return false, out;
      case Some(access) =>
        out := out[i := out[i].(kind := CellKind(out[i].kind.ty, access))];
    }
    ok := true;
  }

  ghost predicate Overlap(r: Range, ts: seq<Range>, a: nat) {
    r.Has(a) && exists t :: t in ts && t.Has(a)
  }

  /** `buffer` is `base` with every cell under `r` and one of `ts` widened, and all of those agreed to it. */
  ghost predicate WidenedUnder(r: Range, ts: seq<Range>, kind: CellKind, whole: Range, base: seq<Cell>, buffer: seq<Cell>)
    requires |base| == Length(whole)
  {
    && |buffer| == |base|
    && (forall a: nat :: whole.Has(a) && Overlap(r, ts, a) ==> Compatible(base[a - whole.start], kind))
    && (forall a: nat :: whole.Has(a) ==>
          buffer[a - whole.start] == if Overlap(r, ts, a) then Widened(base[a - whole.start], kind)
                                     else base[a - whole.start])
  }

  lemma OverlapSnoc(r: Range, ts: seq<Range>, t: Range)
    ensures forall a: nat :: Overlap(r, ts + [t], a) <==> Overlap(r, ts, a) || (r.Has(a) && t.Has(a))
  {
  }

  /** Widens the overlap of `r` with one more absorbed interval. */
  method WidenTarget(kind: CellKind, r: Range, ghost ts: seq<Range>, t: Range, whole: Range,
                     ghost base: seq<Cell>, buffer: seq<Cell>)
    returns (ok: bool, out: seq<Cell>)
    requires |base| == Length(whole) && WidenedUnder(r, ts, kind, whole, base, buffer)
    requires whole.start <= t.start <= t.end <= whole.end
    requires forall a: nat :: t.Has(a) ==> !Overlap(r, ts, a)
    ensures ok ==> WidenedUnder(r, ts + [t], kind, whole, base, out)
    ensures !ok ==> exists a: nat :: whole.Has(a) && r.Has(a) && t.Has(a) && !Compatible(base[a - whole.start], kind)
  {
    OverlapSnoc(r, ts, t);
    var o := Intersect(r, t);
    if o.None? { return true, buffer; }
    var rg := o.value;
    assert rg.Has(rg.start) && rg.Has(rg.end - 1);
    assert forall a: nat :: rg.Has(a) ==> whole.Has(a) && t.Has(a) && buffer[a - whole.start] == base[a - whole.start];
    ok, out := WidenCells(buffer, rg.start - whole.start, rg.end - whole.start, kind);
    if !ok {
      ghost var i :| rg.start - whole.start <= i < rg.end - whole.start && !Compatible(buffer[i], kind);
      assert rg.Has(whole.start + i);
    }
  }

  /** Widens the part of each absorbed interval that `r` overlaps. */
  method WidenTargets(kind: CellKind, r: Range, ts: seq<Range>, whole: Range, base: seq<Cell>)
    returns (ok: bool, buffer: seq<Cell>)
    requires |base| == Length(whole)
    requires forall t :: t in ts ==> whole.start <= t.start <= t.end <= whole.end
    requires forall i, j, a: nat :: 0 <= i < j < |ts| ==> !(ts[i].Has(a) && ts[j].Has(a))
    ensures ok ==> WidenedUnder(r, ts, kind, whole, base, buffer)
    ensures !ok ==> exists a: nat :: whole.Has(a) && Overlap(r, ts, a) && !Compatible(base[a - whole.start], kind)
  {
    buffer := base;
    for n := 0 to |ts|
      invariant WidenedUnder(r, ts[..n], kind, whole, base, buffer)
    {
      assert ts[n] in ts;
      forall a: nat | ts[n].Has(a) ensures !Overlap(r, ts[..n], a) {
      }
      ok, buffer := WidenTarget(kind, r, ts[..n], ts[n], whole, base, buffer);
      if !ok { return; }
      assert ts[..n] + [ts[n]] == ts[..n+1];
    }
    assert ts[..|ts|] == ts;
    ok := true;
  }

  /** The device after the absorbed intervals make way for one spanning `whole`. */
  function Installed(m: Device, ts: seq<Range>, whole: Range, buffer: seq<Cell>): Device {
    (map k | k in m && k !in ts :: m[k])[whole := Slice(whole, buffer)]
  }

  lemma InstalledValid(m: Device, r: Range, ts: seq<Range>, whole: Range, buffer: seq<Cell>)
    requires Valid(m) && Spans(m, r, ts, whole) && |buffer| == Length(whole)
    ensures Valid(Installed(m, ts, whole, buffer))
    ensures forall a: nat :: Covered(Installed(m, ts, whole, buffer), a) <==> r.Has(a) || Covered(m, a)
  {
    var m' := Installed(m, ts, whole, buffer);
    forall a: nat ensures Covered(m', a) <==> r.Has(a) || Covered(m, a) {
      if whole.Has(a) {
        assert whole in m';
      } else if Covered(m, a) {
        assert Owner(m, a) in m';
      }
    }
  }

  lemma InstalledCell(m: Device, ts: seq<Range>, whole: Range, buffer: seq<Cell>, a: nat)
    requires Valid(m) && |buffer| == Length(whole)
    requires Valid(Installed(m, ts, whole, buffer))
    requires forall t, a: nat :: t in ts && t.Has(a) ==> whole.Has(a) && t in m
    ensures whole.Has(a) ==> Lookup(View(Installed(m, ts, whole, buffer)), a) == Some(buffer[a - whole.start])
    ensures !whole.Has(a) && Covered(m, a) ==> Lookup(View(Installed(m, ts, whole, buffer)), a) == Some(View(m)[a])
  {
    var m' := Installed(m, ts, whole, buffer);
    if whole.Has(a) {
      assert whole in m';
    } else if Covered(m, a) {
      var k := Owner(m, a);
      assert k in m' && m'[k] == m[k];
    }
  }

  /** Replacing the absorbed intervals by the widened union refines the flat declaration. */
  lemma InstalledView(m: Device, kind: CellKind, r: Range, ts: seq<Range>, whole: Range, buffer: seq<Cell>)
    requires Valid(m) && Spans(m, r, ts, whole) && |buffer| == Length(whole)
    requires forall a: nat :: whole.Has(a) ==> buffer[a - whole.start] == AddedCell(View(m), kind, r, a)
    ensures Valid(Installed(m, ts, whole, buffer))
    ensures View(Installed(m, ts, whole, buffer)) == Added(View(m), kind, r)
  {
    InstalledValid(m, r, ts, whole, buffer);
    var m' := Installed(m, ts, whole, buffer);
    forall a: nat ensures Lookup(View(m'), a) == Lookup(Added(View(m), kind, r), a) {
      InstalledLookup(m, kind, r, ts, whole, buffer, a);
    }
    SameLookups(View(m'), Added(View(m), kind, r));
  }

  lemma InstalledLookup(m: Device, kind: CellKind, r: Range, ts: seq<Range>, whole: Range, buffer: seq<Cell>, a: nat)
    requires Valid(m) && Spans(m, r, ts, whole) && |buffer| == Length(whole)
    requires Valid(Installed(m, ts, whole, buffer))
    requires forall b: nat :: whole.Has(b) ==> buffer[b - whole.start] == AddedCell(View(m), kind, r, b)
    ensures Lookup(View(Installed(m, ts, whole, buffer)), a) == Lookup(Added(View(m), kind, r), a)
  {
    var m' := Installed(m, ts, whole, buffer);
    InstalledCell(m, ts, whole, buffer, a);
    if Covered(m', a) { assert Owner(m', a) == whole || Owner(m', a) in m; }
  }

  lemma SameLookups(f: Flat, g: Flat)
    requires forall a: nat :: Lookup(f, a) == Lookup(g, a)
    ensures f == g
  {
    assert forall a: nat :: (a in f <==> Lookup(f, a).Some?) && (a in g <==> Lookup(g, a).Some?);
    assert forall a: nat :: a in f ==> Lookup(f, a) == Some(f[a]) && Lookup(g, a) == Some(g[a]);
  }

  lemma OverlapCovered(m: Device, r: Range, ts: seq<Range>)
    requires Absorbs(m, r, ts)
    ensures forall a: nat :: Overlap(r, ts, a) <==> r.Has(a) && Covered(m, a)
  {
    forall a: nat | r.Has(a) && Covered(m, a) ensures Overlap(r, ts, a) {
      assert Intersect(r, Owner(m, a)).Some?;
    }
  }

  /** Declares one range: merges it with every interval it intersects. */
  method DeclareRange(m: Device, kind: CellKind, r: Range) returns (ok: bool, m': Device)
    requires Valid(m)
    ensures ok <==> Fits(View(m), kind, r)
    ensures ok ==> Valid(m') && m' != map[] && View(m') == Added(View(m), kind, r)
  {
    var ts := Targets(m, r);
    if ts == [] {
      var buffer := seq(Length(r), _ => Cell(kind, 0));
      m' := m[r := Slice(r, buffer)];
      assert forall a: nat :: r.Has(a) ==> !Covered(m, a);
      assert m' == Installed(m, ts, r, buffer);
      InstalledView(m, kind, r, ts, r, buffer);
      return true, m';
    }
    var start, end := Min(r.start, ts[0].start), Max(r.end, ts[|ts|-1].end);
    Union(m, r, ts);
    var whole := Range(start, end);
    var rest, base := Absorb(m, kind, ts, whole);
    ghost var f := View(m);
    OverlapCovered(m, r, ts);
    var buffer;
    ok, buffer := WidenTargets(kind, r, ts, whole, base);
    m' := rest[whole := Slice(whole, buffer)];
    if ok {
      InstalledView(m, kind, r, ts, whole, buffer);
      assert m' == Installed(m, ts, whole, buffer);
    }
  }

  // ---------- Several ranges ----------

  lemma CountConcat(p: seq<Range>, q: seq<Range>, a: nat)
    ensures Count(p + q, a) == Count(p, a) + Count(q, a)
  {
    if q == [] {
      assert p + q == p;
    } else {
      assert (p + q)[..|p + q|-1] == p + q[..|q|-1];
      CountConcat(p, q[..|q|-1], a);
    }
  }

  lemma Without(q: seq<Range>, j: nat)
    requires j < |q|
    ensures multiset(q[..j] + q[j+1..]) == multiset(q) - multiset{q[j]}
  {
    assert q == q[..j] + ([q[j]] + q[j+1..]);
  }

  lemma {:induction false} CountPermutation(p: seq<Range>, q: seq<Range>, a: nat)
    requires multiset(p) == multiset(q)
    ensures Count(p, a) == Count(q, a)
  {
    if p == [] {
      assert |q| == |multiset(q)| == 0;
    } else {
      var front, r := p[..|p|-1], p[|p|-1];
      assert p == front + [r];
      assert r in multiset(q);
      var j :| 0 <= j < |q| && q[j] == r;
      assert q == q[..j] + [r] + q[j+1..];
      Without(p, |p|-1);
      Without(q, j);
      assert p[..|p|-1] + p[|p|..] == front;
      CountPermutation(front, q[..j] + q[j+1..], a);
      CountConcat(q[..j], q[j+1..], a);
      CountConcat(q[..j] + [r], q[j+1..], a);
      CountConcat(q[..j], [r], a);
      CountConcat(front, [r], a);
    }
  }

  /** Every order of the declared ranges has the same outcome and the same flat result. */
  lemma OrderIrrelevant(f: Flat, kind: CellKind, p: seq<Range>, q: seq<Range>)
    requires multiset(p) == multiset(q)
    ensures Declarable(f, kind, p) <==> Declarable(f, kind, q)
    ensures Declared(f, kind, p) == Declared(f, kind, q)
  {
    forall a: nat ensures Count(p, a) == Count(q, a) {
      CountPermutation(p, q, a);
    }
  }

  lemma DeclarablePrefix(f: Flat, kind: CellKind, rs: seq<Range>, n: nat)
    requires n <= |rs| && Declarable(f, kind, rs)
    ensures Declarable(f, kind, rs[..n])
  {
    forall a: nat | a in f ensures Tolerates(f[a], kind, Count(rs[..n], a)) {
      assert rs == rs[..n] + rs[n..];
      CountConcat(rs[..n], rs[n..], a);
    }
  }

  /**
   * Repeating an accepted declaration is accepted exactly when the first one widened no cell: a
   * widened cell is read/write and refuses either single direction afterwards.
   */
  lemma Redeclare(f: Flat, kind: CellKind, rs: seq<Range>)
    requires Declarable(f, kind, rs)
    ensures Declarable(Declared(f, kind, rs), kind, rs) <==>
              forall a: nat :: a in f && Count(rs, a) > 0 ==> f[a].kind.access == kind.access
  {
    var g := Declared(f, kind, rs);
    if Declarable(g, kind, rs) {
      forall a: nat | a in f && Count(rs, a) > 0 ensures f[a].kind.access == kind.access {
        assert a in g && Tolerates(g[a], kind, Count(rs, a)) && Tolerates(f[a], kind, Count(rs, a));
      }
    }
  }

  /** The least case: a read range over a write-only cell is accepted once, but neither again nor twice in one call. */
  lemma RedeclareExample()
    ensures var f: Flat := imap[0 := Cell(CellKind(Register, Access.Write), 0)];
      var kind, r := CellKind(Register, Access.Read), Range(0, 1);
      && Declarable(f, kind, [r])
      && !Declarable(Declared(f, kind, [r]), kind, [r])
      && !Declarable(f, kind, [r, r])
  {
    var f: Flat := imap[0 := Cell(CellKind(Register, Access.Write), 0)];
    var kind, r: Range := CellKind(Register, Access.Read), Range(0, 1);
    CountConcat([], [r], 0);
    CountConcat([r], [r], 0);
    assert [] + [r] == [r] && [r] + [r] == [r, r] && [r][..0] == [];
    assert Count([r], 0) == 1 && Count([r, r], 0) == 2;
    Redeclare(f, kind, [r]);
  }

  ghost predicate StartsSorted(rs: seq<Range>) {
    forall i, j :: 0 <= i < j < |rs| ==> rs[i].start <= rs[j].start
  }

  method InsertionPoint(rs: seq<Range>, r: Range) returns (i: nat)
    requires StartsSorted(rs)
    ensures i <= |rs|
    ensures forall j :: 0 <= j < i ==> rs[j].start <= r.start
    ensures forall j :: i <= j < |rs| ==> r.start < rs[j].start
  {
    i := |rs|;
    while 0 < i && r.start < rs[i-1].start
      invariant 0 <= i <= |rs|
      invariant forall j :: i <= j < |rs| ==> r.start < rs[j].start
    {
      i := i - 1;
    }
  }

  lemma InsertedSorted(rs: seq<Range>, i: nat, r: Range)
    requires StartsSorted(rs) && i <= |rs|
    requires forall j :: 0 <= j < i ==> rs[j].start <= r.start
    requires forall j :: i <= j < |rs| ==> r.start < rs[j].start
    ensures StartsSorted(rs[..i] + [r] + rs[i..])
  {
    var out := rs[..i] + [r] + rs[i..];
    assert forall k :: 0 <= k < |out| ==> out[k] == if k < i then rs[k] else if k == i then r else rs[k-1];
  }

  lemma InsertedSame(rs: seq<Range>, i: nat, r: Range)
    requires i <= |rs|
    ensures multiset(rs[..i] + [r] + rs[i..]) == multiset(rs) + multiset{r}
  {
    assert rs == rs[..i] + rs[i..];
  }

  method SortByStart(rs: seq<Range>) returns (out: seq<Range>)
    ensures StartsSorted(out) && multiset(out) == multiset(rs)
  {
    out := [];
    for n := 0 to |rs|
      invariant StartsSorted(out) && multiset(out) == multiset(rs[..n])
    {
      assert rs[..n+1] == rs[..n] + [rs[n]];
      var i := InsertionPoint(out, rs[n]);
      InsertedSorted(out, i, rs[n]);
      InsertedSame(out, i, rs[n]);
      out := out[..i] + [rs[n]] + out[i..];
    }
    assert rs[..|rs|] == rs;
  }

  /** `m` is what declaring `rs` makes of a device that represented `f`. */
  ghost predicate Represents(m: Device, f: Flat, kind: CellKind, rs: seq<Range>) {
    Valid(m) && Declarable(f, kind, rs) && View(m) == Declared(f, kind, rs)
  }

  lemma TakeSnoc<T>(s: seq<T>, n: nat)
    requires n < |s|
    ensures s[..n+1] == s[..n] + [s[n]]
  {
  }

  method DeclareNext(m: Device, ghost f: Flat, kind: CellKind, rs: seq<Range>, n: nat)
    returns (ok: bool, m': Device)
    requires n < |rs| && Represents(m, f, kind, rs[..n])
    ensures ok ==> m' != map[] && Represents(m', f, kind, rs[..n+1])
    ensures !ok ==> !Declarable(f, kind, rs)
  {
    TakeSnoc(rs, n);
    DeclaredSnoc(f, kind, rs[..n], rs[n]);
    ok, m' := DeclareRange(m, kind, rs[n]);
    if Declarable(f, kind, rs) { DeclarablePrefix(f, kind, rs, n + 1); }
  }

  /** Declares all of `ranges` on a private copy of the device. */
  method DeclareRanges(m: Device, kind: CellKind, ranges: seq<Range>) returns (ok: bool, m': Device)
    requires Valid(m)
    ensures ok <==> Declarable(View(m), kind, ranges)
    ensures ok ==> Valid(m') && View(m') == Declared(View(m), kind, ranges)
    ensures ok ==> (m' == map[] <==> m == map[] && ranges == [])
  {
    ghost var f := View(m);
    var rs := SortByStart(ranges);
    OrderIrrelevant(f, kind, rs, ranges);
    assert |rs| == |multiset(rs)| == |multiset(ranges)| == |ranges|;
    m' := m;
    DeclaredNone(f, kind);
    for n := 0 to |rs|
      invariant m' == map[] <==> m == map[] && n == 0
      invariant Represents(m', f, kind, rs[..n])
    {
      var next;
      ok, next := DeclareNext(m', f, kind, rs, n);
      if !ok { return; }
      m' := next;
    }
    assert rs[..|rs|] == rs;
    ok := true;
  }
}
