/**
 * One device's memory: an ordered map of disjoint address intervals, each with a buffer of
 * cells, and the flat address-to-cell map that it represents.
 */
module Slices {
  import opened Cells

  /** A contiguous run of cells: `buffer[i]` is the cell at address `range.start + i`. */
  datatype Slice = Slice(range: Range, buffer: seq<Cell>) {
    predicate Contains(r: Range) { range.start <= r.start && r.end <= range.end }
  }

  type Device = map<Range, Slice>

  type Flat = imap<nat, Cell>

  ghost predicate Keyed(m: Device) {
    forall r :: r in m ==> m[r].range == r && |m[r].buffer| == Length(r)
  }

  ghost predicate Disjoint(m: Device) {
    forall r, s, a: nat :: r in m && s in m && r.Has(a) && s.Has(a) ==> r == s
  }

  /** Representation invariant; it admits empty slices, which hold no address. */
  ghost predicate Valid(m: Device) {
    Keyed(m) && Disjoint(m)
  }

  ghost predicate Covered(m: Device, a: nat) {
    exists r :: r in m && r.Has(a)
  }

  ghost function Owner(m: Device, a: nat): (r: Range)
    requires Covered(m, a)
    ensures r in m && r.Has(a)
  {
    var r :| r in m && r.Has(a); r
  }

  ghost function View(m: Device): (f: Flat)
    requires Valid(m)
    ensures forall a: nat :: a in f <==> Covered(m, a)
    ensures forall r, a: nat :: r in m && r.Has(a) ==> a in f && f[a] == m[r].buffer[a - r.start]
  {
    imap a: nat | Covered(m, a) :: m[Owner(m, a)].buffer[a - Owner(m, a).start]
  }

  // ---------- Iteration order ----------

  ghost predicate Ascending(ks: seq<Range>) {
    forall i, j :: 0 <= i < j < |ks| ==> Before(ks[i], ks[j])
  }

  method LeastKey(s: set<Range>) returns (k: Range)
    requires s != {}
    ensures k in s && forall r :: r in s && r != k ==> Before(k, r)
  {
    var rest := s;
    k :| k in rest;
    rest := rest - {k};
    while rest != {}
      invariant rest <= s && k in s
      invariant forall r :: r in s && r !in rest && r != k ==> Before(k, r)
    {
      var r :| r in rest;
      rest := rest - {r};
      if Before(r, k) { k := r; }
    }
  }

  /** The keys in the order an ordered map hands them out. */
  method Keys(m: Device) returns (ks: seq<Range>)
    ensures Ascending(ks)
    ensures forall r :: r in ks <==> r in m
  {
    ks := [];
    var rest := m.Keys;
    while rest != {}
      invariant rest <= m.Keys
      invariant Ascending(ks)
      invariant forall r :: r in m <==> r in ks || r in rest
      invariant forall r, s :: r in ks && s in rest ==> Before(r, s)
    {
      var k := LeastKey(rest);
      rest := rest - {k};
      ks := ks + [k];
    }
  }
}
