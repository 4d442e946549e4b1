/**
 * What any run of store writes keeps, and what it leaves in each cell: writes never move a
 * declared region or its access, so which writes land where is fixed by the declarations.
 */
module History {
  import opened Basics
  import opened Cells
  import opened Slices
  import opened Walk
  import opened FlatStore

  /** Same keys, same addresses, same cell kinds. */
  ghost predicate SameShape<K>(s: Store<K>, t: Store<K>) {
    && s.Keys == t.Keys
    && (forall id, a: nat :: id in s ==> (a in s[id] <==> a in t[id]))
    && (forall id, a: nat :: id in s && a in s[id] ==> s[id][a].kind == t[id][a].kind)
  }

  lemma AfterShape<K>(s: Store<K>, op: Op<K>)
    ensures SameShape(s, After(s, op))
  {
  }

  lemma SameCoveredEnd(f: Flat, g: Flat, r: Range)
    requires forall a: nat :: a in f <==> a in g
    ensures CoveredEnd(f, r) == CoveredEnd(g, r)
  {
    CoveredEndUnique(f, r, CoveredEnd(g, r));
  }

  lemma ShapeDecides<K>(s: Store<K>, t: Store<K>, op: Op<K>)
    requires SameShape(s, t)
    ensures Succeeds(s, op) <==> Succeeds(t, op)
  {
    if op.id in s {
      var f, g := s[op.id], t[op.id];
      if op.CheckedWrite? {
        assert AllAllow(f, op.range, op.ty, Access.Write) <==> AllAllow(g, op.range, op.ty, Access.Write);
      } else {
        assert Covers(f, op.range) <==> Covers(g, op.range);
      }
    }
  }

  /** Whether `op` stores a word at address `a` of device `id`, judged by the declarations alone. */
  ghost predicate Lands<K>(s: Store<K>, op: Op<K>, id: K, a: nat) {
    && op.id == id && id in s && op.range.Has(a) && |op.values| == Length(op.range)
    && (if op.CheckedWrite? then Succeeds(s, op) else a < CoveredEnd(s[id], op.range))
  }

  lemma ShapeLands<K>(s: Store<K>, t: Store<K>, op: Op<K>, id: K, a: nat)
    requires SameShape(s, t)
    ensures Lands(s, op, id, a) <==> Lands(t, op, id, a)
  {
    ShapeDecides(s, t, op);
    if op.id in s { SameCoveredEnd(s[op.id], t[op.id], op.range); }
  }

  ghost function CellOf<K>(s: Store<K>, id: K, a: nat): Option<Cell> {
    if id in s && a in s[id] then Some(s[id][a]) else None
  }

  ghost function Holding(c: Option<Cell>, v: Word): Option<Cell> {
    if c.Some? then Some(c.value.(value := v)) else None
  }

  lemma StepCell<K>(s: Store<K>, op: Op<K>, id: K, a: nat)
    ensures CellOf(After(s, op), id, a) ==
              if Lands(s, op, id, a) then Holding(CellOf(s, id, a), op.values[a - op.range.start]) else CellOf(s, id, a)
  {
    if op.CheckedWrite? && Succeeds(s, op) {
      SucceedsFully(s, op);
      CoveredEndUnique(s[op.id], op.range, op.range.end);
    }
  }

  /** The word that the last landing write of `ops` left at an address, if any landed there. */
  ghost predicate IsLast<K>(s: Store<K>, ops: seq<Op<K>>, id: K, a: nat, j: nat) {
    j < |ops| && Lands(s, ops[j], id, a) && forall k :: j < k < |ops| ==> !Lands(s, ops[k], id, a)
  }

  lemma {:induction false} Untouched<K>(s: Store<K>, s0: Store<K>, ops: seq<Op<K>>, id: K, a: nat)
    requires SameShape(s0, s)
    requires forall k :: 0 <= k < |ops| ==> !Lands(s0, ops[k], id, a)
    ensures CellOf(Final(s, ops), id, a) == CellOf(s, id, a)
  {
    if ops != [] {
      AfterShape(s, ops[0]);
      ShapeLands(s0, s, ops[0], id, a);
      StepCell(s, ops[0], id, a);
      Untouched(After(s, ops[0]), s0, ops[1..], id, a);
    }
  }

  lemma {:induction false} FinalConcat<K>(s: Store<K>, p: seq<Op<K>>, q: seq<Op<K>>)
    ensures Final(s, p + q) == Final(Final(s, p), q)
  {
    if p == [] {
      assert p + q == q;
    } else {
      assert (p + q)[1..] == p[1..] + q;
      FinalConcat(After(s, p[0]), p[1..], q);
    }
  }

  lemma {:induction false} EventsConcat<K>(s: Store<K>, p: seq<Op<K>>, q: seq<Op<K>>)
    ensures Events(s, p + q) == Events(s, p) + Events(Final(s, p), q)
  {
    if p == [] {
      assert p + q == q;
    } else {
      assert (p + q)[1..] == p[1..] + q;
      EventsConcat(After(s, p[0]), p[1..], q);
      Appended(Reported(s, p[0]), Events(After(s, p[0]), p[1..]), Events(Final(s, p), q));
    }
  }

  lemma FinalSplit<K>(s: Store<K>, ops: seq<Op<K>>, j: nat)
    requires j < |ops|
    ensures Final(s, ops) == Final(After(Final(s, ops[..j]), ops[j]), ops[j+1..])
  {
    assert ops == ops[..j] + ops[j..] && ops[j..][1..] == ops[j+1..];
    FinalConcat(s, ops[..j], ops[j..]);
  }

  lemma LastFrom<K>(s: Store<K>, ops: seq<Op<K>>, id: K, a: nat, j: nat)
    requires IsLast(s, ops, id, a, j)
    ensures CellOf(Final(s, ops), id, a) == Holding(CellOf(s, id, a), ops[j].values[a - ops[j].range.start])
  {
    var t := Final(s, ops[..j]);
    assert SameShape(s, t) by { FinalShape(s, ops[..j]); }
    assert CellOf(Final(s, ops), id, a) == CellOf(After(t, ops[j]), id, a) by {
      FinalSplit(s, ops, j);
      TailUntouched(s, t, ops, id, a, j);
    }
    assert CellOf(After(t, ops[j]), id, a) == Holding(CellOf(s, id, a), ops[j].values[a - ops[j].range.start]) by {
      LandedCell(s, t, ops[j], id, a);
    }
  }

  lemma TailUntouched<K>(s: Store<K>, t: Store<K>, ops: seq<Op<K>>, id: K, a: nat, j: nat)
    requires SameShape(s, t) && IsLast(s, ops, id, a, j)
    ensures CellOf(Final(After(t, ops[j]), ops[j+1..]), id, a) == CellOf(After(t, ops[j]), id, a)
  {
    assert SameShape(s, After(t, ops[j])) by { AfterShape(t, ops[j]); }
    Untouched(After(t, ops[j]), s, ops[j+1..], id, a);
  }

  lemma LandedCell<K>(s: Store<K>, t: Store<K>, op: Op<K>, id: K, a: nat)
    requires SameShape(s, t) && Lands(s, op, id, a)
    ensures CellOf(After(t, op), id, a) == Holding(CellOf(s, id, a), op.values[a - op.range.start])
  {
    ShapeLands(s, t, op, id, a);
    StepCell(t, op, id, a);
    SameHolding(s, t, id, a, op.values[a - op.range.start]);
  }

  lemma SameHolding<K>(s: Store<K>, t: Store<K>, id: K, a: nat, v: Word)
    requires SameShape(s, t)
    ensures Holding(CellOf(s, id, a), v) == Holding(CellOf(t, id, a), v)
  {
  }

  /**
   * After any run of writes each cell keeps its kind and holds the word of the last write that
   * landed on it, or its first word if none did.
   */
  lemma LastWriteWins<K>(s: Store<K>, ops: seq<Op<K>>, id: K, a: nat)
    ensures SameShape(s, Final(s, ops))
    ensures if exists k :: 0 <= k < |ops| && Lands(s, ops[k], id, a)
            then exists j: nat :: IsLast(s, ops, id, a, j) &&
                   CellOf(Final(s, ops), id, a) == Holding(CellOf(s, id, a), ops[j].values[a - ops[j].range.start])
            else CellOf(Final(s, ops), id, a) == CellOf(s, id, a)
  {
    FinalShape(s, ops);
    if exists k :: 0 <= k < |ops| && Lands(s, ops[k], id, a) {
      var j := FindLast(s, ops, id, a);
      LastFrom(s, ops, id, a, j);
    } else {
      Untouched(s, s, ops, id, a);
    }
  }

  lemma {:induction false} FinalShape<K>(s: Store<K>, ops: seq<Op<K>>)
    ensures SameShape(s, Final(s, ops))
  {
    if ops != [] {
      AfterShape(s, ops[0]);
      FinalShape(After(s, ops[0]), ops[1..]);
    }
  }

  lemma {:induction false} FindLast<K>(s: Store<K>, ops: seq<Op<K>>, id: K, a: nat) returns (j: nat)
    requires exists k :: 0 <= k < |ops| && Lands(s, ops[k], id, a)
    ensures IsLast(s, ops, id, a, j)
  {
    j := |ops| - 1;
    while !Lands(s, ops[j], id, a)
      invariant 0 <= j < |ops|
      invariant forall k :: j < k < |ops| ==> !Lands(s, ops[k], id, a)
      decreases j
    {
      assert j > 0;
      j := j - 1;
    }
  }

  /** No run of checked writes changes a read-only cell. */
  lemma ReadOnlyFixed<K>(s: Store<K>, ops: seq<Op<K>>, id: K, a: nat)
    requires CellOf(s, id, a).Some? && CellOf(s, id, a).value.kind.access == Access.Read
    requires forall k :: 0 <= k < |ops| ==> ops[k].CheckedWrite?
    ensures CellOf(Final(s, ops), id, a) == CellOf(s, id, a)
  {
    LastWriteWins(s, ops, id, a);
    assert forall ty :: !Allows(s[id][a], ty, Access.Write);
  }
}
