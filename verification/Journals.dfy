/**
 * The tap's journal of a run: what a store performing writes hands its tap, and exactly when that
 * journal, replayed or undone, tells the whole story although a forced write may tear.
 */
module Journals {
  import opened Basics
  import opened Cells
  import opened Walk
  import opened FlatStore
  import opened History
  import opened Memory

  // ---------- A store performing a list of writes ----------

  lemma OneMore<K>(s: Store<K>, ops: seq<Op<K>>, n: nat)
    requires n < |ops|
    ensures Final(s, ops[..n+1]) == After(Final(s, ops[..n]), ops[n])
    ensures Events(s, ops[..n+1]) == Events(s, ops[..n]) + Reported(Final(s, ops[..n]), ops[n])
  {
    var op, t := ops[n], Final(s, ops[..n]);
    assert ops[..n+1] == ops[..n] + [op];
    FinalConcat(s, ops[..n], [op]);
    EventsConcat(s, ops[..n], [op]);
    SingleOp(t, op);
  }

  lemma SingleOp<K>(s: Store<K>, op: Op<K>)
    ensures Final(s, [op]) == After(s, op) && Events(s, [op]) == Reported(s, op)
  {
    assert [op][1..] == [];
    assert Events(s, [op]) == Reported(s, op) + [];
  }

  /** One sourced write, checked or forced. */
  method WriteOne<K(==)>(memory: Memory<K>, op: Op<K>)
    requires memory.Valid()
    modifies memory
    ensures memory.Valid() && memory.Contents() == After(old(memory.Contents()), op)
    ensures memory.tap == if old(memory.tap).None? then None
                          else Some(old(memory.tap).value + Reported(old(memory.Contents()), op))
  {
    match op
    case CheckedWrite(source, id, ty, range, values) => var _ := memory.WriteFrom(source, id, ty, range, values);
    case ForcedWrite(source, id, range, values) => var _ := memory.WriteUncheckedFrom(source, id, range, values);
  }

  /** Write after write: the store and the tap's log move on together. */
  method WriteAll<K(==)>(memory: Memory<K>, ops: seq<Op<K>>)
    requires memory.Valid()
    modifies memory
    ensures memory.Valid() && memory.Contents() == Final(old(memory.Contents()), ops)
    ensures memory.tap == if old(memory.tap).None? then None
                          else Some(old(memory.tap).value + Events(old(memory.Contents()), ops))
    ensures old(memory.tap) == Some([]) && !Torn(old(memory.Contents()), ops) ==>
              && Replay(old(memory.Contents()), memory.tap.value) == memory.Contents()
              && Undo(memory.Contents(), memory.tap.value) == old(memory.Contents())
  {
    ghost var s, log := memory.Contents(), memory.tap;
    assert log.Some? ==> log.value + Events(s, ops[..0]) == log.value;
    for n := 0 to |ops|
      invariant memory.Valid() && memory.Contents() == Final(s, ops[..n])
      invariant memory.tap == if log.None? then None else Some(log.value + Events(s, ops[..n]))
    {
      OneMore(s, ops, n);
      WriteOne(memory, ops[n]);
      if log.Some? { Appended(log.value, Events(s, ops[..n]), Reported(Final(s, ops[..n]), ops[n])); }
    }
    assert ops[..|ops|] == ops;
    if log == Some([]) && !Torn(s, ops) {
      assert [] + Events(s, ops) == Events(s, ops);
      Journal(s, ops);
    }
  }

  // ---------- What a run leaves at an address ----------

  /** The word of the last write that landed there, judged by the declarations; else the first word. */
  ghost function LeftBy<K>(s: Store<K>, ops: seq<Op<K>>, id: K, a: nat): Word
    requires id in s && a in s[id]
  {
    if ops == [] then s[id][a].value else
      var op := ops[|ops|-1];
      if Lands(s, op, id, a) then op.values[a - op.range.start] else LeftBy(s, ops[..|ops|-1], id, a)
  }

  lemma {:induction false} FinalWord<K>(s: Store<K>, ops: seq<Op<K>>, id: K, a: nat)
    requires id in s && a in s[id]
    ensures CellOf(Final(s, ops), id, a) == Some(s[id][a].(value := LeftBy(s, ops, id, a)))
    decreases |ops|
  {
    if ops != [] {
      var n := |ops| - 1;
      var t := Final(s, ops[..n]);
      FinalWord(s, ops[..n], id, a);
      FinalShape(s, ops[..n]);
      OneMore(s, ops, n);
      assert ops[..n+1] == ops;
      ShapeLands(s, t, ops[n], id, a);
      StepCell(t, ops[n], id, a);
    }
  }

  lemma ShapeTransitive<K>(s: Store<K>, t: Store<K>, u: Store<K>)
    requires SameShape(s, t) && SameShape(t, u)
    ensures SameShape(s, u)
  {
  }

  lemma SameCells<K>(s: Store<K>, t: Store<K>)
    requires SameShape(s, t) && forall id, a: nat :: id in s && a in s[id] ==> CellOf(s, id, a) == CellOf(t, id, a)
    ensures s == t
  {
    forall id | id in s ensures s[id] == t[id] {
      forall a: nat | a in s[id] ensures s[id][a] == t[id][a] {
        assert CellOf(s, id, a) == CellOf(t, id, a);
      }
    }
  }

  // ---------- Replay ----------

  /** The writes that succeed, judged by the declarations: those the tap is told of. */
  ghost function Told<K>(s: Store<K>, ops: seq<Op<K>>): seq<Op<K>> {
    if ops == [] then [] else (if Succeeds(s, ops[0]) then [ops[0]] else []) + Told(s, ops[1..])
  }

  lemma StoredIsAfter<K>(u: Store<K>, op: Op<K>)
    requires Succeeds(u, op)
    ensures Stored(u, op.id, op.range, op.values) == After(u, op)
  {
    SucceedsFully(u, op);
  }

  lemma ConsFinal<K>(u: Store<K>, op: Op<K>, rest: seq<Op<K>>)
    ensures Final(u, [op] + rest) == Final(After(u, op), rest)
  {
    assert ([op] + rest)[1..] == rest;
  }

  lemma ConsReplay<K>(u: Store<K>, e: StoreWrite<K>, rest: seq<StoreWrite<K>>)
    ensures Replay(u, [e] + rest) == Replay(Stored(u, e.id, e.range, e.after), rest)
  {
    assert ([e] + rest)[1..] == rest;
  }

  /** Replaying a run's journal is performing the writes it tells of. */
  lemma {:induction false} ReplayTold<K>(s0: Store<K>, s: Store<K>, u: Store<K>, ops: seq<Op<K>>)
    requires SameShape(s0, s) && SameShape(s0, u)
    ensures Replay(u, Events(s, ops)) == Final(u, Told(s0, ops))
    decreases |ops|
  {
    if ops != [] {
      var op, rest := ops[0], Events(After(s, ops[0]), ops[1..]);
      AfterShape(s, op);
      ShapeTransitive(s0, s, After(s, op));
      ShapeDecides(s0, s, op);
      if Succeeds(s0, op) {
        ShapeDecides(s0, u, op);
        AfterShape(u, op);
        ShapeTransitive(s0, u, After(u, op));
        ReplayTold(s0, After(s, op), After(u, op), ops[1..]);
        ConsReplay(u, Reported(s, op)[0], rest);
        StoredIsAfter(u, op);
        ConsFinal(u, op, Told(s0, ops[1..]));
      } else {
        ReplayTold(s0, After(s, op), u, ops[1..]);
        assert Events(s, ops) == rest && Told(s0, ops) == Told(s0, ops[1..]);
      }
    }
  }

  /**
   * Replay gives the final store exactly when, at every address, the last write that landed and the
   * last one the tap was told of leave the same word.
   */
  lemma ReplayExactly<K>(s: Store<K>, ops: seq<Op<K>>)
    ensures Replay(s, Events(s, ops)) == Final(s, ops) <==>
              forall id, a: nat :: id in s && a in s[id] ==> LeftBy(s, Told(s, ops), id, a) == LeftBy(s, ops, id, a)
  {
    var told := Told(s, ops);
    ReplayTold(s, s, s, ops);
    forall id, a: nat | id in s && a in s[id]
      ensures CellOf(Final(s, told), id, a) == CellOf(Final(s, ops), id, a) <==>
                LeftBy(s, told, id, a) == LeftBy(s, ops, id, a)
    {
      FinalWord(s, told, id, a);
      FinalWord(s, ops, id, a);
    }
    FinalShape(s, told);
    FinalShape(s, ops);
    if forall id, a: nat :: id in s && a in s[id] ==> LeftBy(s, told, id, a) == LeftBy(s, ops, id, a) {
      SameCells(Final(s, told), Final(s, ops));
    }
  }

  // ---------- Undo ----------

  /** The first write on the address that the tap was told of, or the end of the run. */
  ghost function FirstTold<K>(s: Store<K>, ops: seq<Op<K>>, id: K, a: nat): (j: nat)
    ensures j <= |ops|
  {
    if ops == [] || (Succeeds(s, ops[0]) && Lands(s, ops[0], id, a)) then 0
    else 1 + FirstTold(s, ops[1..], id, a)
  }

  lemma StoredShape<K>(s: Store<K>, id: K, r: Range, values: seq<Word>)
    ensures SameShape(s, Stored(s, id, r, values))
  {
  }

  /** Storing an event's old words puts back the cells it covered, and no other. */
  lemma StoredBefore<K>(s: Store<K>, x: Store<K>, op: Op<K>, id: K, a: nat)
    requires SameShape(s, x) && Succeeds(s, op) && id in s && a in s[id]
    ensures var e := Reported(s, op)[0];
      CellOf(Stored(x, e.id, e.range, e.before), id, a) ==
      if Lands(s, op, id, a) then CellOf(s, id, a) else CellOf(x, id, a)
  {
    SucceedsFully(s, op);
    CoveredEndUnique(s[op.id], op.range, op.range.end);
    CoveredEndUnique(x[op.id], op.range, op.range.end);
  }

  lemma {:induction false} UndoShape<K>(s: Store<K>, t: Store<K>, es: seq<StoreWrite<K>>)
    requires SameShape(s, t)
    ensures SameShape(s, Undo(t, es))
    decreases |es|
  {
    if es != [] {
      var e := es[|es|-1];
      StoredShape(t, e.id, e.range, e.before);
      ShapeTransitive(s, t, Stored(t, e.id, e.range, e.before));
      UndoShape(s, Stored(t, e.id, e.range, e.before), es[..|es|-1]);
    }
  }

  /** Undoing an event last puts back what its write found, where it landed. */
  lemma UndoTold<K>(s: Store<K>, t: Store<K>, op: Op<K>, rest: seq<StoreWrite<K>>, id: K, a: nat)
    requires SameShape(s, t) && Succeeds(s, op) && id in s && a in s[id]
    ensures CellOf(Undo(t, Reported(s, op) + rest), id, a) ==
              if Lands(s, op, id, a) then CellOf(s, id, a) else CellOf(Undo(t, rest), id, a)
  {
    var e := Reported(s, op)[0];
    UndoSnoc(t, e, rest);
    UndoShape(s, t, rest);
    StoredBefore(s, Undo(t, rest), op, id, a);
  }

  lemma ShapeBack<K>(s: Store<K>, t: Store<K>, u: Store<K>)
    requires SameShape(s, t) && SameShape(s, u)
    ensures SameShape(t, u)
  {
  }

  /** One write at the front of a run: what is undone of it, and where the first told write then is. */
  lemma UndoFirst<K>(s0: Store<K>, s: Store<K>, t: Store<K>, ops: seq<Op<K>>, id: K, a: nat)
    requires SameShape(s0, s) && SameShape(s0, t) && id in s0 && a in s0[id] && ops != []
    ensures CellOf(Undo(t, Events(s, ops)), id, a) ==
              if FirstTold(s0, ops, id, a) == 0 then CellOf(s, id, a)
              else CellOf(Undo(t, Events(After(s, ops[0]), ops[1..])), id, a)
  {
    var op, rest := ops[0], Events(After(s, ops[0]), ops[1..]);
    ShapeDecides(s0, s, op);
    ShapeLands(s0, s, op, id, a);
    ShapeBack(s0, s, t);
    if Succeeds(s, op) {
      UndoTold(s, t, op, rest, id, a);
    } else {
      assert Events(s, ops) == rest;
    }
  }

  lemma FinalFront<K>(s: Store<K>, ops: seq<Op<K>>, j: nat)
    requires 0 < j <= |ops|
    ensures Final(s, ops[..j]) == Final(After(s, ops[0]), ops[1..][..j-1])
  {
    assert ops[..j][1..] == ops[1..][..j-1];
  }

  lemma {:induction false} UndoCell<K>(s0: Store<K>, s: Store<K>, t: Store<K>, ops: seq<Op<K>>, id: K, a: nat)
    requires SameShape(s0, s) && SameShape(s0, t) && id in s0 && a in s0[id]
    ensures var j := FirstTold(s0, ops, id, a);
      CellOf(Undo(t, Events(s, ops)), id, a) == if j == |ops| then CellOf(t, id, a) else CellOf(Final(s, ops[..j]), id, a)
    decreases |ops|
  {
    if ops != [] {
      UndoFirst(s0, s, t, ops, id, a);
      var j := FirstTold(s0, ops, id, a);
      if j > 0 {
        AfterShape(s, ops[0]);
        ShapeTransitive(s0, s, After(s, ops[0]));
        UndoCell(s0, After(s, ops[0]), t, ops[1..], id, a);
        FinalFront(s, ops, j);
      }
    }
  }

  /** Undoing gives the start back exactly when no address changed before the tap first heard of it. */
  lemma UndoExactly<K>(s: Store<K>, ops: seq<Op<K>>)
    ensures Undo(Final(s, ops), Events(s, ops)) == s <==>
              forall id, a: nat :: id in s && a in s[id] ==>
                LeftBy(s, ops[..FirstTold(s, ops, id, a)], id, a) == s[id][a].value
  {
    var u := Undo(Final(s, ops), Events(s, ops));
    FinalShape(s, ops);
    forall id, a: nat | id in s && a in s[id]
      ensures CellOf(u, id, a) == CellOf(s, id, a) <==>
                LeftBy(s, ops[..FirstTold(s, ops, id, a)], id, a) == s[id][a].value
    {
      var j := FirstTold(s, ops, id, a);
      UndoCell(s, s, Final(s, ops), ops, id, a);
      FinalWord(s, ops[..j], id, a);
      assert ops[..|ops|] == ops;
    }
    UndoShape(s, Final(s, ops), Events(s, ops));
    if forall id, a: nat :: id in s && a in s[id] ==>
         LeftBy(s, ops[..FirstTold(s, ops, id, a)], id, a) == s[id][a].value {
      SameCells(s, u);
    }
  }
}
