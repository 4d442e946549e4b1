/**
 * The register store itself: per device key, an ordered map of disjoint intervals updated in
 * place, with an optional tap that observes completed sourced writes. Every method is tied to
 * the flat specification of module FlatStore.
 */
module Memory {
  import opened Basics
  import opened Cells
  import Slices
  import Declaration
  import Walk
  import opened FlatStore

  /** A registered key has at least one interval, possibly empty. */
  ghost predicate WellFormed<K>(slices: map<K, Slices.Device>) {
    forall id :: id in slices ==> slices[id] != map[] && Slices.Valid(slices[id])
  }

  ghost function Flatten<K>(slices: map<K, Slices.Device>): Store<K>
    requires WellFormed(slices)
  {
    map id | id in slices :: Slices.View(slices[id])
  }

  lemma FlattenUpdate<K>(slices: map<K, Slices.Device>, id: K, m: Slices.Device)
    requires WellFormed(slices) && m != map[] && Slices.Valid(m)
    ensures WellFormed(slices[id := m])
    ensures Flatten(slices[id := m]) == Flatten(slices)[id := Slices.View(m)]
  {
    WellFormedUpdate(slices, id, m);
    var f, g := Flatten(slices[id := m]), Flatten(slices)[id := Slices.View(m)];
    forall k | k in f ensures k in g && f[k] == g[k] {
      if k != id { assert slices[id := m][k] == slices[k]; }
    }
  }

  lemma WellFormedUpdate<K>(slices: map<K, Slices.Device>, id: K, m: Slices.Device)
    requires WellFormed(slices) && m != map[] && Slices.Valid(m)
    ensures WellFormed(slices[id := m])
  {
  }

  class Memory<K(==)> {
    var slices: map<K, Slices.Device>
    /** What the installed tap has been handed so far, or `None` without a tap. */
    var tap: Option<seq<StoreWrite<K>>>

    ghost predicate Valid()
      reads this
    {
      WellFormed(slices)
    }

    /** The flat store that the intervals represent. */
    ghost function Contents(): Store<K>
      requires Valid()
      reads this
    {
      Flatten(slices)
    }

    constructor ()
      ensures Valid() && Contents() == map[] && tap == None
    {
      slices, tap := map[], None;
    }

    method AddRanges(id: K, kind: CellKind, ranges: seq<Range>) returns (ok: bool)
      requires Valid()
      modifies this`slices
      ensures Valid()
      ensures (ok, Contents()) == Declare(old(Contents()), id, kind, ranges)
    {
      var m := if id in slices then slices[id] else map[];
      assert id !in slices ==> Slices.View(m) == imap[];
      var m';
      ok, m' := Declaration.DeclareRanges(m, kind, ranges);
      if !ok { return; }
      if m' != map[] {
        FlattenUpdate(slices, id, m');
        slices := slices[id := m'];
      }
    }

    method Readable(id: K, ty: CellType, range: Range) returns (r: Result<(), MemoryError>)
      requires Valid()
      ensures r == CheckRead(Contents(), id, ty, range)
    {
      if id !in slices { return Err(UnknownKey); }
      var ok := Walk.DeviceAllows(slices[id], range, ty, Access.Read);
      r := if ok then Ok(()) else Err(AddressNotReadable);
    }

    method Writable(id: K, ty: CellType, range: Range) returns (r: Result<(), MemoryError>)
      requires Valid()
      ensures r == CheckWrite(Contents(), id, ty, range)
    {
      if id !in slices { return Err(UnknownKey); }
      var ok := Walk.DeviceAllows(slices[id], range, ty, Access.Write);
      r := if ok then Ok(()) else Err(AddressNotWritable);
    }

    method Read(id: K, ty: CellType, range: Range) returns (r: Result<seq<Word>, MemoryError>)
      requires Valid()
      ensures CheckRead(Contents(), id, ty, range).Err? ==> r == Err(CheckRead(Contents(), id, ty, range).error)
      ensures CheckRead(Contents(), id, ty, range).Ok? ==> r == Ok(Walk.Words(Contents()[id], range))
    {
      var check := Readable(id, ty, range);
      if check.Err? { return Err(check.error); }
      var _, output := Walk.DeviceRead(slices[id], range, Walk.Checked);
      r := Ok(output);
    }

    method ReadUnchecked(id: K, range: Range) returns (r: Option<seq<Word>>)
      requires Valid()
      ensures r == if Fully(Contents(), id, range) then Some(Walk.Words(Contents()[id], range)) else None
    {
      if id !in slices { return None; }
      var covered, output := Walk.DeviceRead(slices[id], range, Walk.Unchecked);
      r := if covered then Some(output) else None;
    }

    method Write(id: K, ty: CellType, range: Range, values: seq<Word>) returns (r: Result<(), MemoryError>)
      requires Valid()
      modifies this`slices
      ensures Valid()
      ensures r == WriteOutcome(old(Contents()), id, ty, range, values)
      ensures Contents() == if r.Ok? then Put(old(Contents()), id, range, values) else old(Contents())
    {
      if Length(range) != |values| { return Err(LengthMismatch(Length(range), |values|)); }
      r := Writable(id, ty, range);
      if r.Err? { return; }
      var _, m := Walk.DeviceWrite(slices[id], range, values, Walk.Checked);
      FlattenUpdate(slices, id, m);
      slices := slices[id := m];
    }

    /** Stores the covered prefix of `range` whatever the cells' access; true if that is all of it. */
    method WriteUnchecked(id: K, range: Range, values: seq<Word>) returns (ok: bool)
      requires Valid()
      modifies this`slices
      ensures Valid()
      ensures ok <==> |values| == Length(range) && Fully(old(Contents()), id, range)
      ensures Contents() == if |values| == Length(range) && id in old(Contents())
                            then Put(old(Contents()), id, range, values) else old(Contents())
    {
      if Length(range) != |values| || id !in slices { return false; }
      var covered, m := Walk.DeviceWrite(slices[id], range, values, Walk.Unchecked);
      FlattenUpdate(slices, id, m);
      slices := slices[id := m];
      ok := covered;
    }

    method SetWriteTap()
      modifies this`tap
      ensures tap == Some([])
    {
      tap := Some([]);
    }

    method WriteFrom(source: WriteSource, id: K, ty: CellType, range: Range, values: seq<Word>)
      returns (r: Result<(), MemoryError>)
      requires Valid()
      modifies this
      ensures Valid()
      ensures r == WriteOutcome(old(Contents()), id, ty, range, values)
      ensures var op := CheckedWrite(source, id, ty, range, values);
        && Contents() == After(old(Contents()), op)
        && tap == (if old(tap).None? then None else Some(old(tap.value) + Reported(old(Contents()), op)))
    {
      ghost var op := CheckedWrite(source, id, ty, range, values);
      assert tap.Some? && Reported(Contents(), op) == [] ==> tap.value + Reported(Contents(), op) == tap.value;
      if Length(range) != |values| { return Err(LengthMismatch(Length(range), |values|)); }
      r := Writable(id, ty, range);
      if r.Err? { return; }
      var before: Option<seq<Word>> := None;
      if tap.Some? { before := ReadUnchecked(id, range); }
      SucceedsFully(Contents(), op);
      r := Write(id, ty, range, values);
      if tap.Some? && before.Some? {
        tap := Some(tap.value + [StoreWrite(source, id, range, before.value, values)]);
      }
    }

    method WriteUncheckedFrom(source: WriteSource, id: K, range: Range, values: seq<Word>) returns (written: bool)
      requires Valid()
      modifies this
      ensures Valid()
      ensures var op := ForcedWrite(source, id, range, values);
        && written == Succeeds(old(Contents()), op)
        && Contents() == After(old(Contents()), op)
        && tap == (if old(tap).None? then None else Some(old(tap.value) + Reported(old(Contents()), op)))
    {
      ghost var op := ForcedWrite(source, id, range, values);
      assert tap.Some? && Reported(Contents(), op) == [] ==> tap.value + Reported(Contents(), op) == tap.value;
      var before: Option<seq<Word>> := None;
      if tap.Some? { before := ReadUnchecked(id, range); }
      written := WriteUnchecked(id, range, values);
      if written && tap.Some? && before.Some? {
        tap := Some(tap.value + [StoreWrite(source, id, range, before.value, values)]);
      }
    }

    predicate ContainsKey(id: K)
      reads this
    {
      id in slices
    }
  }
}
