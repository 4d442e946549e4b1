/**
 * Walking the intervals under a range in ascending order: the shared loop of every read and
 * write path, specified on the flat map by how far the range is covered from its start.
 */
module Walk {
  import opened Basics
  import opened Cells
  import opened Slices

  // ---------- Specification on the flat map ----------

  /** The end of the longest prefix of `r` that `f` covers without a gap. */
  ghost function CoveredEnd(f: Flat, r: Range): (p: nat)
    ensures r.start <= p <= r.end
    ensures forall a: nat :: r.Has(a) && a < p ==> a in f
    ensures p < r.end ==> p !in f
    decreases r.end - r.start
  {
    if r.start < r.end && r.start in f then assert r.Has(r.start); CoveredEnd(f, Range(r.start + 1, r.end)) else r.start
  }

  ghost predicate Covers(f: Flat, r: Range) {
    forall a: nat :: r.Has(a) ==> a in f
  }

  lemma CoveredEndUnique(f: Flat, r: Range, p: nat)
    requires r.start <= p <= r.end
    requires forall a: nat :: r.Has(a) && a < p ==> a in f
    requires p < r.end ==> p !in f
    ensures p == CoveredEnd(f, r)
    ensures p == r.end <==> Covers(f, r)
  {
    var q := CoveredEnd(f, r);
    assert p < q ==> p in f;
    assert q < p ==> q in f;
    assert p < r.end ==> r.Has(p);
  }

  /** The flat map with `values` stored from `r.start` on, up to but excluding address `p`. */
  ghost function Written(f: Flat, r: Range, values: seq<Word>, p: nat): Flat
    requires |values| == Length(r) && p <= r.end
  {
    imap a: nat | a in f :: WrittenCell(f, r, values, p, a)
  }

  ghost function WrittenCell(f: Flat, r: Range, values: seq<Word>, p: nat, a: nat): Cell
    requires |values| == Length(r) && a in f
  {
    if r.Has(a) && a < p then f[a].(value := values[a - r.start]) else f[a]
  }

  ghost function WordAt(f: Flat, a: nat): Word {
    if a in f then f[a].value else 0
  }

  /** The flat words of a covered range in address order. */
  ghost function Words(f: Flat, r: Range): (ws: seq<Word>)
    requires Covers(f, r)
    ensures |ws| == Length(r)
    ensures forall a: nat :: r.Has(a) ==> ws[a - r.start] == f[a].value
  {
    var ws := seq<Word>(Length(r), i requires 0 <= i => WordAt(f, r.start + i));
    assert forall a: nat :: r.Has(a) ==> ws[a - r.start] == WordAt(f, r.start + (a - r.start));
    ws
  }

  // ---------- Operations on one slice ----------

  datatype Mode = Checked | Unchecked

  predicate Allows(c: Cell, ty: CellType, access: Access) {
    if access == Access.Write then c.AcceptsWrite(ty) else c.AcceptsRead(ty)
  }

  method SliceAllows(s: Slice, ty: CellType, access: Access, seg: Range) returns (ok: bool)
    requires |s.buffer| == Length(s.range)
    ensures ok <==> (s.Contains(seg) && forall a: nat :: seg.Has(a) ==> Allows(s.buffer[a - s.range.start], ty, access))
  {
    if !s.Contains(seg) { return false; }
    for i := seg.start to seg.end
      invariant forall a: nat :: seg.Has(a) && a < i ==> Allows(s.buffer[a - s.range.start], ty, access)
    {
      if !Allows(s.buffer[i - s.range.start], ty, access) {
        assert seg.Has(i);
        return false;
      }
    }
    ok := true;
  }

  function Store(c: Cell, v: Word, mode: Mode): Cell {
    if mode == Checked then c.TrySetValue(v) else c.(value := v)
  }

  method SliceWrite(s: Slice, seg: Range, values: seq<Word>, mode: Mode) returns (ok: bool, s': Slice)
    requires |s.buffer| == Length(s.range)
    ensures ok <==> s.Contains(seg) && Length(seg) == |values|
    ensures !ok ==> s' == s
    ensures ok ==> s'.range == s.range && |s'.buffer| == |s.buffer|
    ensures ok ==> forall a: nat :: s.range.Has(a) ==>
              s'.buffer[a - s.range.start] ==
                if seg.Has(a) then Store(s.buffer[a - s.range.start], values[a - seg.start], mode)
                else s.buffer[a - s.range.start]
  {
    ok := s.Contains(seg) && Length(seg) == |values|;
    s' := s;
    if ok {
      var offset := seg.start - s.range.start;
      var buffer := s.buffer;
      for i := 0 to |values|
        invariant |buffer| == |s.buffer|
        invariant forall j :: 0 <= j < |buffer| ==>
                    buffer[j] == if offset <= j < offset + i then Store(s.buffer[j], values[j - offset], mode)
                                 else s.buffer[j]
      {
        buffer := buffer[offset + i := Store(buffer[offset + i], values[i], mode)];
      }
      s' := s.(buffer := buffer);
    }
  }

  method SliceRead(s: Slice, seg: Range, mode: Mode) returns (out: Option<seq<Word>>)
    requires |s.buffer| == Length(s.range)
    ensures out.Some? <==> (s.Contains(seg) &&
              (mode == Unchecked || forall a: nat :: seg.Has(a) ==> s.buffer[a - s.range.start].TryValue().Some?))
    ensures out.Some? ==> (|out.value| == Length(seg) &&
              forall a: nat :: seg.Has(a) ==> out.value[a - seg.start] == s.buffer[a - s.range.start].value)
  {
    if !s.Contains(seg) { return None; }
    var ws := [];
    for i := seg.start to seg.end
      invariant |ws| == i - seg.start
      invariant forall a: nat :: seg.Has(a) && a < i ==> ws[a - seg.start] == s.buffer[a - s.range.start].value
      invariant mode == Unchecked ||
                forall a: nat :: seg.Has(a) && a < i ==> s.buffer[a - s.range.start].TryValue().Some?
    {
      var cell := s.buffer[i - s.range.start];
      var word := if mode == Checked then cell.TryValue() else Some(cell.value);
      if word.None? {
        assert seg.Has(i);
        return None;
      }
      ws := ws + [word.value];
    }
    out := Some(ws);
  }

  // ---------- The walk ----------

  /** `es` enumerates, in ascending order, intervals that agree with `f`. */
  ghost predicate Lists(es: seq<Slice>, f: Flat) {
    && (forall i, j :: 0 <= i < j < |es| ==> Before(es[i].range, es[j].range))
    && (forall i :: 0 <= i < |es| ==> |es[i].buffer| == Length(es[i].range))
    && (forall i, a: nat :: 0 <= i < |es| && es[i].range.Has(a) ==>
          a in f && f[a] == es[i].buffer[a - es[i].range.start])
    && (forall i, j, a: nat :: 0 <= i < j < |es| && es[i].range.Has(a) ==> !es[j].range.Has(a))
  }

  method Entries(m: Device) returns (es: seq<Slice>)
    requires Valid(m)
    ensures Lists(es, View(m))
    ensures forall a: nat :: a in View(m) ==> exists i :: 0 <= i < |es| && es[i].range.Has(a)
    ensures forall i :: 0 <= i < |es| ==> es[i].range in m && m[es[i].range] == es[i]
    ensures Holdings(m, es)
  {
    var ks := Keys(m);
    es := [];
    for n := 0 to |ks|
      invariant |es| == n && forall i :: 0 <= i < n ==> ks[i] in m && es[i] == m[ks[i]]
    {
      es := es + [m[ks[n]]];
    }
    EntriesHold(m, ks, es);
    EntriesList(m, ks, es);
  }

  lemma EntriesList(m: Device, ks: seq<Range>, es: seq<Slice>)
    requires Valid(m) && Ascending(ks) && |es| == |ks|
    requires forall i :: 0 <= i < |ks| ==> ks[i] in m && es[i] == m[ks[i]]
    ensures Lists(es, View(m))
    ensures forall i :: 0 <= i < |es| ==> es[i].range in m && m[es[i].range] == es[i]
  {
    assert forall i :: 0 <= i < |es| ==> es[i].range == ks[i];
    forall i, j, a: nat | 0 <= i < j < |es| && es[i].range.Has(a) ensures !es[j].range.Has(a) {
      assert Before(ks[i], ks[j]);
    }
  }

  lemma EntriesHold(m: Device, ks: seq<Range>, es: seq<Slice>)
    requires Valid(m) && |es| == |ks| && (forall r :: r in ks <==> r in m)
    requires forall i :: 0 <= i < |ks| ==> ks[i] in m && es[i] == m[ks[i]]
    ensures Holdings(m, es)
    ensures forall a: nat :: a in View(m) ==> exists i :: 0 <= i < |es| && es[i].range.Has(a)
  {
    forall k | k in m ensures exists i :: 0 <= i < |es| && es[i].range == k {
      var i :| 0 <= i < |ks| && ks[i] == k;
      assert es[i].range == k;
    }
    forall a: nat | a in View(m) ensures exists i :: 0 <= i < |es| && es[i].range.Has(a) {
      var i :| 0 <= i < |es| && es[i].range == Owner(m, a);
      assert es[i].range.Has(a);
    }
  }

  /** `es[..n]` has been visited with the walk standing at `p`: no visited interval holds `p`. */
  ghost predicate Visited(es: seq<Slice>, n: nat, p: nat)
    requires n <= |es|
  {
    forall j :: 0 <= j < n ==> !es[j].range.Has(p)
  }

  lemma VisitedStep(es: seq<Slice>, n: nat, p: nat, p': nat)
    requires n < |es| && Visited(es, n, p) && p <= p'
    requires forall i, j :: 0 <= i < j < |es| ==> Before(es[i].range, es[j].range)
    requires if es[n].range.Has(p) then es[n].range.end <= p' else p == p'
    ensures Visited(es, n + 1, p')
  {
    forall j | 0 <= j < n ensures !es[j].range.Has(p') {
      assert Before(es[j].range, es[n].range);
    }
  }

  /** A walk over all intervals ends where the covered prefix ends. */
  lemma VisitedAll(es: seq<Slice>, f: Flat, r: Range, p: nat)
    requires forall a: nat :: a in f ==> exists i :: 0 <= i < |es| && es[i].range.Has(a)
    requires r.start <= p <= r.end && (p < r.end ==> Visited(es, |es|, p))
    requires forall a: nat :: r.Has(a) && a < p ==> a in f
    ensures p == CoveredEnd(f, r)
    ensures p == r.end <==> Covers(f, r)
  {
    CoveredEndUnique(f, r, p);
  }

  /** The part of `r` from `p` on that the next interval holds, if that interval holds `p`. */
  function Segment(k: Range, r: Range, p: nat): (seg: Option<Range>)
    requires p <= r.end
    ensures seg.Some? ==> k.Has(p) && p == seg.value.start < seg.value.end <= r.end
    ensures seg.Some? ==> seg.value.end == Min(r.end, k.end)
    ensures seg.None? && p < r.end ==> !k.Has(p)
  {
    if k.start <= p && k.end > p then
      var end := Min(r.end, k.end);
      if end - p != 0 then Some(Range(p, end)) else None
    else None
  }

  ghost predicate AllAllow(f: Flat, r: Range, ty: CellType, access: Access) {
    forall a: nat :: r.Has(a) ==> a in f && Allows(f[a], ty, access)
  }

  /** Where a walk over `r` stopped. */
  ghost predicate Stopped(es: seq<Slice>, f: Flat, r: Range, p: nat) {
    && r.start <= p <= r.end
    && (p < r.end ==> Visited(es, |es|, p))
    && (forall a: nat :: r.Has(a) && a < p ==> a in f)
  }

  /** Every address of the range below `p` is covered and permits the access. */
  ghost predicate AllowsTo(f: Flat, r: Range, p: nat, ty: CellType, access: Access) {
    forall a: nat :: r.Has(a) && a < p ==> a in f && Allows(f[a], ty, access)
  }

  /** Whether the next segment of the range permits the access. */
  method SegmentAllows(s: Slice, ghost f: Flat, ghost r: Range, seg: Range, ty: CellType, access: Access) returns (ok: bool)
    requires s.Contains(seg) && |s.buffer| == Length(s.range) && r.start <= seg.start && seg.end <= r.end
    requires AllowsTo(f, r, seg.start, ty, access)
    requires forall a: nat :: s.range.Has(a) ==> a in f && f[a] == s.buffer[a - s.range.start]
    ensures ok ==> AllowsTo(f, r, seg.end, ty, access)
    ensures !ok ==> !AllAllow(f, r, ty, access)
  {
    assert forall a: nat :: seg.Has(a) ==> s.range.Has(a) && r.Has(a);
    ok := SliceAllows(s, ty, access, seg);
    assert forall a: nat :: r.Has(a) && seg.start <= a < seg.end ==> seg.Has(a);
  }

  method WalkAllows(es: seq<Slice>, ghost f: Flat, r: Range, ty: CellType, access: Access)
    returns (ok: bool, ghost p: nat)
    requires Lists(es, f)
    ensures ok ==> AllAllow(f, r, ty, access)
    ensures AllAllow(f, r, ty, access) ==> Stopped(es, f, r, p) && ok == (p == r.end)
  {
    var pos := r.start;
    for n := 0 to |es|
      invariant r.start <= pos <= r.end
      invariant pos < r.end ==> Visited(es, n, pos)
      invariant AllowsTo(f, r, pos, ty, access)
    {
      p := pos;
      var k := es[n].range;
      match Segment(k, r, pos)
      case None =>
      case Some(seg) =>
        VisitedStep(es, n, pos, Max(pos, k.end));
        ok := SegmentAllows(es[n], f, r, seg, ty, access);
        if !ok { return; }
        pos := seg.end;
    }
    p := pos;
    ok := pos == r.end;
  }

  method WalkRead(es: seq<Slice>, ghost f: Flat, r: Range, mode: Mode)
    returns (covered: bool, output: seq<Word>, ghost p: nat)
    requires Lists(es, f)
    requires mode == Checked ==> forall a: nat :: r.Has(a) && a in f ==> f[a].TryValue().Some?
    ensures Stopped(es, f, r, p) && covered == (p == r.end)
    ensures covered ==> Covers(f, r) && output == Words(f, r)
  {
    var pos := r.start;
    output := [];
    for n := 0 to |es|
      invariant r.start <= pos <= r.end
      invariant pos < r.end ==> Visited(es, n, pos)
      invariant ReadTo(f, r, pos, output)
    {
      var k := es[n].range;
      match Segment(k, r, pos)
      case None =>
      case Some(seg) =>
        VisitedStep(es, n, pos, Max(pos, k.end));
        output := ReadSegment(es[n], f, r, seg, mode, output);
        pos := seg.end;
    }
    p := pos;
    covered := pos == r.end;
    if covered { ReadAll(f, r, output); }
  }

  /** `output` holds the flat words of the range up to address `p`, all of them covered. */
  ghost predicate ReadTo(f: Flat, r: Range, p: nat, output: seq<Word>) {
    && r.start <= p && |output| == p - r.start
    && forall a: nat :: r.Has(a) && a < p ==> a in f && output[a - r.start] == f[a].value
  }

  lemma ReadAll(f: Flat, r: Range, output: seq<Word>)
    requires ReadTo(f, r, r.end, output)
    ensures Covers(f, r) && output == Words(f, r)
  {
    forall i | 0 <= i < |output| ensures output[i] == Words(f, r)[i] {
      assert r.Has(r.start + i);
    }
  }

  /** Appends the words of the next segment of the range. */
  method ReadSegment(s: Slice, ghost f: Flat, ghost r: Range, seg: Range, mode: Mode, output: seq<Word>)
    returns (out: seq<Word>)
    requires s.Contains(seg) && |s.buffer| == Length(s.range) && seg.end <= r.end && ReadTo(f, r, seg.start, output)
    requires forall a: nat :: s.range.Has(a) ==> a in f && f[a] == s.buffer[a - s.range.start]
    requires mode == Checked ==> forall a: nat :: r.Has(a) && a in f ==> f[a].TryValue().Some?
    ensures ReadTo(f, r, seg.end, out)
  {
    assert forall a: nat :: seg.Has(a) ==> s.range.Has(a) && r.Has(a);
    var v := SliceRead(s, seg, mode);
    out := if v.Some? then output + v.value else output;
    assert forall a: nat :: r.Has(a) && seg.start <= a < seg.end ==> seg.Has(a);
  }

  /** Interval `s` holds what `f` holds with the write done up to address `p`. */
  ghost predicate Holds(s: Slice, f: Flat, r: Range, values: seq<Word>, p: nat)
    requires |values| == Length(r)
  {
    && |s.buffer| == Length(s.range)
    && forall a: nat :: s.range.Has(a) ==>
         a in f && s.buffer[a - s.range.start] == WrittenCell(f, r, values, p, a)
  }

  /** Writes the next segment of the range into the interval that holds it. */
  method WriteSegment(s: Slice, ghost f: Flat, r: Range, values: seq<Word>, seg: Range, mode: Mode)
    returns (s': Slice)
    requires |values| == Length(r) && r.start <= seg.start && seg.end == Min(r.end, s.range.end)
    requires s.Contains(seg)
    requires Holds(s, f, r, values, seg.start)
    requires forall a: nat :: s.range.Has(a) && r.Has(a) ==> seg.start <= a
    requires mode == Checked ==> forall a: nat :: r.Has(a) && a in f ==> f[a].kind.access != Access.Read
    ensures s'.range == s.range && Holds(s', f, r, values, seg.end)
  {
    var part := values[seg.start - r.start..seg.end - r.start];
    var _, out := SliceWrite(s, seg, part, mode);
    s' := out;
    assert forall a: nat :: seg.Has(a) ==> r.Has(a) && part[a - seg.start] == values[a - r.start];
    assert forall a: nat :: s.range.Has(a) && !seg.Has(a) ==> !r.Has(a);
  }

  lemma HoldsOn(s: Slice, f: Flat, r: Range, values: seq<Word>, p: nat, p': nat)
    requires |values| == Length(r) && Holds(s, f, r, values, p)
    requires forall a: nat :: s.range.Has(a) && r.Has(a) ==> (a < p <==> a < p')
    ensures Holds(s, f, r, values, p')
  {
  }

  /** An interval before the one being written ends where the segment begins, or earlier. */
  lemma Behind(b: Range, k: Range, p: nat)
    requires Before(b, k) && !b.Has(p) && k.Has(p)
    ensures b.end <= p
  {
  }

  lemma HoldBehind(es: seq<Slice>, n: nat, k: Range, f: Flat, r: Range, values: seq<Word>, p: nat, q: nat)
    requires |values| == Length(r) && n <= |es| && k.Has(p) && p <= q
    requires forall i :: 0 <= i < n ==> Before(es[i].range, k) && !es[i].range.Has(p) && Holds(es[i], f, r, values, p)
    ensures forall i :: 0 <= i < n ==> Holds(es[i], f, r, values, q)
  {
    forall i | 0 <= i < n ensures Holds(es[i], f, r, values, q) {
      Behind(es[i].range, k, p);
      HoldsOn(es[i], f, r, values, p, q);
    }
  }

  /** The first `n` intervals hold what a write up to address `p` leaves; the others are as they were. */
  ghost predicate HoldTo(es: seq<Slice>, es': seq<Slice>, n: nat, f: Flat, r: Range, values: seq<Word>, p: nat)
    requires |values| == Length(r) && n <= |es| == |es'|
  {
    && (forall i :: n <= i < |es| ==> es'[i] == es[i])
    && (forall i :: 0 <= i < n ==> es'[i].range == es[i].range && Holds(es'[i], f, r, values, p))
  }

  lemma HoldNext(es: seq<Slice>, es': seq<Slice>, n: nat, s: Slice, f: Flat, r: Range, values: seq<Word>, p: nat, q: nat)
    requires |values| == Length(r) && n < |es| == |es'| && HoldTo(es, es', n, f, r, values, p)
    requires es[n].range.Has(p) && p <= q && Visited(es, n, p)
    requires forall i, j :: 0 <= i < j < |es| ==> Before(es[i].range, es[j].range)
    requires s.range == es[n].range && Holds(s, f, r, values, q)
    ensures HoldTo(es, es'[n := s], n + 1, f, r, values, q)
  {
    forall i | 0 <= i < n ensures Before(es'[i].range, es[n].range) && !es'[i].range.Has(p) {
      assert Before(es[i].range, es[n].range) && !es[i].range.Has(p);
    }
    HoldBehind(es', n, es[n].range, f, r, values, p, q);
  }

  /** The visited intervals as updated in place; the rest as they were. */
  method WalkWrite(es: seq<Slice>, ghost f: Flat, r: Range, values: seq<Word>, mode: Mode)
    returns (covered: bool, es': seq<Slice>, ghost p: nat)
    requires Lists(es, f) && |values| == Length(r)
    requires mode == Checked ==> forall a: nat :: r.Has(a) && a in f ==> f[a].kind.access != Access.Read
    ensures Stopped(es, f, r, p) && covered == (p == r.end)
    ensures |es'| == |es| && forall i :: 0 <= i < |es| ==>
              es'[i].range == es[i].range && Holds(es'[i], f, r, values, p)
  {
    var pos := r.start;
    es' := es;
    for n := 0 to |es|
      invariant r.start <= pos <= r.end
      invariant pos < r.end ==> Visited(es, n, pos)
      invariant forall a: nat :: r.Has(a) && a < pos ==> a in f
      invariant |es'| == |es| && HoldTo(es, es', n, f, r, values, pos)
      invariant forall i, a: nat :: n <= i < |es| && es[i].range.Has(a) && r.Has(a) ==> pos <= a
    {
      var k := es[n].range;
      assert Holds(es[n], f, r, values, pos);
      match Segment(k, r, pos)
      case None =>
      case Some(seg) =>
        VisitedStep(es, n, pos, Max(pos, k.end));
        assert forall a: nat :: r.Has(a) && pos <= a < seg.end ==> k.Has(a);
        var s := WriteSegment(es[n], f, r, values, seg, mode);
        HoldNext(es, es', n, s, f, r, values, pos, seg.end);
        es' := es'[n := s];
        pos := seg.end;
    }
    p := pos;
    covered := pos == r.end;
  }

  // ---------- Whole devices ----------

  method DeviceAllows(m: Device, r: Range, ty: CellType, access: Access) returns (ok: bool)
    requires Valid(m)
    ensures ok <==> AllAllow(View(m), r, ty, access)
  {
    var es := Entries(m);
    ghost var p;
    ok, p := WalkAllows(es, View(m), r, ty, access);
    if AllAllow(View(m), r, ty, access) { VisitedAll(es, View(m), r, p); }
  }

  method DeviceRead(m: Device, r: Range, mode: Mode) returns (covered: bool, output: seq<Word>)
    requires Valid(m)
    requires mode == Checked ==> forall a: nat :: r.Has(a) && a in View(m) ==> View(m)[a].TryValue().Some?
    ensures covered <==> Covers(View(m), r)
    ensures covered ==> output == Words(View(m), r)
  {
    var es := Entries(m);
    ghost var p;
    covered, output, p := WalkRead(es, View(m), r, mode);
    VisitedAll(es, View(m), r, p);
  }

  /** Stores the covered prefix of the range; reports whether that prefix is all of it. */
  method DeviceWrite(m: Device, r: Range, values: seq<Word>, mode: Mode) returns (covered: bool, m': Device)
    requires Valid(m) && |values| == Length(r)
    requires mode == Checked ==> forall a: nat :: r.Has(a) && a in View(m) ==> View(m)[a].kind.access != Access.Read
    ensures Valid(m') && m'.Keys == m.Keys
    ensures View(m') == Written(View(m), r, values, CoveredEnd(View(m), r))
    ensures covered <==> Covers(View(m), r)
  {
    var es := Entries(m);
    ghost var p;
    var es';
    covered, es', p := WalkWrite(es, View(m), r, values, mode);
    VisitedAll(es, View(m), r, p);
    Replaceable(m, es, es');
    m' := Replace(m, es', r, values, p);
  }

  /** Each key of the device has its interval among `es`, and `es` has no other. */
  ghost predicate Holdings(m: Device, es: seq<Slice>) {
    && (forall k :: k in m ==> exists i :: 0 <= i < |es| && es[i].range == k)
    && (forall i :: 0 <= i < |es| ==> es[i].range in m)
  }

  lemma Replaceable(m: Device, es: seq<Slice>, es': seq<Slice>)
    requires Holdings(m, es) && |es'| == |es| && forall i :: 0 <= i < |es| ==> es'[i].range == es[i].range
    ensures Holdings(m, es')
  {
    forall k | k in m ensures exists i :: 0 <= i < |es'| && es'[i].range == k {
      var i :| 0 <= i < |es| && es[i].range == k;
      assert es'[i].range == k;
    }
  }

  /** Puts updated intervals back under their own keys. */
  method Replace(m: Device, es: seq<Slice>, ghost r: Range, ghost values: seq<Word>, ghost p: nat)
    returns (m': Device)
    requires Valid(m) && |values| == Length(r) && p <= r.end && Holdings(m, es)
    requires forall i :: 0 <= i < |es| ==> Holds(es[i], View(m), r, values, p)
    ensures Valid(m') && m'.Keys == m.Keys
    ensures View(m') == Written(View(m), r, values, p)
  {
    ghost var f := View(m);
    m' := m;
    for n := 0 to |es|
      invariant m'.Keys == m.Keys && Replaced(m', es, n, f, r, values, p)
    {
      ReplaceNext(m', es, n, f, r, values, p);
      m' := m'[es[n].range := es[n]];
    }
    AllReplaced(m, m', es, f, r, values, p);
    Rewritten(m, m', r, values, p);
  }

  /** The first `n` intervals are back under their own keys. */
  ghost predicate Replaced(m: Device, es: seq<Slice>, n: nat, f: Flat, r: Range, values: seq<Word>, p: nat)
    requires |values| == Length(r) && n <= |es|
  {
    forall i :: 0 <= i < n ==>
      es[i].range in m && m[es[i].range].range == es[i].range && Holds(m[es[i].range], f, r, values, p)
  }

  lemma ReplaceNext(m: Device, es: seq<Slice>, n: nat, f: Flat, r: Range, values: seq<Word>, p: nat)
    requires |values| == Length(r) && n < |es| && Replaced(m, es, n, f, r, values, p) && Holds(es[n], f, r, values, p)
    ensures Replaced(m[es[n].range := es[n]], es, n + 1, f, r, values, p)
  {
  }

  lemma AllReplaced(m: Device, m': Device, es: seq<Slice>, f: Flat, r: Range, values: seq<Word>, p: nat)
    requires |values| == Length(r) && Holdings(m, es) && m'.Keys == m.Keys && Replaced(m', es, |es|, f, r, values, p)
    ensures forall k :: k in m' ==> m'[k].range == k && Holds(m'[k], f, r, values, p)
  {
    forall k | k in m' ensures m'[k].range == k && Holds(m'[k], f, r, values, p) {
      var i :| 0 <= i < |es| && es[i].range == k;
    }
  }

  lemma Rewritten(m: Device, m': Device, r: Range, values: seq<Word>, p: nat)
    requires Valid(m) && |values| == Length(r) && m'.Keys == m.Keys && p <= r.end
    requires forall k :: k in m' ==> m'[k].range == k && Holds(m'[k], View(m), r, values, p)
    ensures Valid(m') && View(m') == Written(View(m), r, values, p)
  {
    SameCoverage(m, m');
    RewrittenValid(m, m', View(m), r, values, p);
    forall a: nat | a in View(m) ensures View(m')[a] == WrittenCell(View(m), r, values, p, a) {
      RewrittenCell(m, m', r, values, p, a);
    }
    IsWritten(View(m), View(m'), r, values, p);
  }

  lemma IsWritten(f: Flat, g: Flat, r: Range, values: seq<Word>, p: nat)
    requires |values| == Length(r) && p <= r.end && forall a: nat :: a in g <==> a in f
    requires forall a: nat :: a in f ==> g[a] == WrittenCell(f, r, values, p, a)
    ensures g == Written(f, r, values, p)
  {
  }

  lemma RewrittenValid(m: Device, m': Device, f: Flat, r: Range, values: seq<Word>, p: nat)
    requires Valid(m) && |values| == Length(r) && m'.Keys == m.Keys
    requires forall k :: k in m' ==> m'[k].range == k && Holds(m'[k], f, r, values, p)
    ensures Valid(m')
  {
  }

  lemma RewrittenCell(m: Device, m': Device, r: Range, values: seq<Word>, p: nat, a: nat)
    requires Valid(m) && Valid(m') && |values| == Length(r) && Covered(m', a)
    requires Holds(m'[Owner(m', a)], View(m), r, values, p)
    ensures a in View(m) && View(m')[a] == WrittenCell(View(m), r, values, p, a)
  {
    var k := Owner(m', a);
    assert m'[k].range.Has(a);
  }

  lemma SameCoverage(m: Device, m': Device)
    requires m'.Keys == m.Keys
    ensures forall a: nat :: Covered(m, a) <==> Covered(m', a)
  {
    forall a: nat ensures Covered(m, a) <==> Covered(m', a) {
      if Covered(m, a) { assert Owner(m, a) in m'; }
      if Covered(m', a) { assert Owner(m', a) in m; }
    }
  }
}
