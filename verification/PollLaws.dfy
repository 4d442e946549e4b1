/** Where the words that a poll read end up in the store. */
module PollLaws {
  import opened Basics
  import opened Cells
  import opened FlatStore
  import opened History
  import opened Poll
  import opened Server
  import opened Walk

  /** What a poll read goes to the attempted operation's own table and range, and nowhere else. */
  lemma PollStores(s: Store<SlaveKey>, c: Cursor, operations: seq<Operation>, words: seq<Word>, id: SlaveKey, a: nat)
    requires operations != []
    requires var op := operations[Attempted(c, |operations|)];
      |words| == Length(op.range) && Fully(s, FromSlaveFn(op.unit, op.fc), op.range)
    ensures var op := operations[Attempted(c, |operations|)];
      CellOf(Final(s, PollWrites(c, operations, Values(words))), id, a) ==
      if id == FromSlaveFn(op.unit, op.fc) && op.range.Has(a) then Holding(CellOf(s, id, a), words[a - op.range.start])
      else CellOf(s, id, a)
  {
    var op := operations[Attempted(c, |operations|)];
    var key := FromSlaveFn(op.unit, op.fc);
    var w := ForcedWrite(WriteSource.Poll, key, op.range, words);
    SingleWrite(s, [w], None);
    StepCell(s, w, id, a);
    CoveredEndUnique(s[key], op.range, op.range.end);
  }
}
