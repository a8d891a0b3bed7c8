/** What the operations do to flat texts, each to its own target and to no other handle. */
module SharedPoolLaws {
  import opened MachineTypes
  import opened Buffers
  import opened SharedPool

  predicate ChangesBuffer(op: Op, i: nat) { op.TrimBuffer? && op.buffer == i }
  predicate ChangesList(op: Op, i: nat) { (op.AppendList? || op.TrimList?) && op.list == i }

  /** Every handle but the target keeps its text and its position. */
  lemma OthersUntouched(p: Private, op: Op)
    requires p.Allows(op)
    ensures var q := p.After(op);
      && |p.buffers| <= |q.buffers| && |p.lists| <= |q.lists|
      && (forall i | 0 <= i < |p.buffers| && !ChangesBuffer(op, i) :: q.buffers[i] == p.buffers[i])
      && (forall i | 0 <= i < |p.lists| && !ChangesList(op, i) :: q.lists[i] == p.lists[i])
  {
  }

  /** Over any run, a handle that no operation aims at keeps its text. */
  lemma {:induction false} UntouchedOverRun(p: Private, ops: seq<Op>)
    requires p.AllowsAll(ops)
    ensures var q := p.AfterAll(ops);
      && |p.buffers| <= |q.buffers| && |p.lists| <= |q.lists|
      && (forall i | 0 <= i < |p.buffers| && (forall op | op in ops :: !ChangesBuffer(op, i)) :: q.buffers[i] == p.buffers[i])
      && (forall i | 0 <= i < |p.lists| && (forall op | op in ops :: !ChangesList(op, i)) :: q.lists[i] == p.lists[i])
    decreases ops
  {
    if ops != [] {
      OthersUntouched(p, ops[0]);
      assert forall op | op in ops[1..] :: op in ops;
      UntouchedOverRun(p.After(ops[0]), ops[1..]);
    }
  }

  /** The text that a list stands for. */
  function ListText(p: Private, i: nat): Text
    requires i < |p.lists|
  {
    Flatten(p.lists[i])
  }

  /** Appending leaves the first list followed by the second. */
  lemma AppendJoins(p: Private, i: nat, j: nat)
    requires p.Allows(AppendList(i, j))
    ensures var q := p.After(AppendList(i, j));
      && p.Answer(AppendList(i, j)).Returned? && |q.buffers| == |p.buffers| && |q.lists| == |p.lists|
      && ListText(q, i) == ListText(p, i) + ListText(p, j)
  {
    FlattenConcat(p.lists[i], p.lists[j]);
  }

  /** Trimming a list drops that many bytes of its text, or throws and empties it. */
  lemma TrimListDrops(p: Private, i: nat, n: SizeT)
    requires p.Allows(TrimList(i, n))
    ensures var q, text := p.After(TrimList(i, n)), ListText(p, i);
      && |q.buffers| == |p.buffers| && |q.lists| == |p.lists|
      && (n <= |text| ==> p.Answer(TrimList(i, n)).Returned? && ListText(q, i) == text[n..])
      && (n > |text| ==> p.Answer(TrimList(i, n)) == Threw(OutOfRange) && ListText(q, i) == [])
  {
    DropPiecesIsFlat(p.lists[i], n);
  }

  /** Trimming a buffer drops that many bytes of its text, or throws and leaves it alone. */
  lemma TrimBufferDrops(p: Private, i: nat, n: SizeT)
    requires p.Allows(TrimBuffer(i, n))
    ensures var q, text := p.After(TrimBuffer(i, n)), p.buffers[i];
      && |q.buffers| == |p.buffers| && |q.lists| == |p.lists|
      && (n <= |text| ==> p.Answer(TrimBuffer(i, n)).Returned? && q.buffers[i] == text[n..])
      && (n > |text| ==> p.Answer(TrimBuffer(i, n)) == Threw(OutOfRange) && q.buffers[i] == text)
  {
  }

  /** The handle that an operation adds reads as what it was made from. */
  lemma NewHandleReadsAsSource(p: Private, op: Op)
    requires p.Allows(op)
    ensures var q, b, l := p.After(op), |p.buffers|, |p.lists|;
      && (op.NewBuffer? ==> |q.buffers| == b + 1 && q.buffers[b] == op.text && |q.lists| == l)
      && (op.CopyBuffer? ==> |q.buffers| == b + 1 && q.buffers[b] == p.buffers[op.buffer] && |q.lists| == l)
      && (op.ListFromBuffer? ==> |q.lists| == l + 1 && ListText(q, l) == p.buffers[op.buffer] && |q.buffers| == b)
      && (op.CopyList? ==> |q.lists| == l + 1 && ListText(q, l) == ListText(p, op.list) && |q.buffers| == b)
      && (op.BufferFromList? ==>
            |q.lists| == l
            && if |p.lists[op.list]| <= 1 then |q.buffers| == b + 1 && q.buffers[b] == ListText(p, op.list)
               else q == p && p.Answer(op) == Threw(RuntimeError))
  {
    if op.ListFromBuffer? {
      FlattenOne(p.buffers[op.buffer]);
    }
  }

  lemma FlattenOne(text: Text)
    ensures Flatten([text]) == text
  {
    assert [text][1..] == [];
    assert text + [] == text;
  }
}
