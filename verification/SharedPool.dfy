/**
 Any number of buffers and buffer lists that share storage behave as if every one of them had a
 private copy of its bytes.
 */
module SharedPool {
  import opened MachineTypes
  import opened Buffers

  /** What a program can do with its buffers and lists, named by position. */
  datatype Op =
    | NewBuffer(text: StdString)
    | CopyBuffer(buffer: nat)
    | TrimBuffer(buffer: nat, n: SizeT)
    | ListFromBuffer(buffer: nat)
    | CopyList(list: nat)
    | AppendList(list: nat, other: nat)
    | TrimList(list: nat, n: SizeT)
    | BufferFromList(list: nat)

  /** The same program state with no sharing at all: a private text for each buffer, private pieces for each list. */
  datatype Private = Private(buffers: seq<Text>, lists: seq<seq<Text>>) {
    predicate Allows(op: Op) {
      match op
      case NewBuffer(_) => true
      case CopyBuffer(i) => i < |buffers|
      case TrimBuffer(i, _) => i < |buffers|
      case ListFromBuffer(i) => i < |buffers|
      case CopyList(i) => i < |lists|
      case AppendList(i, j) => i < |lists| && j < |lists| && i != j
      case TrimList(i, _) => i < |lists|
      case BufferFromList(i) => i < |lists|
    }

    /** Whether the operation returns or throws. */
    function Answer(op: Op): Result<()>
      requires Allows(op)
    {
      match op
      case TrimBuffer(i, n) => if n <= |buffers[i]| then Returned(()) else Threw(OutOfRange)
      case TrimList(i, n) => if n <= |Flatten(lists[i])| then Returned(()) else Threw(OutOfRange)
      case BufferFromList(i) => if |lists[i]| <= 1 then Returned(()) else Threw(RuntimeError)
      case _ => Returned(())
    }

    function After(op: Op): Private
      requires Allows(op)
    {
      match op
      case NewBuffer(text) => this.(buffers := buffers + [text])
      case CopyBuffer(i) => this.(buffers := buffers + [buffers[i]])
      case TrimBuffer(i, n) => if n <= |buffers[i]| then this.(buffers := buffers[i := buffers[i][n..]]) else this
      case ListFromBuffer(i) => this.(lists := lists + [[buffers[i]]])
      case CopyList(i) => this.(lists := lists + [lists[i]])
      case AppendList(i, j) => this.(lists := lists[i := lists[i] + lists[j]])
      case TrimList(i, n) => this.(lists := lists[i := DropPieces(lists[i], n)])
      case BufferFromList(i) => if |lists[i]| <= 1 then this.(buffers := buffers + [Flatten(lists[i])]) else this
    }

    predicate AllowsAll(ops: seq<Op>)
      decreases ops
    {
      ops != [] ==> Allows(ops[0]) && After(ops[0]).AllowsAll(ops[1..])
    }

    function AfterAll(ops: seq<Op>): Private
      requires AllowsAll(ops)
      decreases ops
    {
      if ops == [] then this else After(ops[0]).AfterAll(ops[1..])
    }

    function AnswerAll(ops: seq<Op>): seq<Result<()>>
      requires AllowsAll(ops)
      decreases ops
    {
      if ops == [] then [] else [Answer(ops[0])] + After(ops[0]).AnswerAll(ops[1..])
    }
  }

  ghost function PiecesOf(l: BufferList): (p: seq<Text>)
    reads l, l.Repr
    requires l.Valid()
    ensures Flatten(p) == l.contents && |p| == |l.buffers|
  {
    Texts(l.Views())
  }

  ghost function TextsOf(bs: seq<Buffer>): (t: seq<Text>)
    reads bs
    requires forall b | b in bs :: b.Valid()
    ensures |t| == |bs|
  {
    seq(|bs|, i requires 0 <= i < |bs| && bs[i].Valid() reads bs => bs[i].Str())
  }

  ghost function AllPiecesOf(ls: seq<BufferList>): (p: seq<seq<Text>>)
    reads ls, set l, o | l in ls && o in l.Repr :: o
    requires forall l | l in ls :: l.Valid()
    ensures |p| == |ls|
  {
    seq(|ls|, i requires 0 <= i < |ls| && ls[i].Valid() reads ls, set l, o | l in ls && o in l.Repr :: o => PiecesOf(ls[i]))
  }

  class Pool {
    var buffers: seq<Buffer>
    var lists: seq<BufferList>
    /** The handle that each object belongs to: list `i` to `i`, buffer `j` to `-1 - j`. */
    ghost var owner: map<object, int>

    ghost function Repr(): set<object> reads this { owner.Keys }

    ghost predicate Owns(o: object, handle: int) reads this { o in owner && owner[o] == handle }

    /** The handles are separate objects; only their storage may be shared. */
    ghost predicate Separate()
      reads this, Repr()
    {
      && this !in owner
      && (forall j | 0 <= j < |buffers| :: Owns(buffers[j], -1 - j) && buffers[j].Valid())
      && (forall i | 0 <= i < |lists| :: Owns(lists[i], i) && OwnsAll(lists[i].Repr, i) && lists[i].Valid())
    }

    ghost predicate OwnsAll(s: set<object>, handle: int) reads this { forall o | o in s :: Owns(o, handle) }

    ghost function Unshared(): Private
      reads this, Repr()
      requires Separate()
    {
      Private(TextsOf(buffers), AllPiecesOf(lists))
    }

    constructor ()
      ensures Separate() && Unshared() == Private([], []) && Repr() == {}
    {
      buffers, lists, owner := [], [], map[];
    }

    /** Every handle is the same object at the same position; new ones come last. */
    twostate predicate KeepsHandles() reads this { old(buffers) <= buffers && old(lists) <= lists }

    method AddBuffer(b: Buffer)
      requires Separate() && b.Valid() && b !in Repr()
      modifies this
      ensures Separate() && Repr() == old(Repr()) + {b}
      ensures Unshared() == old(Unshared()).(buffers := old(Unshared()).buffers + [b.Str()]) && KeepsHandles()
    {
      buffers, owner := buffers + [b], owner[b := -1 - |buffers|];
    }

    method AddList(l: BufferList)
      requires Separate() && l.Valid() && l.Repr !! Repr() && this !in l.Repr
      modifies this
      ensures Separate() && Repr() == old(Repr()) + l.Repr
      ensures Unshared() == old(Unshared()).(lists := old(Unshared()).lists + [PiecesOf(l)]) && KeepsHandles()
    {
      lists, owner := lists + [l], owner + (map o | o in l.Repr :: |lists|);
    }

    method CopyBuffer(i: nat)
      requires Separate() && i < |buffers|
      modifies this
      ensures Separate() && fresh(Repr() - old(Repr())) && Unshared() == old(Unshared()).After(Op.CopyBuffer(i))
      ensures KeepsHandles()
    {
      var b := new Buffer.CopyOf(buffers[i]);
      AddBuffer(b);
    }

    method ListFromBuffer(i: nat)
      requires Separate() && i < |buffers|
      modifies this
      ensures Separate() && fresh(Repr() - old(Repr())) && Unshared() == old(Unshared()).After(Op.ListFromBuffer(i))
      ensures KeepsHandles()
    {
      var l := new BufferList.FromBuffer(buffers[i]);
      assert PiecesOf(l) == [buffers[i].Str()];
      AddList(l);
    }

    method CopyList(i: nat)
      requires Separate() && i < |lists|
      modifies this
      ensures Separate() && fresh(Repr() - old(Repr())) && Unshared() == old(Unshared()).After(Op.CopyList(i))
      ensures KeepsHandles()
    {
      ghost var u, goal := Unshared(), Unshared().After(Op.CopyList(i));
      var l := new BufferList.CopyOf(lists[i]);
      assert Unshared() == u && PiecesOf(l) == u.lists[i];
      AddList(l);
      assert goal == Unshared();
    }

    method RemoveFromBuffer(i: nat, n: SizeT) returns (r: Result<()>)
      requires Separate() && i < |buffers|
      modifies buffers[i]
      ensures Separate() && AllPiecesOf(lists) == old(AllPiecesOf(lists))
      ensures var t := old(TextsOf(buffers)); var text := t[i];
        && r == (if n <= |text| then Returned(()) else Threw(OutOfRange))
        && TextsOf(buffers) == t[i := if n <= |text| then text[n..] else text]
    {
      r := buffers[i].RemovePrefix(n);
    }

    method TrimBuffer(i: nat, n: SizeT) returns (r: Result<()>)
      requires Separate() && i < |buffers|
      modifies Repr()
      ensures Separate() && Repr() == old(Repr())
      ensures r == old(Unshared()).Answer(Op.TrimBuffer(i, n)) && Unshared() == old(Unshared()).After(Op.TrimBuffer(i, n))
    {
      ghost var u, goal := Unshared(), Unshared().After(Op.TrimBuffer(i, n));
      ghost var text := u.buffers[i];
      assert goal == Private(u.buffers[i := if n <= |text| then text[n..] else text], u.lists);
      r := RemoveFromBuffer(i, n);
    }

    method RemoveFromList(i: nat, n: SizeT) returns (r: Result<()>)
      requires Separate() && i < |lists|
      modifies lists[i].Repr
      ensures Separate()
      ensures r == if n <= |old(Flatten(PiecesOf(lists[i])))| then Returned(()) else Threw(OutOfRange)
      ensures TextsOf(buffers) == old(TextsOf(buffers))
      ensures var p := old(AllPiecesOf(lists)); AllPiecesOf(lists) == p[i := DropPieces(p[i], n)]
    {
      DropPrefixDropsPieces(lists[i].Views(), n);
      r := lists[i].RemovePrefix(n);
    }

    method TrimList(i: nat, n: SizeT) returns (r: Result<()>)
      requires Separate() && i < |lists|
      modifies Repr()
      ensures Separate() && Repr() == old(Repr())
      ensures r == old(Unshared()).Answer(Op.TrimList(i, n)) && Unshared() == old(Unshared()).After(Op.TrimList(i, n))
    {
      ghost var u, goal := Unshared(), Unshared().After(Op.TrimList(i, n));
      assert goal == Private(u.buffers, u.lists[i := DropPieces(u.lists[i], n)]);
      r := RemoveFromList(i, n);
    }

    /** The same, except that list `i` may hold objects that nobody owns yet. */
    ghost predicate SeparateBut(i: nat)
      reads this, Repr()
      requires i < |lists| && lists[i] in owner
    {
      && this !in owner
      && (forall j | 0 <= j < |buffers| :: Owns(buffers[j], -1 - j) && buffers[j].Valid())
      && (forall k | 0 <= k < |lists| && k != i :: Owns(lists[k], k) && OwnsAll(lists[k].Repr, k) && lists[k].Valid())
      && owner[lists[i]] == i && this !in lists[i].Repr
      && forall o | o in lists[i].Repr && o in owner :: owner[o] == i
    }

    ghost method Claim(i: nat)
      requires i < |lists| && lists[i] in owner && SeparateBut(i) && lists[i].Valid()
      modifies `owner
      ensures Separate() && Repr() == old(Repr()) + lists[i].Repr
      ensures TextsOf(buffers) == old(TextsOf(buffers)) && AllPiecesOf(lists) == old(AllPiecesOf(lists))
    {
      owner := owner + (map o | o in lists[i].Repr :: i);
    }

    method AppendTo(i: nat, j: nat)
      requires Separate() && i < |lists| && j < |lists| && i != j
      modifies lists[i]
      ensures SeparateBut(i) && lists[i].Valid() && fresh(lists[i].Repr - Repr())
      ensures TextsOf(buffers) == old(TextsOf(buffers))
      ensures var p := old(AllPiecesOf(lists)); AllPiecesOf(lists) == p[i := p[i] + p[j]]
    {
      TextsConcat(lists[i].Views(), lists[j].Views());
      lists[i].Append(lists[j]);
    }

    method AppendList(i: nat, j: nat)
      requires Separate() && i < |lists| && j < |lists| && i != j
      modifies this, Repr()
      ensures Separate() && fresh(Repr() - old(Repr())) && Unshared() == old(Unshared()).After(Op.AppendList(i, j))
      ensures KeepsHandles()
    {
      ghost var u, goal := Unshared(), Unshared().After(Op.AppendList(i, j));
      assert goal == Private(u.buffers, u.lists[i := u.lists[i] + u.lists[j]]);
      AppendTo(i, j);
      assert goal == Private(TextsOf(buffers), AllPiecesOf(lists));
      Claim(i);
    }

    method BufferFromList(i: nat) returns (r: Result<()>)
      requires Separate() && i < |lists|
      modifies this
      ensures Separate() && fresh(Repr() - old(Repr())) && KeepsHandles()
      ensures r == old(Unshared()).Answer(Op.BufferFromList(i)) && Unshared() == old(Unshared()).After(Op.BufferFromList(i))
    {
      var b := lists[i].ToBuffer();
      if b.Threw? {
        return Threw(b.error);
      }
      AddBuffer(b.value);
      r := Returned(());
    }

    /** One operation answers, and changes its own target, exactly as if nothing were shared, and changes nothing else. */
    method Perform(op: Op) returns (r: Result<()>)
      requires Separate() && Unshared().Allows(op)
      modifies this, Repr()
      ensures Separate() && fresh(Repr() - old(Repr())) && KeepsHandles()
      ensures r == old(Unshared()).Answer(op) && Unshared() == old(Unshared()).After(op)
    {
      r := Returned(());
      if op.NewBuffer? {
        var b := new Buffer.FromString(op.text);
        AddBuffer(b);
      } else if op.CopyBuffer? {
        CopyBuffer(op.buffer);
      } else if op.TrimBuffer? {
        r := TrimBuffer(op.buffer, op.n);
      } else if op.ListFromBuffer? {
        ListFromBuffer(op.buffer);
      } else if op.CopyList? {
        CopyList(op.list);
      } else if op.AppendList? {
        AppendList(op.list, op.other);
      } else if op.TrimList? {
        r := TrimList(op.list, op.n);
      } else {
        r := BufferFromList(op.list);
      }
    }

    /** Sharing stays invisible over every finite run. */
    method PerformAll(ops: seq<Op>) returns (rs: seq<Result<()>>)
      requires Separate() && Unshared().AllowsAll(ops)
      modifies this, Repr()
      ensures Separate() && fresh(Repr() - old(Repr())) && KeepsHandles()
      ensures rs == old(Unshared()).AnswerAll(ops) && Unshared() == old(Unshared()).AfterAll(ops)
    {
      rs := [];
      var i := 0;
      while i < |ops|
        invariant i <= |ops| && Separate() && fresh(Repr() - old(Repr())) && KeepsHandles()
        invariant Unshared().AllowsAll(ops[i..]) && Unshared().AfterAll(ops[i..]) == old(Unshared()).AfterAll(ops)
        invariant rs + Unshared().AnswerAll(ops[i..]) == old(Unshared()).AnswerAll(ops)
      {
        assert ops[i..][1..] == ops[i + 1..];
        var r := Perform(ops[i]);
        rs, i := rs + [r], i + 1;
      }
      assert ops[i..] == [];
    }
  }
}
