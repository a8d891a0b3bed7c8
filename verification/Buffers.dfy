/**
 Reference-counted strings that discard bytes from the front. Any number of `Buffer`s, and the
 views of a `BufferViewList`, may share one immutable `Storage`.
 */
module Buffers {
  import opened MachineTypes

  class Storage {
    const text: StdString

    constructor (text: StdString)
      ensures this.text == text
    {
      this.text := text;
    }
  }

  /** A std::string_view: `length` bytes of a store from `start` on, or nothing at all. */
  datatype Span = Span(store: Storage?, start: nat, length: nat) {
    predicate InBounds() {
      if store == null then length == 0 else start + length <= |store.text|
    }

    function Str(): (s: Text)
      requires InBounds()
      ensures |s| == length
    {
      if store == null then [] else store.text[start..start + length]
    }

    function Skip(n: nat): (s: Span)
      requires InBounds() && n <= length
      ensures s.InBounds() && s.Str() == Str()[n..]
    {
      Span(store, start + n, length - n)
    }
  }

  type StringView = s: Span | s.InBounds() witness Span(null, 0, 0)

  // ---------- Lists of views ----------

  function Texts(views: seq<StringView>): seq<Text> { seq(|views|, i requires 0 <= i < |views| => views[i].Str()) }

  /** The flat string that a list of views stands for. */
  function Flat(views: seq<StringView>): Text { Flatten(Texts(views)) }

  /** What is left of a list of views once `n` bytes are discarded from its front. */
  function DropPrefix(views: seq<StringView>, n: nat): seq<StringView>
    decreases views
  {
    if n == 0 || views == [] then views
    else if n < views[0].length then [views[0].Skip(n)] + views[1..]
    else DropPrefix(views[1..], n - views[0].length)
  }

  lemma FlatCons(views: seq<StringView>)
    requires views != []
    ensures Flat(views) == views[0].Str() + Flat(views[1..])
  {
    assert Texts(views)[1..] == Texts(views[1..]);
  }

  lemma TextsConcat(a: seq<StringView>, b: seq<StringView>)
    ensures Texts(a + b) == Texts(a) + Texts(b)
  {
  }

  lemma TextsCons(v: StringView, views: seq<StringView>)
    ensures Texts([v] + views) == [v.Str()] + Texts(views)
  {
  }

  lemma FlatConcat(a: seq<StringView>, b: seq<StringView>)
    ensures Flat(a + b) == Flat(a) + Flat(b)
  {
    TextsConcat(a, b);
    FlattenConcat(Texts(a), Texts(b));
  }

  lemma FlatSnoc(views: seq<StringView>, v: StringView)
    ensures Flat(views + [v]) == Flat(views) + v.Str()
  {
    FlatConcat(views, [v]);
    FlatCons([v]);
  }

  /** What is left of a list of texts once `n` bytes are discarded from its front. */
  function DropPieces(pieces: seq<Text>, n: nat): seq<Text>
    decreases pieces
  {
    if n == 0 || pieces == [] then pieces
    else if n < |pieces[0]| then [pieces[0][n..]] + pieces[1..]
    else DropPieces(pieces[1..], n - |pieces[0]|)
  }

  lemma DropLeft(a: Text, b: Text, n: nat)
    requires n <= |a|
    ensures (a + b)[n..] == a[n..] + b
  {
  }

  lemma DropRight(a: Text, b: Text, n: nat)
    requires |a| <= n <= |a| + |b|
    ensures (a + b)[n..] == b[n - |a|..]
  {
  }

  /** Dropping from the pieces drops exactly the same number of flat bytes, and everything if too many. */
  lemma {:induction false} DropPiecesIsFlat(pieces: seq<Text>, n: nat)
    ensures n <= |Flatten(pieces)| ==> Flatten(DropPieces(pieces, n)) == Flatten(pieces)[n..]
    ensures n > |Flatten(pieces)| ==> DropPieces(pieces, n) == []
    decreases pieces
  {
    if n == 0 || pieces == [] {
    } else {
      var head, rest := pieces[0], Flatten(pieces[1..]);
      if n < |head| {
        DropLeft(head, rest, n);
        assert DropPieces(pieces, n)[1..] == pieces[1..];
      } else {
        DropPiecesIsFlat(pieces[1..], n - |head|);
        if n <= |Flatten(pieces)| {
          DropRight(head, rest, n);
        }
      }
    }
  }

  lemma {:induction false} DropPrefixDropsPieces(views: seq<StringView>, n: nat)
    ensures Texts(DropPrefix(views, n)) == DropPieces(Texts(views), n)
    decreases views
  {
    if n != 0 && views != [] {
      HeadAndTail(views);
      TextsCons(views[0], views[1..]);
      if n < views[0].length {
        TextsCons(views[0].Skip(n), views[1..]);
      } else {
        DropPrefixDropsPieces(views[1..], n - views[0].length);
      }
    }
  }

  /** Dropping views drops exactly the same number of flat bytes, and everything if too many. */
  lemma DropPrefixIsFlat(views: seq<StringView>, n: nat)
    ensures n <= |Flat(views)| ==> Flat(DropPrefix(views, n)) == Flat(views)[n..]
    ensures n > |Flat(views)| ==> DropPrefix(views, n) == []
  {
    DropPrefixDropsPieces(views, n);
    DropPiecesIsFlat(Texts(views), n);
  }

  lemma DropFirst(views: seq<StringView>, n: nat)
    requires views != [] && n > 0
    ensures n >= views[0].length ==> DropPrefix(views, n) == DropPrefix(views[1..], n - views[0].length)
    ensures n < views[0].length ==> DropPrefix(DropPrefix(views, n), 0) == DropPrefix(views, n)
  {
  }

  function Rest(text: Text, n: nat): Text { if n <= |text| then text[n..] else [] }

  lemma FlatAfterDrop(views: seq<StringView>, n: nat)
    ensures Flat(DropPrefix(views, n)) == Rest(Flat(views), n)
  {
    DropPrefixIsFlat(views, n);
  }

  /** Dropping in two steps is dropping once. */
  lemma DropPrefixTwice(views: seq<StringView>, m: nat, n: nat)
    ensures Flat(DropPrefix(DropPrefix(views, m), n)) == Flat(DropPrefix(views, m + n))
  {
    FlatAfterDrop(views, m);
    FlatAfterDrop(DropPrefix(views, m), n);
    FlatAfterDrop(views, m + n);
    if m + n <= |Flat(views)| {
      TwiceDropped(Flat(views), m, n);
    }
  }

  // ---------- One buffer ----------

  class Buffer {
    var storage: Storage?
    var startingOffset: nat

    /** The offset lies inside the live storage; only an empty string can sit at its own end. */
    ghost predicate Valid() reads this {
      storage != null ==> startingOffset < |storage.text| || (startingOffset == 0 && storage.text == [])
    }

    function View(): StringView
      reads this
      requires Valid()
    {
      if storage == null then Span(null, 0, 0) else Span(storage, startingOffset, |storage.text| - startingOffset)
    }

    function Str(): Text
      reads this
      requires Valid()
    {
      View().Str()
    }

    constructor Empty()
      ensures Valid() && View() == Span(null, 0, 0)
    {
      storage, startingOffset := null, 0;
    }

    constructor FromString(s: StdString)
      ensures Valid() && fresh(storage) && Str() == s
    {
      var owned := new Storage(s);
      storage, startingOffset := owned, 0;
    }

    /** The copy shares the storage of the original. */
    constructor CopyOf(other: Buffer)
      requires other.Valid()
      ensures Valid() && View() == other.View()
    {
      storage, startingOffset := other.storage, other.startingOffset;
    }

    method At(n: SizeT) returns (r: Result<Byte>)
      requires Valid()
      ensures r == if n < |Str()| then Returned(Str()[n]) else Threw(OutOfRange)
    {
      if n >= View().length {
        return Threw(OutOfRange);
      }
      r := Returned(storage.text[startingOffset + n]);
    }

    /** A buffer with nothing left gives up its storage. */
    method RemovePrefix(n: SizeT) returns (r: Result<()>)
      requires Valid()
      modifies this
      ensures Valid()
      ensures r == if n <= |old(Str())| then Returned(()) else Threw(OutOfRange)
      ensures r.Threw? ==> storage == old(storage) && startingOffset == old(startingOffset)
      ensures r.Returned? ==> Str() == old(Str())[n..] && (storage == null <==> Str() == [])
      ensures r.Returned? && Str() != [] ==> View() == old(View()).Skip(n)
    {
      if n > View().length {
        return Threw(OutOfRange);
      }
      startingOffset := startingOffset + n;
      if storage != null && startingOffset == |storage.text| {
        storage := null;
      }
      r := Returned(());
    }
  }

  // ---------- A list of buffers ----------

  class BufferList {
    var buffers: seq<Buffer>
    ghost var contents: Text
    ghost var Repr: set<object>

    /** The list owns its buffers, though not the storage behind them. */
    ghost predicate Valid()
      reads this, Repr
      ensures Valid() ==> this in Repr
    {
      && this in Repr
      && Distinct(buffers)
      && (forall b | b in buffers :: b in Repr && b.Valid())
      && contents == Flat(ViewsOf(buffers))
    }

    ghost function Views(): (v: seq<StringView>)
      reads this, Repr
      requires Valid()
    {
      ViewsOf(buffers)
    }

    static ghost function ViewsOf(bs: seq<Buffer>): (v: seq<StringView>)
      reads bs
      requires forall b | b in bs :: b.Valid()
    {
      seq(|bs|, i requires 0 <= i < |bs| && bs[i].Valid() reads bs => bs[i].View())
    }

    constructor Empty()
      ensures Valid() && Views() == [] && contents == [] && fresh(Repr)
    {
      buffers, contents, Repr := [], [], {this};
    }

    constructor FromBuffer(buffer: Buffer)
      requires buffer.Valid()
      ensures Valid() && Views() == [buffer.View()] && contents == buffer.Str() && fresh(Repr)
    {
      var copy := new Buffer.CopyOf(buffer);
      buffers, contents, Repr := [copy], buffer.Str(), {this, copy};
      new;
      FlatCons(ViewsOf(buffers));
    }

    constructor FromString(s: StdString)
      ensures Valid() && |Views()| == 1 && contents == s && fresh(Repr)
    {
      buffers, contents, Repr := [], [], {this};
      new;
      var buf := new Buffer.FromString(s);
      var one := new BufferList.FromBuffer(buf);
      NothingBefore(one.Views());
      NothingBefore(one.contents);
      Append(one);
    }

    constructor CopyOf(other: BufferList)
      requires other.Valid()
      ensures Valid() && Views() == other.Views() && contents == other.contents && fresh(Repr)
    {
      buffers, contents, Repr := [], [], {this};
      new;
      NothingBefore(other.Views());
      NothingBefore(other.contents);
      Append(other);
    }

    /** Appending copies the handles of the other list, never their bytes. */
    method Append(other: BufferList)
      requires Valid() && other.Valid() && other != this
      modifies this
      ensures Valid() && fresh(Repr - old(Repr))
      ensures Views() == old(Views()) + old(other.Views())
      ensures contents == old(contents) + other.contents
    {
      ghost var mine, added := Views(), other.Views();
      FlatConcat(mine, added);
      var i := 0;
      while i < |other.buffers|
        invariant i <= |other.buffers|
        invariant Valid() && fresh(Repr - old(Repr))
        invariant Views() == mine + added[..i]
      {
        TakeOneMore(mine, added, i);
        var copy := new Buffer.CopyOf(other.buffers[i]);
        PushBack(copy);
        i := i + 1;
      }
      assert added[..i] == added;
    }

    method PushBack(owned: Buffer)
      requires Valid() && owned.Valid() && owned !in Repr
      modifies this
      ensures Valid() && Repr == old(Repr) + {owned}
      ensures Views() == old(Views()) + [owned.View()]
    {
      ghost var views := Views();
      buffers, contents, Repr := buffers + [owned], contents + owned.Str(), Repr + {owned};
      assert ViewsOf(buffers) == views + [owned.View()];
      FlatSnoc(views, owned.View());
    }

    method ToBuffer() returns (r: Result<Buffer>)
      requires Valid()
      ensures if |buffers| > 1 then r == Threw(RuntimeError)
              else
                && r.Returned? && fresh(r.value) && r.value.Valid() && r.value.Str() == contents
                && r.value.View() == if |buffers| == 0 then Span(null, 0, 0) else Views()[0]
    {
      if |buffers| == 0 {
        var none := new Buffer.Empty();
        r := Returned(none);
      } else if |buffers| == 1 {
        var copy := new Buffer.CopyOf(buffers[0]);
        r := Returned(copy);
        FlatCons(Views());
      } else {
        r := Threw(RuntimeError);
      }
    }

    method Concatenate() returns (s: Text)
      requires Valid()
      ensures s == contents
    {
      ghost var views := Views();
      s := [];
      for i := 0 to |buffers|
        invariant s == Flat(views[..i])
      {
        FlatSnoc(views[..i], views[i]);
        TakeOneMore([], views, i);
        s := s + buffers[i].Str();
      }
      assert views[..|buffers|] == views;
    }

    /** The size is a size_t, so a list that repeats long storage could in principle wrap it. */
    method Size() returns (n: SizeT)
      requires Valid()
      ensures n == Wrap64(|contents|)
    {
      ghost var views := Views();
      n := 0;
      for i := 0 to |buffers|
        invariant n == Wrap64(|Flat(views[..i])|)
      {
        FlatSnoc(views[..i], views[i]);
        TakeOneMore([], views, i);
        Wrap64Once(|Flat(views[..i])|, views[i].length);
        n := Wrap64(n + buffers[i].View().length);
      }
      assert views[..|buffers|] == views;
    }

    /** Discards part of the first buffer, in place. */
    method TrimFront(n: SizeT)
      requires Valid() && buffers != [] && 0 < n < buffers[0].View().length
      modifies this`contents, buffers[0]
      ensures Valid() && Views() == DropPrefix(old(Views()), n) && contents == old(contents)[n..]
    {
      ghost var views := Views();
      assert n <= |contents| && Flat(DropPrefix(views, n)) == contents[n..] by {
        FlatCons(views);
        DropPrefixIsFlat(views, n);
      }
      assert DropPrefix(views, n) == [views[0].Skip(n)] + views[1..];
      contents := contents[n..];
      var front := buffers[0];
      var ok := front.RemovePrefix(n);
      assert ViewsOf(buffers) == [front.View()] + views[1..];
    }

    method PopFront()
      requires Valid() && buffers != []
      modifies this`buffers, this`contents
      ensures Valid() && Views() == old(Views())[1..] && buffers == old(buffers)[1..]
      ensures contents == old(contents)[old(Views())[0].length..]
    {
      ghost var views := Views();
      FlatCons(views);
      buffers, contents := buffers[1..], contents[views[0].length..];
      assert ViewsOf(buffers) == views[1..];
    }

    /** One turn of the loop below: trim the first buffer, or pop it. */
    method DropFromFront(n: SizeT) returns (left: SizeT)
      requires Valid() && buffers != [] && n > 0
      modifies Repr
      ensures Valid() && Repr == old(Repr)
      ensures DropPrefix(Views(), left) == DropPrefix(old(Views()), n)
      ensures left + |old(contents)| == n + |contents|
      ensures if left == 0 then |buffers| <= |old(buffers)| else |buffers| < |old(buffers)|
    {
      ghost var views := Views();
      FlatCons(views);
      var size := buffers[0].View().length;
      DropFirst(views, n);
      if n < size {
        TrimFront(n);
        left := 0;
      } else {
        PopFront();
        left := n - size;
      }
    }

    /** Discards `n` bytes; asking for too many empties the list and throws. */
    method RemovePrefix(n: SizeT) returns (r: Result<()>)
      requires Valid()
      modifies Repr
      ensures Valid() && Repr == old(Repr)
      ensures Views() == DropPrefix(old(Views()), n)
      ensures r == if n <= |old(contents)| then Returned(()) else Threw(OutOfRange)
      ensures contents == if r.Returned? then old(contents)[n..] else []
      ensures r.Threw? ==> buffers == []
    {
      ghost var views := Views();
      var left: SizeT := n;
      while left > 0
        invariant Valid() && Repr == old(Repr)
        invariant DropPrefix(Views(), left) == DropPrefix(views, n)
        invariant left + |old(contents)| == n + |contents|
        decreases |buffers|, left
      {
        if buffers == [] {
          break;
        }
        left := DropFromFront(left);
      }
      DropPrefixIsFlat(views, n);
      r := if left > 0 then Threw(OutOfRange) else Returned(());
    }
  }

  // ---------- A list of views ----------

  class BufferViewList {
    var views: seq<StringView>

    ghost function Contents(): Text reads this { Flat(views) }

    constructor FromView(view: StringView)
      ensures views == [view] && Contents() == view.Str()
    {
      views := [view];
      FlatCons([view]);
    }

    constructor CopyOf(other: BufferViewList)
      ensures views == other.views
    {
      views := other.views;
    }

    constructor FromList(list: BufferList)
      requires list.Valid()
      ensures views == list.Views() && Contents() == list.contents
    {
      views := [];
      new;
      for i := 0 to |list.buffers|
        invariant list.Valid() && views == list.Views()[..i]
      {
        views := views + [list.buffers[i].View()];
      }
    }

    method RemovePrefix(n: SizeT) returns (r: Result<()>)
      modifies this
      ensures views == DropPrefix(old(views), n)
      ensures r == if n <= |old(Contents())| then Returned(()) else Threw(OutOfRange)
      ensures r.Returned? ==> Contents() == old(Contents())[n..]
      ensures r.Threw? ==> views == []
    {
      DropPrefixIsFlat(views, n);
      var left: SizeT := n;
      while left > 0
        invariant DropPrefix(views, left) == DropPrefix(old(views), n)
        invariant left + |old(Contents())| == n + |Contents()|
        decreases |views|, left
      {
        if views == [] {
          return Threw(OutOfRange);
        }
        FlatCons(views);
        if left < views[0].length {
          DropPrefixIsFlat(views, left);
          assert DropPrefix(views, left) == [views[0].Skip(left)] + views[1..];
          views := [views[0].Skip(left)] + views[1..];
          left := 0;
        } else {
          left := left - views[0].length;
          views := views[1..];
        }
      }
      r := Returned(());
    }

    method Size() returns (n: SizeT)
      ensures n == Wrap64(|Contents()|)
    {
      n := 0;
      for i := 0 to |views|
        invariant n == Wrap64(|Flat(views[..i])|)
      {
        FlatSnoc(views[..i], views[i]);
        TakeOneMore([], views, i);
        Wrap64Once(|Flat(views[..i])|, views[i].length);
        n := Wrap64(n + views[i].length);
      }
      assert views[..|views|] == views;
    }

    method AsIovecs() returns (iovecs: seq<StringView>)
      ensures iovecs == views
    {
      iovecs := [];
      for i := 0 to |views|
        invariant iovecs == views[..i]
      {
        iovecs := iovecs + [views[i]];
      }
    }
  }

  /** Removing the same prefix from a list and from the views of it leaves the views of the list. */
  method RemoveInLockstep(list: BufferList, views: BufferViewList, n: SizeT) returns (r: Result<()>, s: Result<()>)
    requires list.Valid() && views.views == list.Views() && views !in list.Repr
    modifies list.Repr, views
    ensures list.Valid() && views.views == list.Views() && r == s
    ensures list.contents == views.Contents() == if n <= |old(list.contents)| then old(list.contents)[n..] else []
  {
    r := list.RemovePrefix(n);
    s := views.RemovePrefix(n);
  }
}
