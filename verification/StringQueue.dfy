/** The queue of strings (cprogramminglab-handout/queue.c): a singly linked list with a tail
    pointer, and its reversal in place. */
module StringQueue {
  import opened Words

  class Element {
    const value: string
    var next: Element?

    constructor (value: string, next: Element?)
      ensures this.value == value && this.next == next
    {
      this.value, this.next := value, next;
    }
  }

  function Reversed<T>(s: seq<T>): (r: seq<T>)
    ensures |r| == |s| && forall k :: 0 <= k < |s| ==> r[k] == s[|s| - 1 - k]
  {
    seq(|s|, k requires 0 <= k < |s| => s[|s| - 1 - k])
  }

  /** Reversing twice changes nothing, and reversal turns concatenation around. */
  lemma ReversedLaws<T>(s: seq<T>, t: seq<T>)
    ensures Reversed(Reversed(s)) == s
    ensures Reversed(s + t) == Reversed(t) + Reversed(s)
  {
  }

  /** The strings of the elements, which never change. */
  ghost function ValuesOf(nodes: seq<Element>): (r: seq<string>)
    ensures |r| == |nodes| && forall i :: 0 <= i < |r| ==> r[i] == nodes[i].value
  {
    seq(|nodes|, i requires 0 <= i < |nodes| => nodes[i].value)
  }

  lemma ReversedValues(nodes: seq<Element>)
    ensures ValuesOf(Reversed(nodes)) == Reversed(ValuesOf(nodes))
  {
  }

  /** How much of a string the removal copies: at most bufsize - 1 characters, where that
      subtraction is one of 64-bit words. */
  function Copied(s: string, bufsize: Word64): nat {
    var most := (bufsize - 1) % WORD64;
    if |s| < most then |s| else most
  }

  /** The limit that is promised for it, kept for every size but 0. */
  lemma CopiedWithin(s: string, bufsize: Word64)
    requires |s| < WORD64
    ensures bufsize >= 1 ==> Copied(s, bufsize) == if |s| < bufsize then |s| else bufsize - 1
    ensures Copied(s, bufsize) < bufsize <==> bufsize != 0
    ensures bufsize == 0 ==> Copied(s, bufsize) == |s|
  {
    if bufsize >= 1 { SmallMod(bufsize - 1, WORD64); }
  }

  class Queue {
    var head: Element?
    var tail: Element?
    var size: nat
    ghost var nodes: seq<Element>

    ghost function Repr(): set<Element>
      reads this
    {
      set n | n in nodes
    }

    /** The nodes are linked in order; `tail` is not mentioned. */
    ghost predicate Chained()
      reads this, nodes
    {
      && size == |nodes|
      && (forall i, j :: 0 <= i < j < |nodes| ==> nodes[i] != nodes[j])
      && head == (if nodes == [] then null else nodes[0])
      && (forall i {:trigger nodes[i].next} ::
            0 <= i < |nodes| ==> nodes[i].next == if i + 1 < |nodes| then nodes[i + 1] else null)
    }

    /** A well-formed queue; the tail pointer of an empty queue may be anything. */
    ghost predicate Valid()
      reads this, nodes
    {
      Chained() && (nodes != [] ==> tail == nodes[|nodes| - 1])
    }

    ghost function Values(): (r: seq<string>)
      reads this
    {
      ValuesOf(nodes)
    }

    constructor ()
      ensures Valid() && nodes == [] && tail == null
    {
      head, tail, size, nodes := null, null, 0, [];
    }

    /** Inserting at the head leaves a well-formed queue exactly when the queue was nonempty
        or its tail pointer was null. */
    method InsertHead(s: string)
      requires Valid()
      modifies this
      ensures Chained() && Values() == [s] + old(Values())
      ensures nodes[1..] == old(nodes) && fresh(nodes[0])
      ensures tail == if old(tail) == null then nodes[0] else old(tail)
      ensures Valid() <==> old(nodes != [] || tail == null)
    {
      var newh := LinkFront(s);
      assert nodes[1..] == old(nodes);
      if tail == null {
        tail := newh;
      }
    }

    /** Puts a new element before the others. */
    method LinkFront(s: string) returns (newh: Element)
      requires Chained()
      modifies this`head, this`size, this`nodes
      ensures fresh(newh) && Chained() && nodes == [newh] + old(nodes) && Values() == [s] + old(Values())
    {
      newh := new Element(s, head);
      head := newh;
      size := size + 1;
      nodes := [newh] + nodes;
    }

    method InsertTail(s: string)
      requires Valid()
      modifies this, Repr()
      ensures Valid() && Values() == old(Values()) + [s]
      ensures nodes[..|nodes| - 1] == old(nodes) && fresh(nodes[|nodes| - 1])
    {
      var ntail := new Element(s, null);
      size := size + 1;
      if size == 1 {
        tail := ntail;
        head := ntail;
      } else {
        assert tail == nodes[|nodes| - 1];
        tail.next := ntail;
        tail := ntail;
      }
      nodes := nodes + [ntail];
      assert nodes[..|nodes| - 1] == old(nodes);
    }

    /** Removes the head and copies its string, cut to the buffer and ended by a NUL. The tail
        pointer is left alone, even when the queue becomes empty. A buffer size of 0 wraps
        around and cuts nothing. */
    method RemoveHead(sp: array?<char>, bufsize: Word64) returns (ok: bool)
      requires Valid() && (forall n :: n in nodes ==> |n.value| < WORD64)
      requires sp != null && nodes != [] ==> Copied(nodes[0].value, bufsize) < sp.Length
      requires forall n :: n in nodes ==> '\0' !in n.value
      modifies this, sp
      ensures Valid() && tail == old(tail) && (ok <==> old(nodes) != [])
      ensures nodes == if ok then old(nodes)[1..] else []
      ensures ok && sp != null ==>
                var s := old(nodes)[0].value;
                var n := Copied(s, bufsize);
                sp[..n] == s[..n] && sp[n] == '\0' && sp[n + 1..] == old(sp[n + 1..])
    {
      if head == null {
        return false;
      }
      var first := head;
      head := head.next;
      size := size - 1;
      nodes := nodes[1..];
      if sp != null {
        var index := 0;
        while index < (bufsize - 1) % WORD64 && index < |first.value|
          invariant 0 <= index <= Copied(first.value, bufsize)
          invariant forall k :: 0 <= k < index ==> sp[k] == first.value[k]
          invariant forall k :: index <= k < sp.Length ==> sp[k] == old(sp[k])
          modifies sp
        {
          sp[index] := first.value[index];
          index := index + 1;
        }
        sp[index] := '\0';
        assert index == Copied(first.value, bufsize);
        assert sp[..index] == first.value[..index];
        assert sp[index + 1..] == old(sp[..])[index + 1..] == old(sp[index + 1..]);
      }
      ok := true;
    }

    /** Relinks the very same nodes in the opposite order. */
    method Reverse()
      requires Valid()
      modifies this, Repr()
      ensures Valid() && nodes == Reversed(old(nodes)) && Values() == Reversed(old(Values()))
      ensures old(nodes) != [] ==> head == old(tail) && tail == old(head)
    {
      ReversedValues(nodes);
      if head == null || size == 1 {
        return;
      }
      TurnAround(nodes);
      nodes := Reversed(nodes);
    }

    /** The relinking of two or more nodes. */
    method TurnAround(ghost ns: seq<Element>)
      requires |ns| >= 2 && head == ns[0] && tail == ns[|ns| - 1]
      requires forall i, j :: 0 <= i < j < |ns| ==> ns[i] != ns[j]
      requires forall j {:trigger ns[j].next} :: 0 <= j < |ns| - 1 ==> ns[j].next == ns[j + 1]
      modifies this`head, this`tail, ns
      ensures head == ns[|ns| - 1] && tail == ns[0] && ns[0].next == null
      ensures forall j {:trigger ns[j].next} :: 1 <= j < |ns| ==> ns[j].next == ns[j - 1]
    {
      ghost var i, last := 1, |ns| - 1;
      var temp := head;
      var end := tail;
      end.next := temp;
      head := temp.next;
      temp.next := null;
      tail := temp;
      temp := head;
      while temp != end
        invariant 1 <= i <= last && temp == ns[i] == head && end == ns[last] && tail == ns[0]
        invariant forall j {:trigger ns[j].next} :: i <= j < last ==> ns[j].next == ns[j + 1]
        invariant end.next == ns[i - 1] && ns[0].next == null
        invariant forall j {:trigger ns[j].next} :: 1 <= j < i ==> ns[j].next == ns[j - 1]
        decreases last - i
      {
        var prev := end.next;
        end.next := temp;
        head := temp.next;
        temp.next := prev;
        temp := head;
        i := i + 1;
      }
    }
  }

  /** A queue emptied by removal is not ready for an insertion at the head: its tail pointer
      still holds the removed node. */
  method StaleTail() returns (q: Queue)
    ensures !q.Valid() && q.Chained() && q.Values() == ["b"]
  {
    q := new Queue();
    q.InsertTail("a");
    assert q.Values()[0] == "a" && q.nodes[0].value == "a";
    var ok := q.RemoveHead(null, 0);
    q.InsertHead("b");
  }
}
