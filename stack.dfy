/** The linked stack Stack<T> of Stack.h: a chain of nodes from `top`, and a
    `size` counter kept beside it. */
module LinkedStack {
  import opened Base

  /** A node of the chain. The source sets `next` once, right after
      allocating the node, and never relinks it, so both fields are constant. */
  class Node<T> {
    const data: T
    const next: Node?<T>

    constructor (value: T, next: Node?<T>)
      ensures data == value && this.next == next
    {
      data := value;
      this.next := next;
    }
  }

  class Stack<T> {
    var top: Node?<T>
    var size: int

    /** The elements, top first. */
    ghost var Contents: seq<T>
    /** The chain of nodes from top, one per element. */
    ghost var Nodes: seq<Node<T>>

    /** `size` counts the linked nodes, `top` is the first of them, each node
        holds its element and links to the next, and the last links to null. */
    ghost predicate Valid()
      reads this
    {
      && |Nodes| == |Contents| == size
      && top == (if Nodes == [] then null else Nodes[0])
      && (forall i {:trigger Nodes[i].data} :: 0 <= i < |Nodes| ==> Nodes[i].data == Contents[i])
      && (forall i {:trigger Nodes[i].next} :: 0 <= i < |Nodes| - 1 ==> Nodes[i].next == Nodes[i + 1])
      && (Nodes != [] ==> Nodes[|Nodes| - 1].next == null)
    }

    constructor ()
      ensures Valid() && Contents == []
    {
      top, size := null, 0;
      Contents, Nodes := [], [];
    }

    /** The copy constructor: the same elements in the same order. */
    constructor Copy(other: Stack<T>)
      requires other.Valid()
      ensures Valid() && Contents == other.Contents
    {
      top, size := null, 0;
      Contents, Nodes := [], [];
      new;
      var empty := other.IsEmpty();
      if !empty {
        PushAllOf(other);
      }
    }

    /** operator=: self-assignment changes nothing; otherwise the old elements
        are cleared and the other stack's are copied in the same order. */
    method Assign(other: Stack<T>)
      requires Valid() && other.Valid()
      modifies this
      ensures Valid() && Contents == old(other.Contents)
    {
      if this == other {
        return;
      }
      Clear();
      var empty := other.IsEmpty();
      if !empty {
        PushAllOf(other);
      }
    }

    /** The copying loops shared by the copy constructor and operator=: the
        nodes of `other` are read into an array bottom first, then pushed in
        that order. */
    method PushAllOf(other: Stack<T>)
      requires Valid() && other.Valid() && Contents == [] && other.Contents != []
      requires other != this
      modifies this
      ensures Valid() && Contents == other.Contents
    {
      var n := other.size;
      var first := other.top.data;
      var elements := new T[n](_ => first);
      var current := other.top;
      var count := 0;
      while current != null
        modifies elements
        invariant 0 <= count <= n
        invariant current == (if count < n then other.Nodes[count] else null)
        invariant forall k :: 0 <= k < count ==> elements[n - 1 - k] == other.Contents[k]
        decreases n - count
      {
        assert current == other.Nodes[count];
        elements[n - 1 - count] := current.data;
        current := current.next;
        count := count + 1;
      }
      var i := 0;
      while i < n
        invariant 0 <= i <= n
        invariant Valid()
        invariant Contents == Reverse(elements[..i])
        invariant forall k :: 0 <= k < n ==> elements[n - 1 - k] == other.Contents[k]
      {
        assert elements[..i + 1] == elements[..i] + [elements[i]];
        ReverseAppend(elements[..i], [elements[i]]);
        Push(elements[i]);
        i := i + 1;
      }
      assert elements[..n] == elements[..];
      forall k | 0 <= k < n ensures Contents[k] == other.Contents[k] {
        assert Contents[k] == elements[n - 1 - k];
      }
    }

    method Push(value: T)
      requires Valid()
      modifies this
      ensures Valid() && Contents == [value] + old(Contents)
    {
      var node := new Node(value, top);
      ghost var oldNodes := Nodes;
      top := node;
      size := size + 1;
      Contents := [value] + Contents;
      Nodes := [node] + Nodes;
      assert forall i :: 1 <= i < |Nodes| ==> Nodes[i] == oldNodes[i - 1];
    }

    /** pop(): on an empty stack it throws and changes nothing; otherwise it
        unlinks the top node and returns its element. */
    method Pop() returns (r: Result<T>)
      requires Valid()
      modifies this
      ensures Valid()
      ensures old(Contents) == [] ==> r == Err("Cannot pop from an empty stack.") && Contents == old(Contents)
      ensures old(Contents) != [] ==> r == Ok(old(Contents)[0]) && Contents == old(Contents)[1..]
    {
      if top == null {
        return Err("Cannot pop from an empty stack.");
      }
      r := Ok(top.data);
      ghost var oldNodes := Nodes;
      top := top.next;
      size := size - 1;
      Contents := Contents[1..];
      Nodes := Nodes[1..];
      assert forall i :: 0 <= i < |Nodes| ==> Nodes[i] == oldNodes[i + 1];
    }

    /** isEmpty(): the top pointer is null exactly when there are no elements. */
    method IsEmpty() returns (b: bool)
      requires Valid()
      ensures b <==> Contents == []
      ensures b <==> top == null
    {
      b := top == null;
    }

    method GetSize() returns (n: int)
      requires Valid()
      ensures n == |Contents|
    {
      n := size;
    }

    /** peek(): throws on an empty stack, otherwise the top element. */
    method Peek() returns (r: Result<T>)
      requires Valid()
      ensures Contents == [] ==> r == Err("Cannot peek at an empty stack.")
      ensures Contents != [] ==> r == Ok(Contents[0])
    {
      if top == null {
        return Err("Cannot peek at an empty stack.");
      }
      r := Ok(top.data);
    }

    /** clear(): pops until the stack is empty. */
    method Clear()
      requires Valid()
      modifies this
      ensures Valid() && Contents == [] && size == 0
    {
      var empty := IsEmpty();
      while !empty
        invariant Valid()
        invariant empty <==> Contents == []
        decreases |Contents|
      {
        var _ := Pop();
        empty := IsEmpty();
      }
    }
  }

  /** A client of the specification: peek after push sees the pushed value,
      and pop then restores the previous contents. */
  method PushPeekPop<T>(s: Stack<T>, x: T) returns (seen: Result<T>, popped: Result<T>)
    requires s.Valid()
    modifies s
    ensures s.Valid() && s.Contents == old(s.Contents)
    ensures seen == Ok(x) && popped == Ok(x)
  {
    s.Push(x);
    seen := s.Peek();
    popped := s.Pop();
  }
}
