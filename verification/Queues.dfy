/**
 Intrusive queues (ldap_queue.h): doubly linked circular queues and tail queues, and singly linked
 tail queues.  A circular queue closes on the address of its head, and a tail queue's first element
 points back at the head's first field; both addresses are null here.
 */
module Queues {

  class Element {
    var next: Element?
    var prev: Element?

    constructor ()
    {
      next, prev := null, null;
    }
  }

  predicate Distinct(s: seq<Element>)
  {
    forall i, j :: 0 <= i < j < |s| ==> s[i] != s[j]
  }

  function SetOf(s: seq<Element>): (r: set<Element>)
  {
    set e | e in s
  }

  function Before(s: seq<Element>, k: nat): (e: Element?)
    requires k <= |s|
  {
    if k == 0 then null else s[k - 1]
  }

  function At(s: seq<Element>, k: nat): (e: Element?)
    requires k <= |s|
  {
    if k == |s| then null else s[k]
  }

  function Inserted(s: seq<Element>, k: nat, e: Element): (r: seq<Element>)
    requires k <= |s|
  {
    s[..k] + [e] + s[k..]
  }

  function Removed(s: seq<Element>, k: nat): (r: seq<Element>)
    requires k < |s|
  {
    s[..k] + s[k + 1..]
  }

  lemma InsertedAt(s: seq<Element>, k: nat, e: Element)
    requires k <= |s| && Distinct(s) && e !in s
    ensures var t := Inserted(s, k, e);
            && |t| == |s| + 1 && Distinct(t)
            && (forall i :: 0 <= i < |t| ==> t[i] == if i < k then s[i] else if i == k then e else s[i - 1])
  {
  }

  lemma RemovedAt(s: seq<Element>, k: nat)
    requires k < |s| && Distinct(s)
    ensures var t := Removed(s, k);
            && |t| == |s| - 1 && Distinct(t)
            && (forall i :: 0 <= i < |t| ==> t[i] == if i < k then s[i] else s[i + 1])
  {
    var t := Removed(s, k);
    assert forall i :: 0 <= i < |t| ==> t[i] == if i < k then s[i] else s[i + 1];
    forall i, j | 0 <= i < j < |t| ensures t[i] != t[j] {
      assert s[if i < k then i else i + 1] != s[if j < k then j else j + 1];
    }
  }

  // ---------------------------------------------------------------- doubly linked

  ghost function Nexts(s: seq<Element>): (r: seq<Element?>)
    reads s
    ensures |r| == |s| && forall i :: 0 <= i < |s| ==> r[i] == s[i].next
  {
    seq(|s|, i requires 0 <= i < |s| reads s => s[i].next)
  }

  ghost function Prevs(s: seq<Element>): (r: seq<Element?>)
    reads s
    ensures |r| == |s| && forall i :: 0 <= i < |s| ==> r[i] == s[i].prev
  {
    seq(|s|, i requires 0 <= i < |s| reads s => s[i].prev)
  }

  /** Forward and backward links are each other's inverse, and end at the head. */
  ghost predicate InOrder(s: seq<Element>, nexts: seq<Element?>, prevs: seq<Element?>)
    requires |nexts| == |prevs| == |s|
  {
    && Distinct(s)
    && (forall i, j :: 0 <= i < j < |s| && j == i + 1 ==> nexts[i] == s[j] && prevs[j] == s[i])
    && (s != [] ==> prevs[0] == null && nexts[|s| - 1] == null)
  }

  class Queue {
    var first: Element?
    var last: Element?
    ghost var elements: seq<Element>

    ghost predicate Valid()
      reads this, elements
    {
      && InOrder(elements, Nexts(elements), Prevs(elements))
      && first == At(elements, 0) && last == Before(elements, |elements|)
    }

    constructor ()
      ensures Valid() && elements == []
    {
      first, last, elements := null, null, [];
    }
  }

  /** What any insertion must write, and nothing else, for the queue to be in order again. */
  lemma InsertionKeeps(q: Queue, s: seq<Element>, nexts: seq<Element?>, prevs: seq<Element?>, k: nat, e: Element)
    requires |nexts| == |prevs| == |s| && InOrder(s, nexts, prevs) && k <= |s| && e !in s
    requires q.elements == Inserted(s, k, e)
    requires e.prev == Before(s, k) && e.next == At(s, k)
    requires q.first == (if k == 0 then e else At(s, 0)) && q.last == (if k == |s| then e else Before(s, |s|))
    requires forall i :: 0 <= i < |s| ==> s[i].next == if i == k - 1 then e else nexts[i]
    requires forall i :: 0 <= i < |s| ==> s[i].prev == if i == k then e else prevs[i]
    ensures q.Valid()
  {
    InsertedAt(s, k, e);
    var t := q.elements;
    forall i, j | 0 <= i < j < |t| && j == i + 1
      ensures t[i].next == t[j] && t[j].prev == t[i]
    {
      if i < k - 1 {
        assert t[i] == s[i] && t[j] == s[j];
      } else if i > k {
        assert t[i] == s[i - 1] && t[j] == s[i];
      }
    }
  }

  lemma RemovalKeeps(q: Queue, s: seq<Element>, nexts: seq<Element?>, prevs: seq<Element?>, k: nat)
    requires |nexts| == |prevs| == |s| && InOrder(s, nexts, prevs) && k < |s|
    requires q.elements == Removed(s, k)
    requires q.first == (if k == 0 then At(s, 1) else At(s, 0))
    requires q.last == (if k == |s| - 1 then Before(s, k) else Before(s, |s|))
    requires forall i :: 0 <= i < |s| ==> s[i].next == if i == k - 1 then At(s, k + 1) else nexts[i]
    requires forall i :: 0 <= i < |s| ==> s[i].prev == if i == k + 1 then Before(s, k) else prevs[i]
    ensures q.Valid()
  {
    RemovedAt(s, k);
    var t := q.elements;
    forall i, j | 0 <= i < j < |t| && j == i + 1
      ensures t[i].next == t[j] && t[j].prev == t[i]
    {
      if i < k - 1 {
        assert t[i] == s[i] && t[j] == s[j];
      } else if i >= k {
        assert t[i] == s[i + 1] && t[j] == s[i + 2];
      }
    }
  }

  /** The neighbours of an element. */
  lemma Neighbours(q: Queue, k: nat)
    requires q.Valid() && k < |q.elements|
    ensures q.elements[k].next == At(q.elements, k + 1) && q.elements[k].prev == Before(q.elements, k)
  {
    assert Nexts(q.elements)[k] == q.elements[k].next && Prevs(q.elements)[k] == q.elements[k].prev;
  }

  // ---------------------------------------------------------------- circular queues

  method CircleInsertAfter(q: Queue, at: Element, e: Element, ghost k: nat)
    requires q.Valid() && k < |q.elements| && q.elements[k] == at && e !in q.elements
    modifies q, SetOf(q.elements), e
    ensures q.Valid() && q.elements == Inserted(old(q.elements), k + 1, e)
  {
    ghost var s, nexts, prevs := q.elements, Nexts(q.elements), Prevs(q.elements);
    Neighbours(q, k);
    e.next := at.next;
    e.prev := at;
    if at.next == null {
      q.last := e;
    } else {
      at.next.prev := e;
    }
    at.next := e;
    q.elements := Inserted(s, k + 1, e);
    InsertionKeeps(q, s, nexts, prevs, k + 1, e);
  }

  method CircleInsertBefore(q: Queue, at: Element, e: Element, ghost k: nat)
    requires q.Valid() && k < |q.elements| && q.elements[k] == at && e !in q.elements
    modifies q, SetOf(q.elements), e
    ensures q.Valid() && q.elements == Inserted(old(q.elements), k, e)
  {
    ghost var s, nexts, prevs := q.elements, Nexts(q.elements), Prevs(q.elements);
    Neighbours(q, k);
    e.next := at;
    e.prev := at.prev;
    if at.prev == null {
      q.first := e;
    } else {
      at.prev.next := e;
    }
    at.prev := e;
    q.elements := Inserted(s, k, e);
    InsertionKeeps(q, s, nexts, prevs, k, e);
  }

  method CircleInsertHead(q: Queue, e: Element)
    requires q.Valid() && e !in q.elements
    modifies q, SetOf(q.elements), e
    ensures q.Valid() && q.elements == Inserted(old(q.elements), 0, e)
  {
    ghost var s, nexts, prevs := q.elements, Nexts(q.elements), Prevs(q.elements);
    e.next := q.first;
    e.prev := null;
    if q.last == null {
      q.last := e;
    } else {
      q.first.prev := e;
    }
    q.first := e;
    q.elements := Inserted(s, 0, e);
    InsertionKeeps(q, s, nexts, prevs, 0, e);
  }

  method CircleInsertTail(q: Queue, e: Element)
    requires q.Valid() && e !in q.elements
    modifies q, SetOf(q.elements), e
    ensures q.Valid() && q.elements == Inserted(old(q.elements), |old(q.elements)|, e)
  {
    ghost var s, nexts, prevs := q.elements, Nexts(q.elements), Prevs(q.elements);
    e.next := null;
    e.prev := q.last;
    if q.first == null {
      q.first := e;
    } else {
      q.last.next := e;
    }
    q.last := e;
    q.elements := Inserted(s, |s|, e);
    InsertionKeeps(q, s, nexts, prevs, |s|, e);
  }

  method CircleRemove(q: Queue, e: Element, ghost k: nat)
    requires q.Valid() && k < |q.elements| && q.elements[k] == e
    modifies q, SetOf(q.elements)
    ensures q.Valid() && q.elements == Removed(old(q.elements), k)
  {
    ghost var s, nexts, prevs := q.elements, Nexts(q.elements), Prevs(q.elements);
    Neighbours(q, k);
    if e.next == null {
      q.last := e.prev;
    } else {
      e.next.prev := e.prev;
    }
    if e.prev == null {
      q.first := e.next;
    } else {
      e.prev.next := e.next;
    }
    q.elements := Removed(s, k);
    RemovalKeeps(q, s, nexts, prevs, k);
  }

  // ---------------------------------------------------------------- tail queues

  /** Writes through a pointer to a next field; null is the address of the head's first field. */
  method Store(q: Queue, slot: Element?, e: Element?)
    modifies q, slot
    ensures slot == null ==> q.first == e
    ensures slot != null ==> slot.next == e && slot.prev == old(slot.prev) && q.first == old(q.first)
    ensures q.last == old(q.last) && q.elements == old(q.elements)
  {
    if slot == null {
      q.first := e;
    } else {
      slot.next := e;
    }
  }

  method TailInsertHead(q: Queue, e: Element)
    requires q.Valid() && e !in q.elements
    modifies q, SetOf(q.elements), e
    ensures q.Valid() && q.elements == Inserted(old(q.elements), 0, e)
  {
    ghost var s, nexts, prevs := q.elements, Nexts(q.elements), Prevs(q.elements);
    e.next := q.first;
    if e.next != null {
      q.first.prev := e;
    } else {
      q.last := e;
    }
    q.first := e;
    e.prev := null;
    q.elements := Inserted(s, 0, e);
    InsertionKeeps(q, s, nexts, prevs, 0, e);
  }

  method TailInsertTail(q: Queue, e: Element)
    requires q.Valid() && e !in q.elements
    modifies q, SetOf(q.elements), e
    ensures q.Valid() && q.elements == Inserted(old(q.elements), |old(q.elements)|, e)
  {
    ghost var s, nexts, prevs := q.elements, Nexts(q.elements), Prevs(q.elements);
    e.next := null;
    e.prev := q.last;
    Store(q, q.last, e);
    q.last := e;
    q.elements := Inserted(s, |s|, e);
    InsertionKeeps(q, s, nexts, prevs, |s|, e);
  }

  method TailInsertAfter(q: Queue, at: Element, e: Element, ghost k: nat)
    requires q.Valid() && k < |q.elements| && q.elements[k] == at && e !in q.elements
    modifies q, SetOf(q.elements), e
    ensures q.Valid() && q.elements == Inserted(old(q.elements), k + 1, e)
  {
    ghost var s, nexts, prevs := q.elements, Nexts(q.elements), Prevs(q.elements);
    Neighbours(q, k);
    e.next := at.next;
    if e.next != null {
      e.next.prev := e;
    } else {
      q.last := e;
    }
    at.next := e;
    e.prev := at;
    q.elements := Inserted(s, k + 1, e);
    InsertionKeeps(q, s, nexts, prevs, k + 1, e);
  }

  method TailInsertBefore(q: Queue, at: Element, e: Element, ghost k: nat)
    requires q.Valid() && k < |q.elements| && q.elements[k] == at && e !in q.elements
    modifies q, SetOf(q.elements), e
    ensures q.Valid() && q.elements == Inserted(old(q.elements), k, e)
  {
    ghost var s, nexts, prevs := q.elements, Nexts(q.elements), Prevs(q.elements);
    Neighbours(q, k);
    e.prev := at.prev;
    e.next := at;
    Store(q, at.prev, e);
    at.prev := e;
    q.elements := Inserted(s, k, e);
    InsertionKeeps(q, s, nexts, prevs, k, e);
  }

  method TailRemove(q: Queue, e: Element, ghost k: nat)
    requires q.Valid() && k < |q.elements| && q.elements[k] == e
    modifies q, SetOf(q.elements)
    ensures q.Valid() && q.elements == Removed(old(q.elements), k)
  {
    ghost var s, nexts, prevs := q.elements, Nexts(q.elements), Prevs(q.elements);
    Neighbours(q, k);
    if e.next != null {
      e.next.prev := e.prev;
    } else {
      q.last := e.prev;
    }
    Store(q, e.prev, e.next);
    q.elements := Removed(s, k);
    RemovalKeeps(q, s, nexts, prevs, k);
  }

  // ---------------------------------------------------------------- walks

  method Forward(q: Queue) returns (r: seq<Element>)
    requires q.Valid()
    ensures r == q.elements
  {
    r := [];
    var e := q.first;
    while e != null
      invariant |r| <= |q.elements| && r == q.elements[..|r|] && e == At(q.elements, |r|)
      decreases |q.elements| - |r|
    {
      Neighbours(q, |r|);
      r := r + [e];
      e := e.next;
    }
  }

  method Backward(q: Queue) returns (r: seq<Element>)
    requires q.Valid()
    ensures |r| == |q.elements| && forall i :: 0 <= i < |r| ==> r[i] == q.elements[|r| - 1 - i]
  {
    r := [];
    var e := q.last;
    while e != null
      invariant |r| <= |q.elements| && e == Before(q.elements, |q.elements| - |r|)
      invariant forall i :: 0 <= i < |r| ==> r[i] == q.elements[|q.elements| - 1 - i]
      decreases |q.elements| - |r|
    {
      Neighbours(q, |q.elements| - |r| - 1);
      r := r + [e];
      e := e.prev;
    }
  }

  // ---------------------------------------------------------------- runs

  datatype Kind = Circle | Tail

  datatype Op =
    | InsertHead(e: Element) | InsertTail(e: Element)
    | InsertAfter(at: Element, e: Element) | InsertBefore(at: Element, e: Element)
    | Remove(e: Element)

  function Position(s: seq<Element>, e: Element): (k: nat)
    requires e in s
    ensures k < |s| && s[k] == e
  {
    if s[0] == e then 0 else 1 + Position(s[1..], e)
  }

  /** Only what is outside the queue is inserted, and only what is inside is named otherwise. */
  predicate Legal(s: seq<Element>, op: Op)
  {
    match op
    case InsertHead(e) => e !in s
    case InsertTail(e) => e !in s
    case InsertAfter(at, e) => at in s && e !in s
    case InsertBefore(at, e) => at in s && e !in s
    case Remove(e) => e in s
  }

  function Applied(s: seq<Element>, op: Op): (r: seq<Element>)
    requires Legal(s, op)
  {
    match op
    case InsertHead(e) => [e] + s
    case InsertTail(e) => s + [e]
    case InsertAfter(at, e) => Inserted(s, Position(s, at) + 1, e)
    case InsertBefore(at, e) => Inserted(s, Position(s, at), e)
    case Remove(e) => Removed(s, Position(s, e))
  }

  predicate LegalRun(s: seq<Element>, ops: seq<Op>)
    decreases |ops|
  {
    ops == [] || (Legal(s, ops[0]) && LegalRun(Applied(s, ops[0]), ops[1..]))
  }

  function AppliedAll(s: seq<Element>, ops: seq<Op>): (r: seq<Element>)
    requires LegalRun(s, ops)
    decreases |ops|
  {
    if ops == [] then s else AppliedAll(Applied(s, ops[0]), ops[1..])
  }

  predicate Inside(s: seq<Element>, pool: set<Element>)
  {
    SetOf(s) <= pool
  }

  predicate OpsInside(ops: seq<Op>, pool: set<Element>)
  {
    ops == [] || (ops[0].e in pool && OpsInside(ops[1..], pool))
  }

  lemma AppliedInside(s: seq<Element>, op: Op, pool: set<Element>)
    requires Legal(s, op) && Inside(s, pool) && op.e in pool
    ensures Inside(Applied(s, op), pool)
  {
  }

  lemma Ends(s: seq<Element>, e: Element)
    ensures Inserted(s, 0, e) == [e] + s && Inserted(s, |s|, e) == s + [e]
  {
  }

  method CircleStep(q: Queue, op: Op, ghost pool: set<Element>)
    requires q.Valid() && Legal(q.elements, op) && Inside(q.elements, pool) && op.e in pool
    modifies q, pool
    ensures q.Valid() && q.elements == Applied(old(q.elements), op)
  {
    ghost var s := q.elements;
    Ends(s, op.e);
    match op
    case InsertHead(e) => CircleInsertHead(q, e);
    case InsertTail(e) => CircleInsertTail(q, e);
    case InsertAfter(at, e) => CircleInsertAfter(q, at, e, Position(s, at));
    case InsertBefore(at, e) => CircleInsertBefore(q, at, e, Position(s, at));
    case Remove(e) => CircleRemove(q, e, Position(s, e));
  }

  method TailStep(q: Queue, op: Op, ghost pool: set<Element>)
    requires q.Valid() && Legal(q.elements, op) && Inside(q.elements, pool) && op.e in pool
    modifies q, pool
    ensures q.Valid() && q.elements == Applied(old(q.elements), op)
  {
    ghost var s := q.elements;
    Ends(s, op.e);
    match op
    case InsertHead(e) => TailInsertHead(q, e);
    case InsertTail(e) => TailInsertTail(q, e);
    case InsertAfter(at, e) => TailInsertAfter(q, at, e, Position(s, at));
    case InsertBefore(at, e) => TailInsertBefore(q, at, e, Position(s, at));
    case Remove(e) => TailRemove(q, e, Position(s, e));
  }

  /** After every legal run of operations on a queue of either kind, the queue holds what the same run
      makes of a sequence, with all links in order. */
  method Run(kind: Kind, q: Queue, ops: seq<Op>, ghost pool: set<Element>)
    requires q.Valid() && LegalRun(q.elements, ops) && Inside(q.elements, pool) && OpsInside(ops, pool)
    modifies q, pool
    ensures q.Valid() && q.elements == AppliedAll(old(q.elements), ops)
    decreases |ops|
  {
    if ops != [] {
      AppliedInside(q.elements, ops[0], pool);
      if kind == Circle {
        CircleStep(q, ops[0], pool);
      } else {
        TailStep(q, ops[0], pool);
      }
      Run(kind, q, ops[1..], pool);
    }
  }

  // ---------------------------------------------------------------- singly linked tail queues

  /** The links run through the sequence and end. */
  ghost predicate Lined(s: seq<Element>, nexts: seq<Element?>)
    requires |nexts| == |s|
  {
    && Distinct(s)
    && (forall i, j :: 0 <= i < j < |s| && j == i + 1 ==> nexts[i] == s[j])
    && (s != [] ==> nexts[|s| - 1] == null)
  }

  class Line {
    var first: Element?
    /** The element whose next field is the last link; null for the head's own field. */
    var last: Element?
    ghost var elements: seq<Element>

    ghost predicate Valid()
      reads this, elements
    {
      && Lined(elements, Nexts(elements))
      && first == At(elements, 0) && last == Before(elements, |elements|)
    }

    constructor ()
      ensures Valid() && elements == []
    {
      first, last, elements := null, null, [];
    }

    method InsertHead(e: Element)
      requires Valid() && e !in elements
      modifies this, SetOf(elements), e
      ensures Valid() && elements == Inserted(old(elements), 0, e)
    {
      ghost var s, nexts := elements, Nexts(elements);
      e.next := first;
      if e.next == null {
        last := e;
      }
      first := e;
      elements := Inserted(s, 0, e);
      LineInsertionKeeps(this, s, nexts, 0, e);
    }

    method InsertTail(e: Element)
      requires Valid() && e !in elements
      modifies this, SetOf(elements), e
      ensures Valid() && elements == Inserted(old(elements), |old(elements)|, e)
    {
      ghost var s, nexts := elements, Nexts(elements);
      e.next := null;
      if last == null {
        first := e;
      } else {
        last.next := e;
      }
      last := e;
      elements := Inserted(s, |s|, e);
      LineInsertionKeeps(this, s, nexts, |s|, e);
    }

    method InsertAfter(at: Element, e: Element, ghost k: nat)
      requires Valid() && k < |elements| && elements[k] == at && e !in elements
      modifies this, SetOf(elements), e
      ensures Valid() && elements == Inserted(old(elements), k + 1, e)
    {
      ghost var s, nexts := elements, Nexts(elements);
      NextInLine(this, k);
      e.next := at.next;
      if e.next == null {
        last := e;
      }
      at.next := e;
      elements := Inserted(s, k + 1, e);
      LineInsertionKeeps(this, s, nexts, k + 1, e);
    }

    method RemoveHead()
      requires Valid() && elements != []
      modifies this
      ensures Valid() && elements == old(elements)[1..]
    {
      NextInLine(this, 0);
      first := first.next;
      if first == null {
        last := null;
      }
      elements := elements[1..];
    }

    method RemoveHeadUntil(e: Element, ghost k: nat)
      requires Valid() && k < |elements| && elements[k] == e
      modifies this
      ensures Valid() && elements == old(elements)[k + 1..]
    {
      NextInLine(this, k);
      first := e.next;
      if first == null {
        last := null;
      }
      ghost var s, nexts := elements, Nexts(elements);
      elements := s[k + 1..];
      LineDropped(this, s, nexts, k + 1);
    }

    /** Removal of any element searches for the one before it. */
    method Remove(e: Element, ghost k: nat)
      requires Valid() && k < |elements| && elements[k] == e
      modifies this, SetOf(elements)
      ensures Valid() && elements == Removed(old(elements), k)
    {
      if first == e {
        RemoveHead();
      } else {
        ghost var s, nexts := elements, Nexts(elements);
        var cur := FindBefore(e, k);
        NextInLine(this, k);
        cur.next := e.next;
        if cur.next == null {
          last := cur;
        }
        elements := Removed(s, k);
        LineRemovalKeeps(this, s, nexts, k);
      }
    }

    method FindBefore(e: Element, ghost k: nat) returns (cur: Element)
      requires Valid() && 0 < k < |elements| && elements[k] == e
      ensures cur == elements[k - 1] && cur.next == e
    {
      cur := first;
      ghost var i := 0;
      NextInLine(this, 0);
      while cur.next != e
        invariant 0 <= i < k && cur == elements[i] && cur.next == elements[i + 1]
        decreases k - i
      {
        cur := cur.next;
        i := i + 1;
        NextInLine(this, i);
      }
    }
  }

  lemma LineSuffix(s: seq<Element>, nexts: seq<Element?>, k: nat)
    requires |nexts| == |s| && Lined(s, nexts) && k <= |s|
    ensures Lined(s[k..], nexts[k..])
  {
  }

  lemma LineDropped(q: Line, s: seq<Element>, nexts: seq<Element?>, k: nat)
    requires |nexts| == |s| && Lined(s, nexts) && k <= |s| && q.elements == s[k..]
    requires q.first == At(s, k) && q.last == (if k == |s| then null else s[|s| - 1])
    requires forall i :: 0 <= i < |s| ==> s[i].next == nexts[i]
    ensures q.Valid()
  {
    LineSuffix(s, nexts, k);
    assert Nexts(q.elements) == nexts[k..];
  }

  lemma NextInLine(q: Line, k: nat)
    requires q.Valid() && k < |q.elements|
    ensures q.elements[k].next == At(q.elements, k + 1)
  {
    assert Nexts(q.elements)[k] == q.elements[k].next;
  }

  lemma LineInsertionKeeps(q: Line, s: seq<Element>, nexts: seq<Element?>, k: nat, e: Element)
    requires |nexts| == |s| && Lined(s, nexts) && k <= |s| && e !in s
    requires q.elements == Inserted(s, k, e) && e.next == At(s, k)
    requires q.first == (if k == 0 then e else At(s, 0)) && q.last == (if k == |s| then e else Before(s, |s|))
    requires forall i :: 0 <= i < |s| ==> s[i].next == if i == k - 1 then e else nexts[i]
    ensures q.Valid()
  {
    InsertedAt(s, k, e);
    var t := q.elements;
    forall i, j | 0 <= i < j < |t| && j == i + 1
      ensures t[i].next == t[j]
    {
      if i < k - 1 {
        assert t[i] == s[i] && t[j] == s[j];
      } else if i > k {
        assert t[i] == s[i - 1] && t[j] == s[i];
      }
    }
  }

  lemma LineRemovalKeeps(q: Line, s: seq<Element>, nexts: seq<Element?>, k: nat)
    requires |nexts| == |s| && Lined(s, nexts) && 0 < k < |s|
    requires q.elements == Removed(s, k) && q.first == s[0]
    requires q.last == (if k == |s| - 1 then Before(s, k) else Before(s, |s|))
    requires forall i :: 0 <= i < |s| ==> s[i].next == if i == k - 1 then At(s, k + 1) else nexts[i]
    ensures q.Valid()
  {
    RemovedAt(s, k);
    var t := q.elements;
    forall i, j | 0 <= i < j < |t| && j == i + 1
      ensures t[i].next == t[j]
    {
      if i < k - 1 {
        assert t[i] == s[i] && t[j] == s[j];
      } else if i >= k {
        assert t[i] == s[i + 1] && t[j] == s[i + 2];
      }
    }
  }

  /** The walk over a singly linked queue. */
  method LineForward(q: Line) returns (r: seq<Element>)
    requires q.Valid()
    ensures r == q.elements
  {
    r := [];
    var e := q.first;
    while e != null
      invariant |r| <= |q.elements| && r == q.elements[..|r|] && e == At(q.elements, |r|)
      decreases |q.elements| - |r|
    {
      NextInLine(q, |r|);
      r := r + [e];
      e := e.next;
    }
  }

  // ---------------------------------------------------------------- runs of singly linked tail queues

  /** The operations shared with the other queues, but for insertion before an element, and two more. */
  datatype LineOp = Shared(op: Op) | RemoveHead | RemoveHeadUntil(e: Element)

  predicate LineLegal(s: seq<Element>, op: LineOp)
  {
    match op
    case Shared(o) => !o.InsertBefore? && Legal(s, o)
    case RemoveHead => s != []
    case RemoveHeadUntil(e) => e in s
  }

  function LineApplied(s: seq<Element>, op: LineOp): (r: seq<Element>)
    requires LineLegal(s, op)
  {
    match op
    case Shared(o) => Applied(s, o)
    case RemoveHead => s[1..]
    case RemoveHeadUntil(e) => s[Position(s, e) + 1..]
  }

  predicate LineLegalRun(s: seq<Element>, ops: seq<LineOp>)
    decreases |ops|
  {
    ops == [] || (LineLegal(s, ops[0]) && LineLegalRun(LineApplied(s, ops[0]), ops[1..]))
  }

  function LineAppliedAll(s: seq<Element>, ops: seq<LineOp>): (r: seq<Element>)
    requires LineLegalRun(s, ops)
    decreases |ops|
  {
    if ops == [] then s else LineAppliedAll(LineApplied(s, ops[0]), ops[1..])
  }

  predicate LineOpsInside(ops: seq<LineOp>, pool: set<Element>)
  {
    ops == [] || ((ops[0].Shared? ==> ops[0].op.e in pool) && LineOpsInside(ops[1..], pool))
  }

  lemma LineAppliedInside(s: seq<Element>, op: LineOp, pool: set<Element>)
    requires LineLegal(s, op) && Inside(s, pool) && (op.Shared? ==> op.op.e in pool)
    ensures Inside(LineApplied(s, op), pool)
  {
    if op.Shared? {
      AppliedInside(s, op.op, pool);
    }
  }

  method LineShared(q: Line, op: Op, ghost pool: set<Element>)
    requires q.Valid() && !op.InsertBefore? && Legal(q.elements, op) && Inside(q.elements, pool) && op.e in pool
    modifies q, pool
    ensures q.Valid() && q.elements == Applied(old(q.elements), op)
  {
    ghost var s := q.elements;
    Ends(s, op.e);
    match op
    case InsertHead(e) => q.InsertHead(e);
    case InsertTail(e) => q.InsertTail(e);
    case InsertAfter(at, e) => q.InsertAfter(at, e, Position(s, at));
    case Remove(e) => q.Remove(e, Position(s, e));
  }

  method LineStep(q: Line, op: LineOp, ghost pool: set<Element>)
    requires q.Valid() && LineLegal(q.elements, op) && Inside(q.elements, pool) && (op.Shared? ==> op.op.e in pool)
    modifies q, pool
    ensures q.Valid() && q.elements == LineApplied(old(q.elements), op)
  {
    ghost var s := q.elements;
    match op
    case Shared(o) => LineShared(q, o, pool);
    case RemoveHead => q.RemoveHead();
    case RemoveHeadUntil(e) => q.RemoveHeadUntil(e, Position(s, e));
  }

  /** After every legal run on a singly linked queue it holds what the run makes of a sequence, with all
      links in order and the last pointer at the final link. */
  method LineRun(q: Line, ops: seq<LineOp>, ghost pool: set<Element>)
    requires q.Valid() && LineLegalRun(q.elements, ops) && Inside(q.elements, pool) && LineOpsInside(ops, pool)
    modifies q, pool
    ensures q.Valid() && q.elements == LineAppliedAll(old(q.elements), ops)
    decreases |ops|
  {
    if ops != [] {
      LineAppliedInside(q.elements, ops[0], pool);
      LineStep(q, ops[0], pool);
      LineRun(q, ops[1..], pool);
    }
  }
}
