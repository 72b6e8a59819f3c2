/**
 Lists of attribute-value pairs linked through their `next` fields, and the operations that take
 them apart and put them together in place (valuepair.c).
 */
module PairList {
  datatype Operator = Sub | Equal | Set | Add | Other

  const PASSWORD := 2
  const FRAMED_ROUTE := 22
  const VENDOR_SPECIFIC := 26
  const FALL_THROUGH := 500
  const CRYPT_PASSWORD := 1006
  const HINT := 1040

  class Node {
    const attribute: int
    const op: Operator
    const text: string
    var next: Node?

    constructor (attribute: int, op: Operator, text: string)
      ensures this.attribute == attribute && this.op == op && this.text == text && next == null
    {
      this.attribute, this.op, this.text, next := attribute, op, text, null;
    }
  }

  /** The variable a list hangs from; C code passes its address. */
  class Head {
    var first: Node?

    constructor ()
      ensures first == null
    {
      first := null;
    }
  }

  predicate Distinct(nodes: seq<Node>)
  {
    forall i, j :: 0 <= i < j < |nodes| ==> nodes[i] != nodes[j]
  }

  function SetOf(nodes: seq<Node>): (r: set<Node>)
  {
    set n | n in nodes
  }

  function Start(nodes: seq<Node>): (n: Node?)
  {
    if nodes == [] then null else nodes[0]
  }

  /** The node whose `next` field is the end of the list; null for the head variable itself. */
  function TailOf(nodes: seq<Node>): (n: Node?)
  {
    if nodes == [] then null else nodes[|nodes| - 1]
  }

  /** Following `next` from `first` visits exactly these nodes, each once, and then ends. */
  ghost predicate Chain(first: Node?, nodes: seq<Node>)
    reads nodes
  {
    && Distinct(nodes)
    && first == Start(nodes)
    && (forall i, j :: 0 <= i < j < |nodes| && j == i + 1 ==> nodes[i].next == nodes[j])
    && (nodes != [] ==> nodes[|nodes| - 1].next == null)
  }

  // ---------------------------------------------------------------- filters

  function Only(nodes: seq<Node>, attr: int): (r: seq<Node>)
  {
    if nodes == [] then []
    else
      var r := Only(nodes[..|nodes| - 1], attr);
      if nodes[|nodes| - 1].attribute == attr then r + [nodes[|nodes| - 1]] else r
  }

  function Without(nodes: seq<Node>, attr: int): (r: seq<Node>)
    ensures forall n :: n in r ==> n in nodes
  {
    if nodes == [] then []
    else
      var r := Without(nodes[..|nodes| - 1], attr);
      if nodes[|nodes| - 1].attribute == attr then r else r + [nodes[|nodes| - 1]]
  }

  lemma {:induction false} FilterSnoc(nodes: seq<Node>, n: Node, attr: int)
    ensures Only(nodes + [n], attr) == if n.attribute == attr then Only(nodes, attr) + [n] else Only(nodes, attr)
    ensures Without(nodes + [n], attr)
         == if n.attribute == attr then Without(nodes, attr) else Without(nodes, attr) + [n]
  {
    assert (nodes + [n])[..|nodes|] == nodes;
  }

  // ---------------------------------------------------------------- steps on the heap

  /** `i` taken out from between `a` and `b`; `slot` is the variable that points at it. */
  method Unlink(head: Head, slot: Node?, i: Node, next: Node?, ghost a: seq<Node>, ghost b: seq<Node>)
    requires Chain(head.first, a + [i] + b) && slot == TailOf(a) && next == i.next
    modifies head, slot
    ensures Chain(head.first, a + b)
  {
    ghost var s, t := a + [i] + b, a + b;
    NextIn(head.first, a, i, b);
    Removed(a, i, b);
    if slot == null {
      head.first := next;
    } else {
      slot.next := next;
    }
    forall k, j | 0 <= k < j < |t| && j == k + 1
      ensures t[k].next == t[j]
    {
      if k == |a| - 1 {
        assert t[k] == slot && t[j] == b[0];
      } else {
        ghost var k' := if k < |a| then k else k + 1;
        assert t[k] == s[k'] && t[j] == s[k' + 1] && (a != [] ==> slot == s[|a| - 1]);
      }
    }
    if b != [] {
      assert t[|t| - 1] == s[|s| - 1] && (a != [] ==> s[|a| - 1] != s[|s| - 1]);
    } else if a != [] {
      assert t[|t| - 1] == slot;
    }
  }

  /** The node at each place once one is taken out. */
  lemma Removed(a: seq<Node>, i: Node, b: seq<Node>)
    requires Distinct(a + [i] + b)
    ensures Distinct(a + b)
    ensures forall k :: 0 <= k < |a| + |b| ==> (a + b)[k] == if k < |a| then (a + [i] + b)[k] else (a + [i] + b)[k + 1]
  {
    var s, t := a + [i] + b, a + b;
    assert forall k :: 0 <= k < |t| ==> t[k] == if k < |a| then s[k] else s[k + 1];
    forall k, j | 0 <= k < j < |t|
      ensures t[k] != t[j]
    {
      assert s[if k < |a| then k else k + 1] != s[if j < |a| then j else j + 1];
    }
  }

  /** `n` put at the end of the list; `slot` is the variable that holds the end. */
  method Append(head: Head, slot: Node?, n: Node, ghost nodes: seq<Node>)
    requires Chain(head.first, nodes) && slot == TailOf(nodes) && n !in nodes
    modifies head, slot, n
    ensures Chain(head.first, nodes + [n])
  {
    if slot == null {
      head.first := n;
    } else {
      slot.next := n;
    }
    n.next := null;
  }

  method FindTail(head: Head, ghost nodes: seq<Node>) returns (slot: Node?)
    requires Chain(head.first, nodes)
    ensures slot == TailOf(nodes) && Chain(head.first, nodes)
  {
    slot := null;
    var i := head.first;
    ghost var k := 0;
    while i != null
      invariant 0 <= k <= |nodes|
      invariant i == Start(nodes[k..]) && slot == TailOf(nodes[..k])
      decreases |nodes| - k
    {
      slot := i;
      i := i.next;
      k := k + 1;
    }
  }

  // ---------------------------------------------------------------- single operations

  /** The first node with the attribute. */
  function First(nodes: seq<Node>, attr: int): (n: Node?)
    ensures n == null <==> forall m :: m in nodes ==> m.attribute != attr
    ensures n != null ==> n in nodes && n.attribute == attr
  {
    if nodes == [] then null else if nodes[0].attribute == attr then nodes[0] else First(nodes[1..], attr)
  }

  method PairFind(first: Node?, attr: int, ghost nodes: seq<Node>) returns (n: Node?)
    requires Chain(first, nodes)
    ensures n == First(nodes, attr) && Chain(first, nodes)
  {
    n := first;
    ghost var k := 0;
    while n != null && n.attribute != attr
      invariant 0 <= k <= |nodes|
      invariant n == Start(nodes[k..]) && First(nodes, attr) == First(nodes[k..], attr)
      decreases |nodes| - k
    {
      assert nodes[k..][1..] == nodes[k + 1..];
      n := n.next;
      k := k + 1;
    }
  }

  /** The body of the loop of pairdelete. */
  method DeleteNode(head: Head, i: Node, last: Node?, attr: int, ghost kept: seq<Node>, ghost rest: seq<Node>)
    returns (next: Node?, last': Node?)
    requires Chain(head.first, kept + [i] + rest) && last == TailOf(kept)
    modifies head, last
    ensures var kept' := if i.attribute == attr then kept else kept + [i];
            Chain(head.first, kept' + rest) && last' == TailOf(kept') && next == Start(rest)
  {
    NextIn(head.first, kept, i, rest);
    next, last' := i.next, last;
    if i.attribute == attr {
      Unlink(head, last, i, next, kept, rest);
    } else {
      last' := i;
    }
  }

  /** Every node with the attribute leaves the list; the nodes given back to the allocator, in order. */
  method PairDelete(head: Head, attr: int, ghost nodes: seq<Node>) returns (freed: seq<Node>)
    requires Chain(head.first, nodes)
    modifies head, SetOf(nodes)
    ensures Chain(head.first, Without(nodes, attr)) && freed == Only(nodes, attr)
  {
    var i, last := head.first, null;
    freed := [];
    ghost var done: seq<Node>, kept: seq<Node>, rest := [], [], nodes;
    while i != null
      invariant nodes == done + rest && kept == Without(done, attr) && freed == Only(done, attr)
      invariant i == Start(rest) && last == TailOf(kept)
      invariant Chain(head.first, kept + rest)
      decreases |rest|
    {
      var n: Node := i;
      FilterSnoc(done, n, attr);
      Regrouped(done, n, rest);
      Regrouped(kept, n, rest);
      assert last != null ==> last in kept && last in done && last in done + rest;
      done, rest := done + [n], rest[1..];
      i, last := DeleteNode(head, n, last, attr, kept, rest);
      kept := Without(done, attr);
      freed := if n.attribute == attr then freed + [n] else freed;
    }
    assert done + rest == done && kept + rest == kept;
  }

  lemma Regrouped(a: seq<Node>, i: Node, rest: seq<Node>)
    requires rest != [] && rest[0] == i
    ensures a + rest == a + [i] + rest[1..] && i in a + rest
  {
    assert rest == [i] + rest[1..];
  }

  lemma NextIn(first: Node?, a: seq<Node>, i: Node, b: seq<Node>)
    requires Chain(first, a + [i] + b)
    ensures i.next == Start(b)
  {
    var s := a + [i] + b;
    assert s[|a|] == i;
    assert b != [] ==> s[|a| + 1] == b[0];
  }

  // ---------------------------------------------------------------- pairmove, as a fold

  predicate IsPassword(n: Node)
  {
    n.attribute == PASSWORD || n.attribute == CRYPT_PASSWORD
  }

  /** Attributes that go by their operator; Hint and Framed-Route are always added. */
  predicate Governed(n: Node)
  {
    n.attribute == FALL_THROUGH || (n.attribute != HINT && n.attribute != FRAMED_ROUTE)
  }

  /** What a node of the second list does: whether it deletes the nodes of its attribute from the
      first list, and whether it joins that list itself. */
  datatype Verdict = Verdict(deletes: bool, joins: bool)

  /** By operator; `found` is the first node of the attribute in the first list. */
  function Judged(found: Node?, i: Node): (v: Verdict)
  {
    if !Governed(i) then Verdict(false, true)
    else match i.op
      case Sub => Verdict(found != null && (i.text == "" || found.text == i.text), false)
      case Equal => Verdict(false, found == null)
      case Set => Verdict(found != null, true)
      case Add => Verdict(false, true)
      case Other => Verdict(false, true)
  }

  function Judge(hasPassword: bool, found: Node?, i: Node): (v: Verdict)
  {
    if hasPassword && IsPassword(i) then Verdict(false, false) else Judged(found, i)
  }

  function Kept(v: Verdict, to: seq<Node>, attr: int): (r: seq<Node>)
    ensures forall n :: n in r ==> n in to
  {
    if v.deletes then Without(to, attr) else to
  }

  function Gone(v: Verdict, to: seq<Node>, attr: int): (r: seq<Node>)
  {
    if v.deletes then Only(to, attr) else []
  }

  datatype Lists = Lists(to: seq<Node>, from: seq<Node>, freed: seq<Node>)

  function Applied(v: Verdict, s: Lists, i: Node): (r: Lists)
  {
    var freed := s.freed + Gone(v, s.to, i.attribute);
    if v.joins then Lists(Kept(v, s.to, i.attribute) + [i], s.from, freed)
    else Lists(Kept(v, s.to, i.attribute), s.from + [i], freed)
  }

  function MoveOne(hasPassword: bool, s: Lists, i: Node): (r: Lists)
  {
    Applied(Judge(hasPassword, First(s.to, i.attribute), i), s, i)
  }

  function Moved(hasPassword: bool, s: Lists, rest: seq<Node>): (r: Lists)
  {
    if rest == [] then s
    else MoveOne(hasPassword, Moved(hasPassword, s, rest[..|rest| - 1]), rest[|rest| - 1])
  }

  predicate HasPassword(nodes: seq<Node>)
  {
    nodes != [] && (IsPassword(nodes[|nodes| - 1]) || HasPassword(nodes[..|nodes| - 1]))
  }

  function PairMoved(to: seq<Node>, from: seq<Node>): (r: Lists)
  {
    if to == [] then Lists(from, [], []) else Moved(HasPassword(to), Lists(to, [], []), from)
  }

  // ---------------------------------------------------------------- pairmove, on the heap

  predicate Apart(a: seq<Node>, b: seq<Node>)
  {
    forall n :: n in a ==> n !in b
  }

  predicate Within(a: seq<Node>, b: seq<Node>)
  {
    forall n :: n in a ==> n in b
  }

  method Scan(to: Head, ghost nodes: seq<Node>) returns (slot: Node?, hasPassword: bool)
    requires Chain(to.first, nodes)
    ensures slot == TailOf(nodes) && hasPassword == HasPassword(nodes) && Chain(to.first, nodes)
  {
    slot, hasPassword := null, false;
    var i := to.first;
    ghost var k := 0;
    while i != null
      invariant 0 <= k <= |nodes|
      invariant i == Start(nodes[k..]) && slot == TailOf(nodes[..k])
      invariant hasPassword == HasPassword(nodes[..k])
      decreases |nodes| - k
    {
      assert nodes[..k + 1] == nodes[..k] + [i];
      if i.attribute == PASSWORD || i.attribute == CRYPT_PASSWORD {
        hasPassword := true;
      }
      slot := i;
      i := i.next;
      k := k + 1;
    }
    assert nodes[..k] == nodes;
  }

  /** Deletes from a list and finds its new end. */
  method Drop(to: Head, attr: int, ghost nodes: seq<Node>) returns (slot: Node?, freed: seq<Node>)
    requires Chain(to.first, nodes)
    modifies to, SetOf(nodes)
    ensures Chain(to.first, Without(nodes, attr)) && freed == Only(nodes, attr) && slot == TailOf(Without(nodes, attr))
  {
    freed := PairDelete(to, attr, nodes);
    slot := FindTail(to, Without(nodes, attr));
  }

  /** The switch over operators. */
  method Reconcile(to: Head, i: Node, slot: Node?, ghost nodes: seq<Node>)
    returns (joins: bool, slot': Node?, freed: seq<Node>)
    requires Chain(to.first, nodes) && slot == TailOf(nodes)
    modifies to, SetOf(nodes)
    ensures var v := Judged(First(nodes, i.attribute), i);
            && joins == v.joins && freed == Gone(v, nodes, i.attribute)
            && Chain(to.first, Kept(v, nodes, i.attribute)) && slot' == TailOf(Kept(v, nodes, i.attribute))
  {
    joins, slot', freed := true, slot, [];
    if i.attribute != FALL_THROUGH && (i.attribute == HINT || i.attribute == FRAMED_ROUTE) {
      return;
    }
    var found := PairFind(to.first, i.attribute, nodes);
    match i.op
    case Sub =>
      joins := false;
      if found != null && (i.text == "" || found.text == i.text) {
        slot', freed := Drop(to, found.attribute, nodes);
      }
    case Equal =>
      joins := found == null;
    case Set =>
      if found != null {
        slot', freed := Drop(to, found.attribute, nodes);
      }
    case Add =>
    case Other =>
  }

  /** The switch leaves a list apart from the first one as it is. */
  method ReconcileApart(to: Head, from: Head, i: Node, slot: Node?, ghost nodes: seq<Node>, ghost s: seq<Node>)
    returns (joins: bool, slot': Node?, freed: seq<Node>)
    requires to != from && Chain(to.first, nodes) && slot == TailOf(nodes)
    requires Chain(from.first, s) && Apart(nodes, s) && i in s
    modifies to, SetOf(nodes)
    ensures var v := Judged(First(nodes, i.attribute), i);
            && joins == v.joins && freed == Gone(v, nodes, i.attribute)
            && Chain(to.first, Kept(v, nodes, i.attribute)) && slot' == TailOf(Kept(v, nodes, i.attribute))
            && Apart(Kept(v, nodes, i.attribute), s)
    ensures Chain(from.first, s) && i.next == old(i.next)
  {
    joins, slot', freed := Reconcile(to, i, slot, nodes);
    assert forall n :: n in s ==> n !in nodes && n.next == old(n.next);
  }

  /** The body of the loop over the second list. */
  method MoveNode(to: Head, from: Head, hasPassword: bool, i: Node, tailto: Node?, tailfrom: Node?,
                  ghost r: Lists, ghost rest: seq<Node>, ghost pool: set<Node>)
    returns (next: Node?, tailto': Node?, tailfrom': Node?, gone: seq<Node>)
    requires SetOf(r.to) <= pool && SetOf(r.from) <= pool && i in pool
    requires to != from && tailto == TailOf(r.to) && tailfrom == TailOf(r.from)
    requires Chain(to.first, r.to) && Chain(from.first, r.from + [i] + rest) && Apart(r.to, r.from + [i] + rest)
    modifies to, from, pool
    ensures var r' := MoveOne(hasPassword, r, i);
            && Chain(to.first, r'.to) && Chain(from.first, r'.from + rest) && Apart(r'.to, r'.from + rest)
            && next == Start(rest) && tailto' == TailOf(r'.to) && tailfrom' == TailOf(r'.from)
            && r'.freed == r.freed + gone
  {
    NextIn(from.first, r.from, i, rest);
    next, tailto', tailfrom', gone := i.next, tailto, tailfrom, [];
    if hasPassword && (i.attribute == PASSWORD || i.attribute == CRYPT_PASSWORD) {
      tailfrom' := i;
      return;
    }
    ghost var v := Judged(First(r.to, i.attribute), i);
    ghost var to' := Kept(v, r.to, i.attribute);
    var joins;
    joins, tailto', gone := ReconcileApart(to, from, i, tailto, r.to, r.from + [i] + rest);
    if joins {
      assert (tailfrom != null ==> tailfrom in SetOf(r.from))
             && (tailto' != null ==> tailto' in to' && tailto' in SetOf(r.to));
      Transfer(to, from, i, next, tailto', tailfrom, to', r.from, rest);
      tailto' := i;
    } else {
      tailfrom' := i;
    }
  }

  /** One node from the second list to the end of the first. */
  method Transfer(to: Head, from: Head, i: Node, next: Node?, tailto: Node?, tailfrom: Node?,
                  ghost nodes: seq<Node>, ghost a: seq<Node>, ghost rest: seq<Node>)
    requires to != from && tailto == TailOf(nodes) && tailfrom == TailOf(a) && next == i.next
    requires Chain(to.first, nodes) && Chain(from.first, a + [i] + rest) && Apart(nodes, a + [i] + rest)
    modifies to, from, tailto, tailfrom, i
    ensures Chain(to.first, nodes + [i]) && Chain(from.first, a + rest) && Apart(nodes + [i], a + rest)
  {
    ghost var s := a + [i] + rest;
    Parts(a, i, rest);
    assert tailfrom != null ==> tailfrom in s;
    Unlink(from, tailfrom, i, next, a, rest);
    assert forall n :: n in nodes ==> n !in s && n.next == old(n.next);
    label between:
    Append(to, tailto, i, nodes);
    assert forall n :: n in a + rest ==> n in s && n != i && n !in nodes && n.next == old@between(n.next);
  }

  lemma Parts(a: seq<Node>, i: Node, rest: seq<Node>)
    requires Distinct(a + [i] + rest)
    ensures i in a + [i] + rest && i !in a + rest && Within(a + rest, a + [i] + rest)
  {
    var s := a + [i] + rest;
    assert s[|a|] == i;
    forall n | n in a + rest ensures n in s && n != i {
      if n in a {
        var k :| 0 <= k < |a| && a[k] == n;
        assert s[k] == n;
      } else {
        var k :| 0 <= k < |rest| && rest[k] == n;
        assert s[|a| + 1 + k] == n;
      }
    }
  }

  /** The loop over the second list. */
  method MoveAll(to: Head, from: Head, hasPassword: bool, tail: Node?, ghost ts: seq<Node>, ghost fs: seq<Node>)
    returns (freed: seq<Node>)
    requires to != from && tail == TailOf(ts) && Chain(to.first, ts) && Chain(from.first, fs) && Apart(ts, fs)
    modifies to, from, SetOf(ts) + SetOf(fs)
    ensures var r := Moved(hasPassword, Lists(ts, [], []), fs);
            && Chain(to.first, r.to) && Chain(from.first, r.from) && Apart(r.to, r.from)
            && freed == r.freed
  {
    freed := [];
    var i, tailto, tailfrom := from.first, tail, null;
    ghost var r: Lists, rest: seq<Node> := Lists(ts, [], []), fs;
    ghost var end, pool := Moved(hasPassword, r, fs), SetOf(ts) + SetOf(fs);
    ResumesFromStart(hasPassword, r, fs);
    assert r.from + rest == fs;
    while i != null
      invariant end == Resumed(hasPassword, r, rest) && freed == r.freed
      invariant i == Start(rest) && tailfrom == TailOf(r.from) && tailto == TailOf(r.to)
      invariant Chain(to.first, r.to) && Chain(from.first, r.from + rest) && Apart(r.to, r.from + rest)
      invariant SetOf(r.to) <= pool && SetOf(r.from) <= pool && SetOf(rest) <= pool
      decreases |rest|
    {
      var n: Node := i;
      Regrouped(r.from, n, rest);
      MoveStaysWithin(hasPassword, r, n);
      FirstWithin(rest);
      rest := rest[1..];
      ghost var r' := MoveOne(hasPassword, r, n);
      var gone;
      i, tailto, tailfrom, gone := MoveNode(to, from, hasPassword, n, tailto, tailfrom, r, rest, pool);
      freed, r := freed + gone, r';
    }
    assert r.from + rest == r.from;
  }

  /** The fold from a point where `rest` is still to do. */
  ghost function Resumed(hasPassword: bool, r: Lists, rest: seq<Node>): (r': Lists)
    decreases |rest|
  {
    if rest == [] then r else Resumed(hasPassword, MoveOne(hasPassword, r, rest[0]), rest[1..])
  }

  lemma {:induction false} Resumes(hasPassword: bool, s: Lists, done: seq<Node>, rest: seq<Node>)
    ensures Moved(hasPassword, s, done + rest) == Resumed(hasPassword, Moved(hasPassword, s, done), rest)
    decreases |rest|
  {
    if rest == [] {
      assert done + rest == done;
    } else {
      assert done + rest == done + [rest[0]] + rest[1..];
      MovedSnoc(hasPassword, s, done, rest[0]);
      Resumes(hasPassword, s, done + [rest[0]], rest[1..]);
    }
  }

  lemma ResumesFromStart(hasPassword: bool, s: Lists, fs: seq<Node>)
    ensures Moved(hasPassword, s, fs) == Resumed(hasPassword, s, fs)
  {
    assert [] + fs == fs;
    Resumes(hasPassword, s, [], fs);
  }

  lemma FirstWithin(rest: seq<Node>)
    requires rest != []
    ensures rest[0] in SetOf(rest) && SetOf(rest[1..]) <= SetOf(rest)
  {
  }

  /** Both lists end up as the fold says, and the nodes named in `freed` are the ones deleted. */
  method PairMove(to: Head, from: Head, ghost ts: seq<Node>, ghost fs: seq<Node>) returns (freed: seq<Node>)
    requires to != from && Chain(to.first, ts) && Chain(from.first, fs) && Apart(ts, fs)
    modifies to, from, SetOf(ts) + SetOf(fs)
    ensures var r := PairMoved(ts, fs);
            && Chain(to.first, r.to) && Chain(from.first, r.from) && Apart(r.to, r.from)
            && freed == r.freed
  {
    if to.first == null {
      to.first := from.first;
      from.first := null;
      freed := [];
    } else {
      var tailto, hasPassword := Scan(to, ts);
      freed := MoveAll(to, from, hasPassword, tailto, ts, fs);
    }
  }

  lemma MovedSnoc(hasPassword: bool, s: Lists, done: seq<Node>, i: Node)
    ensures Moved(hasPassword, s, done + [i]) == MoveOne(hasPassword, Moved(hasPassword, s, done), i)
  {
    assert (done + [i])[..|done|] == done;
  }

  lemma MoveStaysWithin(hasPassword: bool, s: Lists, i: Node)
    ensures var r := MoveOne(hasPassword, s, i);
            SetOf(r.to) <= SetOf(s.to) + {i} && SetOf(r.from) <= SetOf(s.from) + {i}
  {
  }

  // ---------------------------------------------------------------- pairmove2

  /** One attribute, or all vendor attributes if asked for Vendor-Specific. */
  predicate Selects(attr: int, n: Node)
  {
    if attr == VENDOR_SPECIFIC then n.attribute / 0x10000 % 0x10000 != 0 else n.attribute == attr
  }

  function Selected(nodes: seq<Node>, attr: int, yes: bool): (r: seq<Node>)
    ensures forall n :: n in r ==> n in nodes
  {
    if nodes == [] then []
    else
      var r, n := Selected(nodes[..|nodes| - 1], attr, yes), nodes[|nodes| - 1];
      if Selects(attr, n) == yes then r + [n] else r
  }

  /** A node of a 32-bit attribute moves exactly if it is the attribute, or, for Vendor-Specific, if the upper half
      of its attribute names a vendor; it keeps its place among the others, and one of the lists gets it. */
  lemma {:induction false} SelectedExactly(nodes: seq<Node>, attr: int, n: Node)
    requires 0 <= n.attribute < 0x1_0000_0000
    ensures n in Selected(nodes, attr, true)
            <==> n in nodes && if attr == 26 then n.attribute >= 0x1_0000 else n.attribute == attr
    ensures n in nodes <==> n in Selected(nodes, attr, true) || n in Selected(nodes, attr, false)
    ensures multiset(nodes) == multiset(Selected(nodes, attr, true)) + multiset(Selected(nodes, attr, false))
  {
    if nodes != [] {
      assert nodes == nodes[..|nodes| - 1] + [nodes[|nodes| - 1]];
      SelectedExactly(nodes[..|nodes| - 1], attr, n);
    }
  }

  /** The lists once the nodes in `done` have been looked at. */
  function Moved2(ts: seq<Node>, done: seq<Node>, attr: int): (r: Lists)
  {
    Lists(ts + Selected(done, attr, true), Selected(done, attr, false), [])
  }

  function Move2One(r: Lists, attr: int, n: Node): (r': Lists)
  {
    if Selects(attr, n) then r.(to := r.to + [n]) else r.(from := r.from + [n])
  }

  lemma Moved2Snoc(ts: seq<Node>, done: seq<Node>, attr: int, n: Node)
    ensures Moved2(ts, done + [n], attr) == Move2One(Moved2(ts, done, attr), attr, n)
  {
    assert (done + [n])[..|done|] == done;
    assert ts + (Selected(done, attr, true) + [n]) == ts + Selected(done, attr, true) + [n];
  }

  lemma Move2StaysWithin(r: Lists, attr: int, n: Node)
    ensures var r' := Move2One(r, attr, n);
            SetOf(r'.to) <= SetOf(r.to) + {n} && SetOf(r'.from) <= SetOf(r.from) + {n}
  {
  }

  /** The body of the loop: one node is moved or left. */
  method Move2Node(to: Head, from: Head, attr: int, n: Node, totail: Node?, prev: Node?,
                   ghost r: Lists, ghost rest: seq<Node>, ghost pool: set<Node>)
    returns (next: Node?, totail': Node?, prev': Node?)
    requires SetOf(r.to) <= pool && SetOf(r.from) <= pool && n in pool
    requires to != from && totail == TailOf(r.to) && prev == TailOf(r.from)
    requires Chain(to.first, r.to) && Chain(from.first, r.from + [n] + rest) && Apart(r.to, r.from + [n] + rest)
    modifies to, from, pool
    ensures var r' := Move2One(r, attr, n);
            && Chain(to.first, r'.to) && Chain(from.first, r'.from + rest) && Apart(r'.to, r'.from + rest)
            && next == Start(rest) && totail' == TailOf(r'.to) && prev' == TailOf(r'.from)
  {
    NextIn(from.first, r.from, n, rest);
    next, totail', prev' := n.next, totail, prev;
    if attr != VENDOR_SPECIFIC && n.attribute != attr {
      prev' := n;
    } else if attr == VENDOR_SPECIFIC && n.attribute / 0x10000 % 0x10000 == 0 {
      prev' := n;
    } else {
      assert (prev != null ==> prev in SetOf(r.from)) && (totail != null ==> totail in SetOf(r.to));
      Transfer(to, from, n, next, totail, prev, r.to, r.from, rest);
      totail' := n;
    }
  }

  method Move2All(to: Head, from: Head, attr: int, tail: Node?, ghost ts: seq<Node>, ghost fs: seq<Node>)
    requires to != from && tail == TailOf(ts) && Chain(to.first, ts) && Chain(from.first, fs) && Apart(ts, fs)
    modifies to, from, SetOf(ts) + SetOf(fs)
    ensures var r := Moved2(ts, fs, attr);
            Chain(to.first, r.to) && Chain(from.first, r.from)
  {
    var i, totail, prev := from.first, tail, null;
    ghost var r: Lists, rest: seq<Node> := Lists(ts, [], []), fs;
    ghost var end, pool := Moved2(ts, fs, attr), SetOf(ts) + SetOf(fs);
    Resumes2FromStart(ts, fs, attr);
    assert r.from + rest == fs;
    while i != null
      invariant end == Resumed2(r, rest, attr)
      invariant i == Start(rest) && prev == TailOf(r.from) && totail == TailOf(r.to)
      invariant Chain(to.first, r.to) && Chain(from.first, r.from + rest) && Apart(r.to, r.from + rest)
      invariant SetOf(r.to) <= pool && SetOf(r.from) <= pool && SetOf(rest) <= pool
      decreases |rest|
    {
      var n: Node := i;
      Regrouped(r.from, n, rest);
      Move2StaysWithin(r, attr, n);
      FirstWithin(rest);
      rest := rest[1..];
      ghost var r' := Move2One(r, attr, n);
      i, totail, prev := Move2Node(to, from, attr, n, totail, prev, r, rest, pool);
      r := r';
    }
    assert r.from + rest == r.from;
  }

  ghost function Resumed2(r: Lists, rest: seq<Node>, attr: int): (r': Lists)
    decreases |rest|
  {
    if rest == [] then r else Resumed2(Move2One(r, attr, rest[0]), rest[1..], attr)
  }

  lemma {:induction false} Resumes2(ts: seq<Node>, done: seq<Node>, rest: seq<Node>, attr: int)
    ensures Moved2(ts, done + rest, attr) == Resumed2(Moved2(ts, done, attr), rest, attr)
    decreases |rest|
  {
    if rest == [] {
      assert done + rest == done;
    } else {
      assert done + rest == done + [rest[0]] + rest[1..];
      Moved2Snoc(ts, done, attr, rest[0]);
      Resumes2(ts, done + [rest[0]], rest[1..], attr);
    }
  }

  lemma Resumes2FromStart(ts: seq<Node>, fs: seq<Node>, attr: int)
    ensures Moved2(ts, fs, attr) == Resumed2(Lists(ts, [], []), fs, attr)
  {
    assert [] + fs == fs && ts + [] == ts;
    Resumes2(ts, [], fs, attr);
  }

  /** The selected nodes go to the end of the first list in order; the others stay in order. */
  method PairMove2(to: Head, from: Head, attr: int, ghost ts: seq<Node>, ghost fs: seq<Node>)
    requires to != from && Chain(to.first, ts) && Chain(from.first, fs) && Apart(ts, fs)
    modifies to, from, SetOf(ts) + SetOf(fs)
    ensures Chain(to.first, ts + Selected(fs, attr, true)) && Chain(from.first, Selected(fs, attr, false))
  {
    var totail := FindTail(to, ts);
    Move2All(to, from, attr, totail, ts, fs);
  }

  // ---------------------------------------------------------------- pairreplace

  /** The list with its first node of the attribute replaced, or the new node at the end. */
  function Replaced(nodes: seq<Node>, add: Node): (r: seq<Node>)
  {
    if nodes == [] then [add]
    else if nodes[0].attribute == add.attribute then [add] + nodes[1..]
    else [nodes[0]] + Replaced(nodes[1..], add)
  }

  /** How far the search goes: it stops before the last node. */
  function ReplacedEarly(nodes: seq<Node>, add: Node): (r: seq<Node>)
  {
    if |nodes| <= 1 then nodes + [add]
    else if nodes[0].attribute == add.attribute then [add] + nodes[1..]
    else [nodes[0]] + ReplacedEarly(nodes[1..], add)
  }

  /** The code replaces exactly when the first node of the attribute is not the last node of the list;
      a match in last place is kept and the new node added behind it. */
  lemma {:induction false} ReplacesExactly(nodes: seq<Node>, add: Node)
    requires Distinct(nodes) && add !in nodes
    ensures ReplacedEarly(nodes, add) == Replaced(nodes, add)
            <==> (nodes == [] || First(nodes, add.attribute) != nodes[|nodes| - 1])
  {
    if |nodes| == 1 {
      assert nodes == [nodes[0]] && nodes[1..] == [];
      assert |Replaced(nodes, add)| == if nodes[0].attribute == add.attribute then 1 else 2;
    } else if |nodes| > 1 {
      var rest := nodes[1..];
      assert rest[|rest| - 1] == nodes[|nodes| - 1];
      ReplacesExactly(rest, add);
      if nodes[0].attribute == add.attribute {
        assert nodes[0] != nodes[|nodes| - 1];
      } else {
        ConsEqual(nodes[0], ReplacedEarly(rest, add), Replaced(rest, add));
      }
    }
  }

  lemma ConsEqual(n: Node, a: seq<Node>, b: seq<Node>)
    ensures [n] + a == [n] + b <==> a == b
  {
    assert ([n] + a)[1..] == a && ([n] + b)[1..] == b;
  }

  /** The node that is replaced, if any. */
  function Displaced(nodes: seq<Node>, add: Node): (r: seq<Node>)
  {
    if |nodes| <= 1 then []
    else if nodes[0].attribute == add.attribute then [nodes[0]]
    else Displaced(nodes[1..], add)
  }

  lemma {:induction false} ReplaceConserves(nodes: seq<Node>, add: Node)
    ensures multiset(ReplacedEarly(nodes, add)) + multiset(Displaced(nodes, add)) == multiset(nodes) + multiset{add}
  {
    if |nodes| > 1 {
      assert nodes == [nodes[0]] + nodes[1..];
      assert multiset(nodes) == multiset{nodes[0]} + multiset(nodes[1..]);
      if nodes[0].attribute == add.attribute {
        assert multiset([add] + nodes[1..]) == multiset{add} + multiset(nodes[1..]);
      } else {
        ReplaceConserves(nodes[1..], add);
        Counted(nodes[0], ReplacedEarly(nodes[1..], add), Displaced(nodes[1..], add), nodes[1..], add);
      }
    }
  }

  lemma Counted(n: Node, more: seq<Node>, gone: seq<Node>, rest: seq<Node>, add: Node)
    requires multiset(more) + multiset(gone) == multiset(rest) + multiset{add}
    ensures multiset([n] + more) + multiset(gone) == multiset([n] + rest) + multiset{add}
  {
    assert multiset([n] + more) == multiset{n} + multiset(more);
    assert multiset([n] + rest) == multiset{n} + multiset(rest);
    assert multiset{n} + multiset(more) + multiset(gone) == multiset{n} + (multiset(more) + multiset(gone));
    assert multiset{n} + multiset(rest) + multiset{add} == multiset{n} + (multiset(rest) + multiset{add});
  }

  /** `add` put in the place of `i`. */
  method Substitute(head: Head, slot: Node?, i: Node, next: Node?, add: Node, ghost a: seq<Node>, ghost b: seq<Node>)
    requires Chain(head.first, a + [i] + b) && slot == TailOf(a) && next == i.next && add !in a + [i] + b
    modifies head, slot, add
    ensures Chain(head.first, a + [add] + b)
  {
    ghost var s, t := a + [i] + b, a + [add] + b;
    assert s[|a|] == i && t[|a|] == add;
    assert forall k :: 0 <= k < |s| ==> s[k] != add && (k != |a| ==> s[k] == t[k]);
    NextIn(head.first, a, i, b);
    assert b != [] ==> t[|a| + 1] == b[0];
    if slot == null {
      head.first := add;
    } else {
      assert slot == s[|a| - 1];
      slot.next := add;
    }
    add.next := next;
  }

  /** The body of the search. */
  method ReplaceNode(head: Head, i: Node, last: Node?, add: Node, ghost done: seq<Node>, ghost rest: seq<Node>)
    returns (next: Node?, replaced: bool)
    requires Chain(head.first, done + [i] + rest) && last == TailOf(done) && add !in done + [i] + rest
    modifies head, last, add
    ensures next == Start(rest) && replaced == (i.attribute == add.attribute)
    ensures Chain(head.first, if replaced then done + [add] + rest else done + [i] + rest)
    ensures !replaced ==> add.next == old(add.next)
  {
    NextIn(head.first, done, i, rest);
    next, replaced := i.next, i.attribute == add.attribute;
    if replaced {
      Substitute(head, last, i, next, add, done, rest);
    }
  }

  method PairReplace(head: Head, add: Node, ghost nodes: seq<Node>) returns (freed: seq<Node>)
    requires Chain(head.first, nodes) && add !in nodes && add.next == null
    modifies head, SetOf(nodes), add
    ensures Chain(head.first, ReplacedEarly(nodes, add)) && freed == Displaced(nodes, add)
  {
    freed := [];
    if head.first == null {
      head.first := add;
    } else {
      freed := ReplaceOrAppend(head, head.first, add, nodes);
    }
  }

  /** One turn of the search at the node `i` in front of `rest`. */
  method SearchStep(head: Head, i: Node, last: Node?, add: Node, ghost done: seq<Node>, ghost rest: seq<Node>,
                    ghost end: Replacement)
    returns (next: Node?, replaced: bool)
    requires Chain(head.first, done + [i] + rest) && add !in done + [i] + rest && i.next != null && last == TailOf(done)
    requires end == After(done, Outcome([i] + rest, add))
    modifies head, last, add
    ensures replaced ==> Chain(head.first, end.list) && end.freed == [i]
    ensures !replaced ==>
              && rest != [] && next == rest[0] && add.next == old(add.next)
              && done + [i] + rest == done + [i] + [rest[0]] + rest[1..] && Chain(head.first, done + [i] + rest)
              && end == After(done + [i], Outcome([rest[0]] + rest[1..], add))
  {
    NextIn(head.first, done, i, rest);
    Outcomes(done, i, rest, add);
    Regrouped(done + [i], rest[0], rest);
    next, replaced := ReplaceNode(head, i, last, add, done, rest);
  }

  method ReplaceOrAppend(head: Head, first: Node, add: Node, ghost nodes: seq<Node>) returns (freed: seq<Node>)
    requires Chain(head.first, nodes) && head.first == first && add !in nodes && add.next == null
    modifies head, SetOf(nodes), add
    ensures Chain(head.first, ReplacedEarly(nodes, add)) && freed == Displaced(nodes, add)
  {
    var i: Node, last := first, null;
    ghost var done: seq<Node>, rest: seq<Node> := [], nodes[1..];
    ghost var end := Outcome(nodes, add);
    assert nodes == done + [i] + rest;
    while i.next != null
      invariant nodes == done + [i] + rest && last == TailOf(done)
      invariant Chain(head.first, nodes)
      invariant end == After(done, Outcome([i] + rest, add))
      decreases |rest|
    {
      TailInside(done, i, rest);
      var next, replaced := SearchStep(head, i, last, add, done, rest, end);
      if replaced {
        return [i];
      }
      last := i;
      done, i, rest := done + [i], next, rest[1..];
    }
    freed := [];
    TailInside(done, i, rest);
    AppendLast(head, i, add, done, rest);
  }

  lemma TailInside(done: seq<Node>, i: Node, rest: seq<Node>)
    ensures i in SetOf(done + [i] + rest) && (done != [] ==> done[|done| - 1] in SetOf(done + [i] + rest))
  {
    var s := done + [i] + rest;
    assert s[|done|] == i && (done != [] ==> s[|done| - 1] == done[|done| - 1]);
  }

  method AppendLast(head: Head, i: Node, add: Node, ghost done: seq<Node>, ghost rest: seq<Node>)
    requires Chain(head.first, done + [i] + rest) && i.next == null && add !in done + [i] + rest
    modifies head, i, add
    ensures rest == [] && Replacement(done + [i] + rest + [add], []) == After(done, Outcome([i] + rest, add))
    ensures Chain(head.first, done + [i] + rest + [add])
  {
    NextIn(head.first, done, i, rest);
    OutcomeLast(done, i, rest, add);
    Append(head, i, add, done + [i] + rest);
  }

  datatype Replacement = Replacement(list: seq<Node>, freed: seq<Node>)

  function Outcome(nodes: seq<Node>, add: Node): (r: Replacement)
  {
    Replacement(ReplacedEarly(nodes, add), Displaced(nodes, add))
  }

  function After(done: seq<Node>, r: Replacement): (r': Replacement)
  {
    Replacement(done + r.list, r.freed)
  }

  lemma OutcomeLast(done: seq<Node>, i: Node, rest: seq<Node>, add: Node)
    requires rest == []
    ensures After(done, Outcome([i] + rest, add)) == Replacement(done + [i] + rest + [add], [])
    ensures i == TailOf(done + [i] + rest)
  {
    assert [i] + rest == [i];
    assert done + ([i] + [add]) == done + [i] + rest + [add];
  }

  lemma Outcomes(done: seq<Node>, i: Node, rest: seq<Node>, add: Node)
    requires rest != []
    ensures After(done, Outcome([i] + rest, add)) ==
            if i.attribute == add.attribute then Replacement(done + [add] + rest, [i])
            else After(done + [i], Outcome([rest[0]] + rest[1..], add))
  {
    assert ([i] + rest)[1..] == rest == [rest[0]] + rest[1..];
    assert done + ([add] + rest) == done + [add] + rest;
    assert done + ([i] + ReplacedEarly(rest, add)) == done + [i] + ReplacedEarly(rest, add);
  }
}
