/**
 What moving one list of pairs into another does to the pairs (pairmove in valuepair.c): nothing is
 lost or duplicated, the order is kept, attributes do not interfere with one another, and what the
 operators promise holds attribute by attribute.
 */
module Merge {
  import opened PairList

  // ---------------------------------------------------------------- filters

  lemma {:induction false} OnlyConcat(a: seq<Node>, b: seq<Node>, attr: int)
    ensures Only(a + b, attr) == Only(a, attr) + Only(b, attr)
  {
    if b == [] {
      assert a + b == a;
    } else {
      var n := b[|b| - 1];
      assert a + b == a + b[..|b| - 1] + [n];
      OnlyConcat(a, b[..|b| - 1], attr);
      FilterSnoc(a + b[..|b| - 1], n, attr);
    }
  }

  lemma {:induction false} OnlyOfWithout(nodes: seq<Node>, attr: int, other: int)
    ensures Only(Without(nodes, attr), other) == if attr == other then [] else Only(nodes, other)
  {
    if nodes != [] {
      var init, n := nodes[..|nodes| - 1], nodes[|nodes| - 1];
      OnlyOfWithout(init, attr, other);
      FilterSnoc(Without(init, attr), n, other);
    }
  }

  lemma {:induction false} OnlyOfOnly(nodes: seq<Node>, attr: int, other: int)
    ensures Only(Only(nodes, attr), other) == if attr == other then Only(nodes, other) else []
    ensures Without(Only(nodes, attr), attr) == []
  {
    if nodes != [] {
      var init, n := nodes[..|nodes| - 1], nodes[|nodes| - 1];
      OnlyOfOnly(init, attr, other);
      FilterSnoc(Only(init, attr), n, other);
      FilterSnoc(Only(init, attr), n, attr);
    }
  }

  predicate AllOf(nodes: seq<Node>, attr: int)
  {
    forall n :: n in nodes ==> n.attribute == attr
  }

  lemma {:induction false} OnlyIsOf(nodes: seq<Node>, attr: int)
    ensures AllOf(Only(nodes, attr), attr) && Within(Only(nodes, attr), nodes)
  {
    if nodes != [] {
      OnlyIsOf(nodes[..|nodes| - 1], attr);
    }
  }

  lemma {:induction false} FirstOfOnly(nodes: seq<Node>, attr: int)
    ensures First(Only(nodes, attr), attr) == First(nodes, attr)
  {
    if nodes != [] {
      FirstOfOnly(nodes[1..], attr);
      assert nodes == [nodes[0]] + nodes[1..];
      OnlyConcat([nodes[0]], nodes[1..], attr);
      OnlySingle(nodes[0], attr);
      if nodes[0].attribute == attr {
        assert Only(nodes, attr)[0] == nodes[0];
      } else {
        assert Only(nodes, attr) == Only(nodes[1..], attr);
      }
    }
  }

  lemma OnlySingle(n: Node, attr: int)
    ensures Only([n], attr) == if n.attribute == attr then [n] else []
  {
    assert [n] == [] + [n];
    FilterSnoc([], n, attr);
  }

  lemma {:induction false} Partition(nodes: seq<Node>, attr: int)
    ensures multiset(Without(nodes, attr)) + multiset(Only(nodes, attr)) == multiset(nodes)
  {
    if nodes != [] {
      Partition(nodes[..|nodes| - 1], attr);
      assert nodes == nodes[..|nodes| - 1] + [nodes[|nodes| - 1]];
    }
  }

  // ---------------------------------------------------------------- conservation

  function All(s: Lists): (m: multiset<Node>)
  {
    multiset(s.to) + multiset(s.from) + multiset(s.freed)
  }

  lemma OneConserved(v: Verdict, s: Lists, i: Node)
    ensures All(Applied(v, s, i)) == All(s) + multiset{i}
  {
    Partition(s.to, i.attribute);
  }

  lemma {:induction false} FoldConserved(hasPassword: bool, s: Lists, rest: seq<Node>)
    ensures All(Moved(hasPassword, s, rest)) == All(s) + multiset(rest)
  {
    if rest != [] {
      var t, n := Moved(hasPassword, s, rest[..|rest| - 1]), rest[|rest| - 1];
      FoldConserved(hasPassword, s, rest[..|rest| - 1]);
      OneConserved(Judge(hasPassword, First(t.to, n.attribute), n), t, n);
      CountLast(rest);
    }
  }

  lemma CountLast(nodes: seq<Node>)
    requires nodes != []
    ensures multiset(nodes) == multiset(nodes[..|nodes| - 1]) + multiset{nodes[|nodes| - 1]}
  {
    assert nodes == nodes[..|nodes| - 1] + [nodes[|nodes| - 1]];
  }

  /** Every node ends up in exactly one place: in the first list, in the second, or deleted. */
  lemma Conserved(to: seq<Node>, from: seq<Node>)
    ensures All(PairMoved(to, from)) == multiset(to) + multiset(from)
  {
    if to != [] {
      FoldConserved(HasPassword(to), Lists(to, [], []), from);
    }
  }

  // ---------------------------------------------------------------- order

  /** `a` is `b` with some elements left out. */
  predicate Subsequence(a: seq<Node>, b: seq<Node>)
  {
    || a == []
    || (b != [] && (|| (a[|a| - 1] == b[|b| - 1] && Subsequence(a[..|a| - 1], b[..|b| - 1]))
                    || Subsequence(a, b[..|b| - 1])))
  }

  lemma SubsequenceSnoc(a: seq<Node>, b: seq<Node>, n: Node)
    requires Subsequence(a, b)
    ensures Subsequence(a, b + [n]) && Subsequence(a + [n], b + [n])
  {
    assert (a + [n])[..|a|] == a && (b + [n])[..|b|] == b;
  }

  lemma {:induction false} SubsequenceWithout(a: seq<Node>, b: seq<Node>, attr: int)
    requires Subsequence(a, b)
    ensures Subsequence(Without(a, attr), b)
    decreases |b|
  {
    if a != [] {
      var init, n := b[..|b| - 1], b[|b| - 1];
      assert b == init + [n];
      if Subsequence(a, init) {
        SubsequenceWithout(a, init, attr);
        SubsequenceSnoc(Without(a, attr), init, n);
      } else {
        SubsequenceWithout(a[..|a| - 1], init, attr);
        SubsequenceSnoc(Without(a[..|a| - 1], attr), init, n);
      }
    }
  }

  lemma {:induction false} SubsequenceOfItself(a: seq<Node>)
    ensures Subsequence(a, a)
  {
    if a != [] {
      SubsequenceOfItself(a[..|a| - 1]);
    }
  }

  lemma OneKeepsOrder(v: Verdict, s: Lists, i: Node, before: seq<Node>, rest: seq<Node>)
    requires Subsequence(s.to, before) && Subsequence(s.from, rest)
    ensures var r := Applied(v, s, i);
            Subsequence(r.to, before + [i]) && Subsequence(r.from, rest + [i])
  {
    if v.deletes {
      SubsequenceWithout(s.to, before, i.attribute);
    }
    SubsequenceSnoc(Kept(v, s.to, i.attribute), before, i);
    SubsequenceSnoc(s.from, rest, i);
  }

  predicate InOrder(s: Lists, to: seq<Node>, rest: seq<Node>)
  {
    Subsequence(s.to, to + rest) && Subsequence(s.from, rest)
  }

  lemma StartInOrder(to: seq<Node>)
    ensures InOrder(Lists(to, [], []), to, [])
  {
    assert to + [] == to;
    SubsequenceOfItself(to);
  }

  lemma LastOfTwo(to: seq<Node>, rest: seq<Node>)
    requires rest != []
    ensures rest[..|rest| - 1] + [rest[|rest| - 1]] == rest
    ensures to + rest[..|rest| - 1] + [rest[|rest| - 1]] == to + rest
  {
  }

  lemma LastInOrder(hasPassword: bool, s: Lists, to: seq<Node>, rest: seq<Node>)
    requires rest != [] && InOrder(s, to, rest[..|rest| - 1])
    ensures InOrder(MoveOne(hasPassword, s, rest[|rest| - 1]), to, rest)
  {
    var init, n := rest[..|rest| - 1], rest[|rest| - 1];
    OneKeepsOrder(Judge(hasPassword, First(s.to, n.attribute), n), s, n, to + init, init);
    LastOfTwo(to, rest);
  }

  lemma {:induction false} FoldInOrder(hasPassword: bool, to: seq<Node>, rest: seq<Node>)
    ensures InOrder(Moved(hasPassword, Lists(to, [], []), rest), to, rest)
  {
    if rest == [] {
      StartInOrder(to);
    } else {
      FoldInOrder(hasPassword, to, rest[..|rest| - 1]);
      LastInOrder(hasPassword, Moved(hasPassword, Lists(to, [], []), rest[..|rest| - 1]), to, rest);
    }
  }

  /** Neither list is reordered: what is in the first list afterwards stands in the order of the two
      lists one after the other. */
  lemma OrderKept(to: seq<Node>, from: seq<Node>)
    ensures var r := PairMoved(to, from);
            Subsequence(r.to, to + from) && Subsequence(r.from, from)
  {
    if to == [] {
      assert to + from == from;
      SubsequenceOfItself(from);
    } else {
      FoldInOrder(HasPassword(to), to, from);
    }
  }

  // ---------------------------------------------------------------- attributes apart

  function Restrict(s: Lists, attr: int): (r: Lists)
  {
    Lists(Only(s.to, attr), Only(s.from, attr), Only(s.freed, attr))
  }

  lemma AppliedRestricted(v: Verdict, s: Lists, i: Node, attr: int)
    ensures Restrict(Applied(v, s, i), attr) ==
            if i.attribute == attr then Applied(v, Restrict(s, attr), i) else Restrict(s, attr)
  {
    OnlyOfWithout(s.to, i.attribute, attr);
    OnlyOfOnly(s.to, i.attribute, attr);
    OnlyConcat(s.freed, Gone(v, s.to, i.attribute), attr);
    FilterSnoc(s.from, i, attr);
    FilterSnoc(Kept(v, s.to, i.attribute), i, attr);
  }

  lemma OneRestricted(hasPassword: bool, s: Lists, i: Node, attr: int)
    ensures Restrict(MoveOne(hasPassword, s, i), attr) ==
            if i.attribute == attr then MoveOne(hasPassword, Restrict(s, attr), i) else Restrict(s, attr)
  {
    AppliedRestricted(Judge(hasPassword, First(s.to, i.attribute), i), s, i, attr);
    FirstOfOnly(s.to, attr);
  }

  /** What happens to one attribute depends only on the pairs with that attribute. */
  lemma {:induction false} Separable(hasPassword: bool, s: Lists, rest: seq<Node>, attr: int)
    ensures Restrict(Moved(hasPassword, s, rest), attr) == Moved(hasPassword, Restrict(s, attr), Only(rest, attr))
  {
    if rest != [] {
      Separable(hasPassword, s, rest[..|rest| - 1], attr);
      OneRestricted(hasPassword, Moved(hasPassword, s, rest[..|rest| - 1]), rest[|rest| - 1], attr);
      MovedSnoc(hasPassword, Restrict(s, attr), Only(rest[..|rest| - 1], attr), rest[|rest| - 1]);
    }
  }

  // ---------------------------------------------------------------- what the operators promise

  /** Whether a node of this attribute is held back because the first list has a password. */
  predicate HeldBack(to: seq<Node>, attr: int)
  {
    HasPassword(to) && (attr == 2 || attr == 1006)
  }

  lemma {:induction false} HeldBackStay(s: Lists, xs: seq<Node>, attr: int)
    requires AllOf(xs, attr) && (attr == 2 || attr == 1006)
    ensures Moved(true, s, xs) == Lists(s.to, s.from + xs, s.freed)
  {
    if xs == [] {
      assert s.from + xs == s.from;
    } else {
      var init, n := xs[..|xs| - 1], xs[|xs| - 1];
      HeldBackStay(s, init, attr);
      assert xs == init + [n] && n in xs;
      assert s.from + xs == s.from + init + [n] && s.freed + [] == s.freed;
    }
  }

  /** If the first list has a password of either kind, both kinds are left alone in both lists. */
  lemma PasswordsUntouched(to: seq<Node>, from: seq<Node>, attr: int)
    requires HeldBack(to, attr)
    ensures Restrict(PairMoved(to, from), attr) == Lists(Only(to, attr), Only(from, attr), [])
  {
    var s := Lists(to, [], []);
    Separable(true, s, from, attr);
    OnlyIsOf(from, attr);
    HeldBackStay(Restrict(s, attr), Only(from, attr), attr);
    assert [] + Only(from, attr) == Only(from, attr);
  }

  predicate AllEqual(nodes: seq<Node>)
  {
    forall n :: n in nodes ==> n.op.Equal?
  }

  /** Not moved if already present, and then only the first. */
  function FirstOnly(to: seq<Node>, from: seq<Node>): (r: seq<Node>)
  {
    if to != [] || from == [] then to else [from[0]]
  }

  lemma {:induction false} EqualFold(hasPassword: bool, s: Lists, xs: seq<Node>, attr: int)
    requires AllOf(s.to, attr) && AllOf(xs, attr) && AllEqual(xs)
    requires attr != 1040 && attr != 22 && !(hasPassword && (attr == 2 || attr == 1006))
    ensures Moved(hasPassword, s, xs).to == FirstOnly(s.to, xs)
  {
    if xs != [] {
      var init, n := xs[..|xs| - 1], xs[|xs| - 1];
      assert xs == init + [n] && n in xs;
      EqualFold(hasPassword, s, init, attr);
      var t := Moved(hasPassword, s, init);
      assert t.to == FirstOnly(s.to, init);
      if t.to == [] {
        assert First(t.to, attr) == null;
      } else {
        assert t.to[0] in t.to && t.to[0].attribute == attr;
        assert First(t.to, attr) != null;
      }
    }
  }

  /** Pairs with operator `=` are moved only if their attribute is not present yet -- unless the first
      list is empty, when the whole second list moves, repetitions and all. */
  lemma EqualMovesIfAbsentExactly(to: seq<Node>, from: seq<Node>, attr: int)
    requires attr != 1040 && attr != 22 && !HeldBack(to, attr) && AllEqual(Only(from, attr))
    ensures Only(PairMoved(to, from).to, attr) == FirstOnly(Only(to, attr), Only(from, attr))
            <==> to != [] || |Only(from, attr)| <= 1
  {
    OnlyIsOf(to, attr);
    OnlyIsOf(from, attr);
    if to != [] {
      var h, s := HasPassword(to), Lists(to, [], []);
      Separable(h, s, from, attr);
      EqualFold(h, Restrict(s, attr), Only(from, attr), attr);
    }
  }

  /** The last pair of an attribute decides: what is left of the attribute in the first list, given what
      there was when that pair was reached. */
  function Decided(now: seq<Node>, i: Node): (r: seq<Node>)
  {
    if i.attribute == 1040 || i.attribute == 22 then now + [i]
    else match i.op
      case Sub => if now != [] && (i.text == "" || now[0].text == i.text) then [] else now
      case Equal => if now == [] then [i] else now
      case Set => [i]
      case Add => now + [i]
      case Other => now + [i]
  }

  lemma OneDecides(s: Lists, i: Node)
    requires AllOf(s.to, i.attribute) && Without(s.to, i.attribute) == []
    ensures Applied(Judged(First(s.to, i.attribute), i), s, i).to == Decided(s.to, i)
  {
    if s.to != [] {
      assert s.to[0] in s.to && s.to[0].attribute == i.attribute;
      assert First(s.to, i.attribute) == s.to[0];
    }
  }

  lemma OnlyLast(pre: seq<Node>, i: Node, post: seq<Node>)
    requires Only(post, i.attribute) == []
    ensures Only(pre + [i] + post, i.attribute) == Only(pre, i.attribute) + [i]
  {
    OnlyConcat(pre + [i], post, i.attribute);
    FilterSnoc(pre, i, i.attribute);
  }

  lemma LastDecides(to: seq<Node>, pre: seq<Node>, i: Node, post: seq<Node>)
    requires to != [] && !HeldBack(to, i.attribute) && Only(post, i.attribute) == []
    ensures Only(PairMoved(to, pre + [i] + post).to, i.attribute) ==
            Decided(Only(PairMoved(to, pre).to, i.attribute), i)
  {
    var h, s, attr := HasPassword(to), Lists(to, [], []), i.attribute;
    var t := Moved(h, s, pre);
    OnlyLast(pre, i, post);
    Separable(h, s, pre + [i] + post, attr);
    Separable(h, s, pre, attr);
    MovedSnoc(h, Restrict(s, attr), Only(pre, attr), i);
    OnlyIsOf(t.to, attr);
    OnlyOfOnly(t.to, attr, attr);
    OneDecides(Restrict(t, attr), i);
  }

  // ---------------------------------------------------------------- what stays behind

  lemma {:induction false} FromWithin(hasPassword: bool, s: Lists, rest: seq<Node>, n: Node)
    requires n !in s.from && n !in rest
    ensures n !in Moved(hasPassword, s, rest).from
  {
    if rest != [] {
      FromWithin(hasPassword, s, rest[..|rest| - 1], n);
    }
  }

  /** What comes later does not change who stayed behind. */
  lemma {:induction false} StaysThrough(hasPassword: bool, s: Lists, done: seq<Node>, post: seq<Node>, n: Node)
    requires n !in post
    ensures n in Moved(hasPassword, s, done + post).from <==> n in Moved(hasPassword, s, done).from
  {
    if post == [] {
      assert done + post == done;
    } else {
      var init, i := post[..|post| - 1], post[|post| - 1];
      StaysThrough(hasPassword, s, done, init, n);
      assert done + post == done + init + [i];
      MovedSnoc(hasPassword, s, done + init, i);
    }
  }

  lemma PresentMeans(nodes: seq<Node>, attr: int)
    ensures First(nodes, attr) != null <==> Only(nodes, attr) != []
  {
    FirstOfOnly(nodes, attr);
    OnlyIsOf(nodes, attr);
    if Only(nodes, attr) != [] {
      assert Only(nodes, attr)[0] in Only(nodes, attr);
    }
  }

  /** `i` takes `n` away: it gives no text or the same. */
  predicate Names(i: Node, n: Node)
  {
    i.text == "" || n.text == i.text
  }

  /** What becomes of the node that stands first when `i` is met: `-=` takes it away, `:=` replaces it, and
      the others only fill the gap. */
  function Stood(f: Node?, i: Node): (n: Node?)
  {
    match i.op
    case Sub => if f != null && Names(i, f) then null else f
    case Set => i
    case Equal => if f == null then i else f
    case Add => if f == null then i else f
    case Other => if f == null then i else f
  }

  /** The node of an attribute that stands first in the first list once the nodes `xs` of the attribute
      from the second list have been met. */
  function Standing(first: Node?, xs: seq<Node>): (n: Node?)
  {
    if xs == [] then first else Stood(Standing(first, xs[..|xs| - 1]), xs[|xs| - 1])
  }

  /** An attribute stands whenever the last node met is not `-=`; with none met it stands if it did. */
  lemma StandsAfterOther(first: Node?, xs: seq<Node>)
    ensures xs == [] ==> Standing(first, xs) == first
    ensures xs != [] && !xs[|xs| - 1].op.Sub? ==> Standing(first, xs) != null
  {
  }

  /** Behind the last node that is not `-=`, what stands is taken away exactly if one of the rest names it. */
  lemma {:induction false} StandsAfterSubs(first: Node?, xs: seq<Node>, subs: seq<Node>)
    requires forall i :: i in subs ==> i.op.Sub?
    ensures var f := Standing(first, xs);
            Standing(first, xs + subs) == if f != null && exists i :: i in subs && Names(i, f) then null else f
  {
    if subs == [] {
      assert xs + subs == xs;
    } else {
      var init, i := subs[..|subs| - 1], subs[|subs| - 1];
      StandsAfterSubs(first, xs, init);
      assert (xs + subs)[..|xs + subs| - 1] == xs + init && (xs + subs)[|xs + subs| - 1] == i;
      assert subs == init + [i] && i in subs;
    }
  }

  function FirstOf(nodes: seq<Node>): (n: Node?)
  {
    if nodes == [] then null else nodes[0]
  }

  lemma {:induction false} NothingWithout(nodes: seq<Node>, attr: int)
    requires AllOf(nodes, attr)
    ensures Without(nodes, attr) == []
  {
    if nodes != [] {
      assert nodes[|nodes| - 1] in nodes;
      NothingWithout(nodes[..|nodes| - 1], attr);
    }
  }

  lemma {:induction false} StandingFold(hasPassword: bool, s: Lists, xs: seq<Node>, attr: int)
    requires AllOf(s.to, attr) && AllOf(xs, attr)
    requires attr != 1040 && attr != 22 && !(hasPassword && (attr == 2 || attr == 1006))
    ensures var t := Moved(hasPassword, s, xs);
            AllOf(t.to, attr) && FirstOf(t.to) == Standing(FirstOf(s.to), xs)
  {
    if xs != [] {
      StandingFold(hasPassword, s, xs[..|xs| - 1], attr);
      assert xs[|xs| - 1] in xs;
      StandingStep(hasPassword, Moved(hasPassword, s, xs[..|xs| - 1]), xs[|xs| - 1]);
    }
  }

  lemma StandingStep(hasPassword: bool, t: Lists, i: Node)
    requires AllOf(t.to, i.attribute) && Governed(i) && !(hasPassword && IsPassword(i))
    ensures var r := MoveOne(hasPassword, t, i);
            AllOf(r.to, i.attribute) && FirstOf(r.to) == Stood(FirstOf(t.to), i)
  {
    NothingWithout(t.to, i.attribute);
    OneDecides(t, i);
  }

  /** What stands first of an attribute when the nodes `pre` have been met, by the two lists. */
  lemma StandingIs(to: seq<Node>, pre: seq<Node>, attr: int)
    requires to != [] && !HeldBack(to, attr) && attr != 1040 && attr != 22
    ensures FirstOf(Only(PairMoved(to, pre).to, attr)) == Standing(First(to, attr), Only(pre, attr))
  {
    var h, s := HasPassword(to), Lists(to, [], []);
    Separable(h, s, pre, attr);
    OnlyIsOf(to, attr);
    OnlyIsOf(pre, attr);
    StandingFold(h, Restrict(s, attr), Only(pre, attr), attr);
    FirstOfOnly(to, attr);
    if Only(to, attr) != [] {
      assert Only(to, attr)[0] in Only(to, attr);
    }
  }

  /** Whether an attribute is present when a node behind `pre` is reached. */
  predicate Present(to: seq<Node>, pre: seq<Node>, attr: int)
  {
    Standing(First(to, attr), Only(pre, attr)) != null
  }

  /** Exactly which nodes of the second list stay there: passwords that are held back, and among the
      others those with `-=`, and those with `=` whose attribute is present when they are reached. */
  lemma StaysBehindExactly(to: seq<Node>, pre: seq<Node>, n: Node, post: seq<Node>)
    requires n !in pre && n !in post
    ensures n in PairMoved(to, pre + [n] + post).from
            <==> to != [] && (|| HeldBack(to, n.attribute)
                              || (n.attribute !in {1040, 22} && n.op.Sub?)
                              || (n.attribute !in {1040, 22} && n.op.Equal? && Present(to, pre, n.attribute)))
  {
    if to != [] {
      var h, s := HasPassword(to), Lists(to, [], []);
      StaysThrough(h, s, pre + [n], post, n);
      MovedSnoc(h, s, pre, n);
      FromWithin(h, s, pre, n);
      PresentMeans(Moved(h, s, pre).to, n.attribute);
      if !HeldBack(to, n.attribute) && Governed(n) {
        StandingIs(to, pre, n.attribute);
      }
    }
  }

  /** Fall-Through is moved like any other attribute. */
  lemma FallThroughStaysExactly(to: seq<Node>, pre: seq<Node>, n: Node, post: seq<Node>)
    requires n.attribute == 500 && n !in pre && n !in post
    ensures n in PairMoved(to, pre + [n] + post).from
            <==> to != [] && (n.op.Sub? || (n.op.Equal? && Present(to, pre, 500)))
  {
    StaysBehindExactly(to, pre, n, post);
  }
}
