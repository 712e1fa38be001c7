/** `walkMimeStructure`: the pre-order walk of the part tree that both the body
    selector and the image collector run, calling a visitor on each part with
    its depth. The visitor is a pure function from the walk's accumulated state
    to the next state, or to the exception it throws. */
module MimeWalk {
  import opened Wrappers
  import opened Mime

  /** One step of a walk: the visitor is called on a part at a level, or the
      children of a multipart part cannot be read. */
  datatype Event = Visit(part: Part, level: int) | Broken

  /** The steps a walk of `t` from `level` takes, in the order it takes them:
      a part before its children, children in index order one level deeper,
      no descent below a part that is not a multipart, and a stop after the
      children that could be enumerated of a broken multipart. */
  function Trace(t: MimeTree, level: int): seq<Event>
    decreases t
  {
    match t
    case Leaf(p) => [Visit(p, level)]
    case Multipart(p, children) => [Visit(p, level)] + TraceAll(children, level)
    case BrokenMultipart(p, children) => [Visit(p, level)] + TraceAll(children, level) + [Broken]
  }

  /** The steps of walking each of `children`, whose parent is at `level`. */
  function TraceAll(children: seq<MimeTree>, level: int): seq<Event>
    decreases children
  {
    if children == [] then []
    else Trace(children[0], level + 1) + TraceAll(children[1..], level)
  }

  /** The callback of `MimeMessageCallback.walk`. */
  type Visitor<!S> = (S, Part, int) -> Result<S, Error>

  /** The outcome of a walk: the final state, or the state reached when an
      exception stopped it, with the exception. */
  datatype Walked<S> = Done(state: S) | Aborted(state: S, error: Error)

  /** Running the visitor over a sequence of steps; the first exception ends it. */
  function Fold<S>(visit: Visitor<S>, s: S, events: seq<Event>): Walked<S>
    decreases |events|
  {
    if events == [] then Done(s)
    else
      match events[0]
      case Broken => Aborted(s, MultipartUnreadable)
      case Visit(p, level) =>
        match visit(s, p, level)
        case Failure(e) => Aborted(s, e)
        case Success(next) => Fold(visit, next, events[1..])
  }

  /** A walk over two stretches of steps is the walk over the first, continued
      over the second only if the first completed. */
  lemma {:induction false} FoldAppend<S>(visit: Visitor<S>, s: S, a: seq<Event>, b: seq<Event>)
    ensures Fold(visit, s, a + b) ==
      match Fold(visit, s, a)
      case Done(mid) => Fold(visit, mid, b)
      case Aborted(_, _) => Fold(visit, s, a)
    decreases |a|
  {
    if a == [] {
      assert a + b == b;
    } else {
      assert (a + b)[0] == a[0];
      assert (a + b)[1..] == a[1..] + b;
      match a[0]
      case Broken =>
      case Visit(p, level) =>
        match visit(s, p, level)
        case Failure(e) =>
        case Success(next) => FoldAppend(visit, next, a[1..], b);
    }
  }

  /** Once an exception has stopped the walk, no later part is visited: what
      follows has no effect on the outcome. */
  lemma AbortedWalkIgnoresRest<S>(visit: Visitor<S>, s: S, a: seq<Event>, b: seq<Event>)
    requires Fold(visit, s, a).Aborted?
    ensures Fold(visit, s, a + b) == Fold(visit, s, a)
  {
    FoldAppend(visit, s, a, b);
  }

  /** A visitor exception at some step aborts the walk with that exception and
      the state reached before that step, whatever steps would follow. */
  lemma VisitorFailureAborts<S>(visit: Visitor<S>, s: S, before: seq<Event>, p: Part, level: int, after: seq<Event>)
    requires Fold(visit, s, before).Done?
    requires visit(Fold(visit, s, before).state, p, level).Failure?
    ensures Fold(visit, s, before + [Visit(p, level)] + after)
         == Aborted(Fold(visit, s, before).state, visit(Fold(visit, s, before).state, p, level).error)
  {
    var mid := Fold(visit, s, before).state;
    FoldAppend(visit, s, before, [Visit(p, level)] + after);
    assert before + [Visit(p, level)] + after == before + ([Visit(p, level)] + after);
  }

  /** `walkMimeStructure(t, level, visit)`: calls the visitor on the part, then,
      for a multipart part, walks each child in index order one level deeper;
      for a broken one, throws once the children it could enumerate are walked. */
  method WalkMimeStructure<S>(t: MimeTree, level: int, s: S, visit: Visitor<S>) returns (r: Walked<S>)
    ensures r == Fold(visit, s, Trace(t, level))
    decreases t
  {
    var visited := visit(s, t.part, level);
    if visited.Failure? {
      return Aborted(s, visited.error);
    }
    var state := visited.value;
    match t {
      case Leaf(_) =>
        r := Done(state);
      case _ =>
        // the children that can be enumerated, then the enumeration's exception
        var children := t.children;
        var stop: seq<Event> := if t.BrokenMultipart? then [Broken] else [];
        assert Trace(t, level) == [Visit(t.part, level)] + (TraceAll(children[0..], level) + stop);
        for i := 0 to |children|
          invariant Fold(visit, s, Trace(t, level)) == Fold(visit, state, TraceAll(children[i..], level) + stop)
        {
          assert children[i..][1..] == children[i + 1..];
          var rest := TraceAll(children[i + 1..], level) + stop;
          assert TraceAll(children[i..], level) + stop == Trace(children[i], level + 1) + rest;
          var child := WalkMimeStructure(children[i], level + 1, state, visit);
          FoldAppend(visit, state, Trace(children[i], level + 1), rest);
          if child.Aborted? {
            return child;
          }
          state := child.state;
        }
        assert children[|children|..] == [];
        if t.BrokenMultipart? {
          r := Aborted(state, MultipartUnreadable);
        } else {
          r := Done(state);
        }
    }
  }

  /** The parts a sequence of steps visits, each with its level. */
  function Visits(events: seq<Event>): multiset<(Part, int)>
    decreases |events|
  {
    if events == [] then multiset{}
    else if events[0].Visit? then multiset{(events[0].part, events[0].level)} + Visits(events[1..])
    else Visits(events[1..])
  }

  lemma {:induction false} VisitsAppend(a: seq<Event>, b: seq<Event>)
    ensures Visits(a + b) == Visits(a) + Visits(b)
    decreases |a|
  {
    if a == [] {
      assert a + b == b;
    } else {
      assert (a + b)[0] == a[0];
      assert (a + b)[1..] == a[1..] + b;
      VisitsAppend(a[1..], b);
    }
  }

  /** The nodes of a tree, each part paired with its depth below `level`,
      counted without regard to order. */
  function Nodes(t: MimeTree, level: int): multiset<(Part, int)>
    decreases t
  {
    match t
    case Leaf(p) => multiset{(p, level)}
    case _ => multiset{(t.part, level)} + NodesAll(t.children, level)
  }

  function NodesAll(children: seq<MimeTree>, level: int): multiset<(Part, int)>
    decreases children
  {
    if children == [] then multiset{}
    else Nodes(children[0], level + 1) + NodesAll(children[1..], level)
  }

  /** The walk visits every node of the tree exactly once, the root at the
      starting level and every child one level below its parent. */
  lemma {:induction false} WalkVisitsEveryNodeOnce(t: MimeTree, level: int)
    ensures Visits(Trace(t, level)) == Nodes(t, level)
    decreases t
  {
    match t
    case Leaf(p) =>
      assert Trace(t, level)[1..] == [];
    case Multipart(p, children) =>
      assert Trace(t, level)[1..] == TraceAll(children, level);
      WalkVisitsEveryChildOnce(children, level);
    case BrokenMultipart(p, children) =>
      var broken: seq<Event> := [Broken];
      assert broken[1..] == [];
      assert Visits(broken) == multiset{};
      VisitsAppend([Visit(p, level)] + TraceAll(children, level), broken);
      assert ([Visit(p, level)] + TraceAll(children, level))[1..] == TraceAll(children, level);
      WalkVisitsEveryChildOnce(children, level);
  }

  lemma {:induction false} WalkVisitsEveryChildOnce(children: seq<MimeTree>, level: int)
    ensures Visits(TraceAll(children, level)) == NodesAll(children, level)
    decreases children
  {
    if children != [] {
      VisitsAppend(Trace(children[0], level + 1), TraceAll(children[1..], level));
      WalkVisitsEveryNodeOnce(children[0], level + 1);
      WalkVisitsEveryChildOnce(children[1..], level);
    }
  }

  lemma {:induction false} TraceAllSplit(children: seq<MimeTree>, level: int, i: nat)
    requires i < |children|
    ensures TraceAll(children, level)
         == TraceAll(children[..i], level) + Trace(children[i], level + 1) + TraceAll(children[i + 1..], level)
    decreases i
  {
    if i == 0 {
      assert children[..0] == [];
    } else {
      TraceAllSplit(children[1..], level, i - 1);
      assert children[1..][..i - 1] == children[1..i];
      assert children[1..][i - 1] == children[i];
      assert children[1..][i..] == children[i + 1..];
      assert children[..i][0] == children[0] && children[..i][1..] == children[1..i];
    }
  }

  /** Pre-order: in the walk of a multipart part, the part comes first, then the
      whole walk of each child in index order, each one level deeper. */
  lemma ChildWalkPosition(p: Part, children: seq<MimeTree>, level: int, i: nat)
    requires i < |children|
    ensures Trace(Multipart(p, children), level)
         == [Visit(p, level)] + TraceAll(children[..i], level) + Trace(children[i], level + 1)
            + TraceAll(children[i + 1..], level)
  {
    TraceAllSplit(children, level, i);
  }

  /** A tree none of whose multipart parts has unreadable children. */
  predicate Intact(t: MimeTree)
    decreases t
  {
    match t
    case Leaf(_) => true
    case BrokenMultipart(_, _) => false
    case Multipart(_, children) => forall i :: 0 <= i < |children| ==> Intact(children[i])
  }

  /** Every step of walking an intact tree is a visit; the root is visited first. */
  lemma {:induction false} IntactTraceVisits(t: MimeTree, level: int)
    requires Intact(t)
    ensures Trace(t, level)[0] == Visit(t.part, level)
    ensures forall i :: 0 <= i < |Trace(t, level)| ==> Trace(t, level)[i].Visit?
    decreases t
  {
    if t.Multipart? {
      IntactChildrenTraceVisits(t.children, level);
    }
  }

  lemma {:induction false} IntactChildrenTraceVisits(children: seq<MimeTree>, level: int)
    requires forall i :: 0 <= i < |children| ==> Intact(children[i])
    ensures forall i :: 0 <= i < |TraceAll(children, level)| ==> TraceAll(children, level)[i].Visit?
    decreases children
  {
    if children != [] {
      IntactTraceVisits(children[0], level + 1);
      IntactChildrenTraceVisits(children[1..], level);
    }
  }
}
