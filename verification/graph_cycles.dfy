/** packages/algorithms/src/graph.ts: one cycle, found by depth-first search with three colours. */
module GraphCycles {
  import opened Basics
  import opened Closure
  import opened GraphPaths
  import opened InsertionOrder

  datatype Colour = White | Grey | Black

  /** A node on the search path and how many of its successors have been taken from its iterator. */
  datatype Frame = Frame(id: Id, next: nat)

  ghost function Ids(stack: seq<Frame>): (path: seq<Id>)
    ensures |path| == |stack|
  {
    if stack == [] then [] else Ids(stack[..|stack| - 1]) + [stack[|stack| - 1].id]
  }

  lemma {:induction false} IdsAt(stack: seq<Frame>, k: nat)
    requires k < |stack|
    ensures Ids(stack)[k] == stack[k].id
  {
    if k < |stack| - 1 { IdsAt(stack[..|stack| - 1], k); }
  }

  lemma ReversePush<T>(s: seq<T>, x: T)
    ensures Reverse(s + [x]) == [x] + Reverse(s)
  {
    assert (s + [x])[..|s|] == s;
  }

  // ---------- What the search keeps true ----------

  /** Grey nodes are on the path, black nodes are finished. */
  ghost predicate Coloured(colour: map<Id, Colour>, grey: set<Id>, black: set<Id>, x: Id)
    requires x in colour
  {
    (colour[x] == Grey <==> x in grey) && (colour[x] == Black <==> x in black)
  }

  ghost predicate Colouring(out: Adjacency, colour: map<Id, Colour>, grey: set<Id>, black: set<Id>) {
    && colour.Keys == out.Keys && grey <= out.Keys && black <= out.Keys
    && forall x {:trigger Coloured(colour, grey, black, x)} :: x in colour ==> Coloured(colour, grey, black, x)
  }

  /** Consecutive nodes of the path are joined by an edge, which the parent map records. */
  ghost predicate Chained(out: Adjacency, parent: map<Id, Id>, path: seq<Id>) {
    forall k {:trigger ChainedAt(out, parent, path, k)} :: 0 < k < |path| ==> ChainedAt(out, parent, path, k)
  }

  ghost predicate ChainedAt(out: Adjacency, parent: map<Id, Id>, path: seq<Id>, k: int)
    requires 0 < k < |path|
  {
    Edge(out, path[k - 1], path[k]) && path[k] in parent && parent[path[k]] == path[k - 1]
  }

  /** Every successor already taken is finished, or is the next node of the path. */
  ghost predicate Explored(out: Adjacency, stack: seq<Frame>, black: set<Id>) {
    forall k {:trigger ExploredAt(out, stack, black, k)} :: 0 <= k < |stack| ==> ExploredAt(out, stack, black, k)
  }

  ghost predicate ExploredAt(out: Adjacency, stack: seq<Frame>, black: set<Id>, k: nat)
    requires k < |stack|
  {
    && stack[k].id in out && stack[k].next <= |out[stack[k].id]|
    && forall n :: 0 <= n < stack[k].next ==>
         out[stack[k].id][n] in black || (k + 1 < |stack| && out[stack[k].id][n] == stack[k + 1].id)
  }

  /** The finished nodes, in finishing order, have all their successors before them. */
  ghost predicate FinishOrder(out: Adjacency, finished: seq<Id>, black: set<Id>) {
    Lists(finished, black) && SuccessorsFirst(out, finished)
  }

  ghost predicate Searching(out: Adjacency, stack: seq<Frame>, colour: map<Id, Colour>, parent: map<Id, Id>,
                            grey: set<Id>, finished: seq<Id>, black: set<Id>) {
    && Colouring(out, colour, grey, black)
    && Lists(Ids(stack), grey)
    && Chained(out, parent, Ids(stack))
    && Explored(out, stack, black)
    && FinishOrder(out, finished, black)
  }

  // ---------- The three moves ----------

  lemma Blacken(out: Adjacency, colour: map<Id, Colour>, grey: set<Id>, black: set<Id>, id: Id)
    requires Colouring(out, colour, grey, black) && id in grey
    ensures Colouring(out, colour[id := Black], grey - {id}, black + {id})
  {
    var colour', grey', black' := colour[id := Black], grey - {id}, black + {id};
    forall x | x in colour'
      ensures Coloured(colour', grey', black', x)
    {
      assert Coloured(colour, grey, black, x);
    }
  }

  /** All successors taken: the node on top is finished. */
  lemma Finish(out: Adjacency, stack: seq<Frame>, colour: map<Id, Colour>, parent: map<Id, Id>, grey: set<Id>, finished: seq<Id>, black: set<Id>, id: Id)
    requires stack != [] && id in out && stack[|stack| - 1] == Frame(id, |out[id]|)
    requires Searching(out, stack, colour, parent, grey, finished, black)
    ensures Searching(out, stack[..|stack| - 1], colour[id := Black], parent, grey - {id}, finished + [id], black + {id})
    ensures id !in black && id in grey && out.Keys - (black + {id}) < out.Keys - black
  {
    var top := |stack| - 1;
    var stack' := stack[..top];
    assert Ids(stack)[top] == id && Ids(stack)[..top] == Ids(stack');
    ListsDistinct(Ids(stack), grey);
    assert Coloured(colour, grey, black, id);
    ListsAppend(finished, black, id);
    Blacken(out, colour, grey, black, id);
    PopChained(out, parent, Ids(stack));
    PopExplored(out, stack, black, id);
    assert ExploredAt(out, stack, black, top);
    FinishExtends(out, finished, black, id);
    assert id in out.Keys - black && id !in out.Keys - (black + {id});
  }

  lemma PopChained(out: Adjacency, parent: map<Id, Id>, path: seq<Id>)
    requires Chained(out, parent, path) && path != []
    ensures Chained(out, parent, path[..|path| - 1])
  {
    var front := path[..|path| - 1];
    forall k | 0 < k < |front|
      ensures ChainedAt(out, parent, front, k)
    {
      assert ChainedAt(out, parent, path, k);
    }
  }

  lemma PopExplored(out: Adjacency, stack: seq<Frame>, black: set<Id>, id: Id)
    requires Explored(out, stack, black) && stack != [] && stack[|stack| - 1].id == id
    ensures Explored(out, stack[..|stack| - 1], black + {id})
  {
    var front := stack[..|stack| - 1];
    forall k | 0 <= k < |front|
      ensures ExploredAt(out, front, black + {id}, k)
    {
      assert ExploredAt(out, stack, black, k);
    }
  }

  lemma FinishExtends(out: Adjacency, finished: seq<Id>, black: set<Id>, id: Id)
    requires FinishOrder(out, finished, black)
    requires id in out && forall n :: 0 <= n < |out[id]| ==> out[id][n] in black
    ensures SuccessorsFirst(out, finished + [id])
  {
    ListsDistinct(finished, black);
    var list := finished + [id];
    forall i | 0 <= i < |list|
      ensures Finished(out, list, i)
    {
      if i < |finished| {
        assert Finished(out, finished, i) && list[..i] == finished[..i];
      } else {
        assert list[..i] == finished;
      }
    }
  }

  /** A black successor is skipped; a white one goes on top of the path. */
  lemma Advance(out: Adjacency, stack: seq<Frame>, stack': seq<Frame>, black: set<Id>)
    requires stack != [] && Explored(out, stack, black)
    requires var f := stack[|stack| - 1]; f.id in out && f.next < |out[f.id]|
    requires var f := stack[|stack| - 1];
             var g := stack[|stack| - 1 := Frame(f.id, f.next + 1)];
             if out[f.id][f.next] in black then stack' == g
             else stack' == g + [Frame(out[f.id][f.next], 0)] && out[f.id][f.next] in out
    ensures Explored(out, stack', black)
  {
    forall k | 0 <= k < |stack'|
      ensures ExploredAt(out, stack', black, k)
    {
      if k < |stack| {
        assert ExploredAt(out, stack, black, k);
      }
    }
  }

  lemma {:induction false} IdsUpdate(stack: seq<Frame>, f: Frame)
    requires stack != [] && f.id == stack[|stack| - 1].id
    ensures Ids(stack[|stack| - 1 := f]) == Ids(stack)
  {
    assert stack[|stack| - 1 := f][..|stack| - 1] == stack[..|stack| - 1];
  }

  lemma IdsPush(stack: seq<Frame>, f: Frame)
    ensures Ids(stack + [f]) == Ids(stack) + [f.id]
  {
    assert (stack + [f])[..|stack|] == stack;
  }

  lemma Skip(out: Adjacency, stack: seq<Frame>, colour: map<Id, Colour>, parent: map<Id, Id>, grey: set<Id>, finished: seq<Id>, black: set<Id>, f: Frame)
    requires stack != [] && stack[|stack| - 1] == f && f.id in out && f.next < |out[f.id]| && out[f.id][f.next] in black
    requires Searching(out, stack, colour, parent, grey, finished, black)
    ensures Searching(out, stack[|stack| - 1 := Frame(f.id, f.next + 1)], colour, parent, grey, finished, black)
  {
    IdsUpdate(stack, Frame(f.id, f.next + 1));
    Advance(out, stack, stack[|stack| - 1 := Frame(f.id, f.next + 1)], black);
  }

  lemma Descend(out: Adjacency, stack: seq<Frame>, colour: map<Id, Colour>, parent: map<Id, Id>, grey: set<Id>, finished: seq<Id>, black: set<Id>,
                f: Frame, next: Id)
    requires stack != [] && stack[|stack| - 1] == f && f.id in out && f.next < |out[f.id]| && out[f.id][f.next] == next
    requires next in colour && colour[next] == White
    requires Searching(out, stack, colour, parent, grey, finished, black)
    ensures Searching(out, stack[|stack| - 1 := Frame(f.id, f.next + 1)] + [Frame(next, 0)], colour[next := Grey], parent[next := f.id],
                      grey + {next}, finished, black)
  {
    var g := stack[|stack| - 1 := Frame(f.id, f.next + 1)];
    IdsUpdate(stack, Frame(f.id, f.next + 1));
    IdsPush(g, Frame(next, 0));
    assert Coloured(colour, grey, black, next);
    Advance(out, stack, g + [Frame(next, 0)], black);
    ListsAppend(Ids(stack), grey, next);
    IdsAt(stack, |stack| - 1);
    Recolour(out, colour, grey, black, next);
    Extend(out, parent, Ids(stack), grey, next);
  }

  lemma Recolour(out: Adjacency, colour: map<Id, Colour>, grey: set<Id>, black: set<Id>, next: Id)
    requires Colouring(out, colour, grey, black) && next in colour && colour[next] == White
    ensures Colouring(out, colour[next := Grey], grey + {next}, black)
  {
    assert Coloured(colour, grey, black, next);
    var colour', grey' := colour[next := Grey], grey + {next};
    forall x | x in colour'
      ensures Coloured(colour', grey', black, x)
    {
      assert Coloured(colour, grey, black, x);
    }
  }

  lemma Extend(out: Adjacency, parent: map<Id, Id>, path: seq<Id>, grey: set<Id>, next: Id)
    requires Chained(out, parent, path) && Lists(path, grey) && next !in grey
    requires path != [] && Edge(out, path[|path| - 1], next)
    ensures Chained(out, parent[next := path[|path| - 1]], path + [next])
  {
    ListsDistinct(path, grey);
    var parent', path' := parent[next := path[|path| - 1]], path + [next];
    forall k | 0 < k < |path'|
      ensures ChainedAt(out, parent', path', k)
    {
      if k < |path| {
        assert ChainedAt(out, parent, path, k);
      }
    }
  }

  // ---------- Reading the cycle off the parent map ----------

  /** Walking parents back from the top of the path to next spells the cycle that the edge to next closes. */
  method Trace(out: Adjacency, parent: map<Id, Id>, top: Id, next: Id, ghost path: seq<Id>, ghost t: nat) returns (cycle: seq<Id>)
    requires Chained(out, parent, path) && t < |path| && path[t] == next && path[t] in out
    requires forall i, j :: 0 <= i < j < |path| ==> path[i] != path[j]
    requires path[|path| - 1] == top && Edge(out, top, next)
    ensures Cycle(out, cycle) && cycle == path[t..] + [next]
  {
    cycle := [next];
    var cursor := top;
    ghost var m := |path| - 1;
    assert path[m + 1..] + [next] == [next] == Reverse(cycle);
    if m > t { assert ChainedAt(out, parent, path, m); }
    while cursor != next && cursor in parent
      invariant t <= m < |path| && cursor == path[m]
      invariant m > t ==> cursor in parent
      invariant Reverse(cycle) == path[m + 1..] + [next]
      decreases m
    {
      assert ChainedAt(out, parent, path, m);
      ReversePush(cycle, cursor);
      cycle := cycle + [cursor];
      cursor := parent[cursor];
      m := m - 1;
      assert path[m + 1..] == [path[m + 1]] + path[m + 2..];
      if m > t { assert ChainedAt(out, parent, path, m); }
    }
    assert m == t;
    ReversePush(cycle, next);
    cycle := Reverse(cycle + [next]);
    assert cycle == path[t..] + [next];
    ClosesCycle(out, parent, path, t, next);
  }

  lemma ClosesCycle(out: Adjacency, parent: map<Id, Id>, path: seq<Id>, t: nat, next: Id)
    requires Chained(out, parent, path) && t < |path| && path[t] == next && path[t] in out
    requires Edge(out, path[|path| - 1], next)
    ensures Cycle(out, path[t..] + [next])
  {
    var p := path[t..];
    forall k | 0 < k < |p|
      ensures Step(out, p, k)
    {
      assert ChainedAt(out, parent, path, t + k);
    }
    PathAppend(out, p, next);
  }

  // ---------- The search ----------

  ghost function Whites(colour: map<Id, Colour>): set<Id> {
    set x | x in colour && colour[x] == White
  }

  /** Successors of the node on top that are still to be taken. */
  ghost function Remaining(out: Adjacency, stack: seq<Frame>): int {
    if stack != [] && stack[|stack| - 1].id in out then |out[stack[|stack| - 1].id]| - stack[|stack| - 1].next else 0
  }

  /** The edge from the top of the path to a grey node closes a cycle. */
  method CloseCycle(out: Adjacency, parent: map<Id, Id>, top: Id, next: Id, ghost stack: seq<Frame>, ghost colour: map<Id, Colour>,
                    ghost grey: set<Id>, ghost finished: seq<Id>, ghost black: set<Id>) returns (cycle: seq<Id>)
    requires Searching(out, stack, colour, parent, grey, finished, black) && stack != [] && stack[|stack| - 1].id == top
    requires next in colour && colour[next] == Grey && Edge(out, top, next)
    ensures Cycle(out, cycle)
  {
    ghost var t := GreyOnPath(out, stack, colour, parent, grey, finished, black, next);
    cycle := Trace(out, parent, top, next, Ids(stack), t);
  }

  method Walk(out: Adjacency, start: Id, colour: map<Id, Colour>, parent: map<Id, Id>, ghost finished: seq<Id>, ghost black: set<Id>)
    returns (cycle: Option<seq<Id>>, colour': map<Id, Colour>, parent': map<Id, Id>, ghost finished': seq<Id>, ghost black': set<Id>)
    requires Closed(out) && start in colour && colour[start] == White
    requires Searching(out, [], colour, parent, {}, finished, black)
    ensures cycle.Some? ==> Cycle(out, cycle.value)
    ensures cycle.None? ==> Searching(out, [], colour', parent', {}, finished', black') && black + {start} <= black'
  {
    parent', finished', black' := parent, finished, black;
    colour' := colour[start := Grey];
    var stack := [Frame(start, 0)];
    ghost var grey := {start};
    Enter(out, start, colour, parent, finished, black);

    while stack != []
      invariant Searching(out, stack, colour', parent', grey, finished', black')
      invariant black <= black' && start in grey + black'
      decreases out.Keys - black', Whites(colour'), Remaining(out, stack)
    {
      var frame := stack[|stack| - 1];
      assert ExploredAt(out, stack, black', |stack| - 1);
      if frame.next == |out[frame.id]| {
        Finish(out, stack, colour', parent', grey, finished', black', frame.id);
        colour' := colour'[frame.id := Black];
        stack := stack[..|stack| - 1];
        grey, finished', black' := grey - {frame.id}, finished' + [frame.id], black' + {frame.id};
        continue;
      }
      var next := out[frame.id][frame.next];
      assert Row(out, frame.id) && Coloured(colour', grey, black', next);
      if colour'[next] == Grey {
        var c := CloseCycle(out, parent', frame.id, next, stack, colour', grey, finished', black');
        return Some(c), colour', parent', finished', black';
      }
      if colour'[next] == White {
        Descend(out, stack, colour', parent', grey, finished', black', frame, next);
        FewerWhites(colour', next);
        colour' := colour'[next := Grey];
        parent' := parent'[next := frame.id];
        stack := stack[|stack| - 1 := Frame(frame.id, frame.next + 1)] + [Frame(next, 0)];
        grey := grey + {next};
      } else {
        Skip(out, stack, colour', parent', grey, finished', black', frame);
        stack := stack[|stack| - 1 := Frame(frame.id, frame.next + 1)];
      }
    }
    assert grey == {};
    cycle := None;
  }

  lemma FewerWhites(colour: map<Id, Colour>, next: Id)
    requires next in colour && colour[next] == White
    ensures Whites(colour[next := Grey]) < Whites(colour)
  {
    assert next in Whites(colour) && next !in Whites(colour[next := Grey]);
  }

  lemma Enter(out: Adjacency, start: Id, colour: map<Id, Colour>, parent: map<Id, Id>, finished: seq<Id>, black: set<Id>)
    requires start in colour && colour[start] == White
    requires Searching(out, [], colour, parent, {}, finished, black)
    ensures Searching(out, [Frame(start, 0)], colour[start := Grey], parent, {start}, finished, black)
  {
    var colour' := colour[start := Grey];
    IdsPush([], Frame(start, 0));
    assert [] + [Frame(start, 0)] == [Frame(start, 0)];
    ListsAppend<Id>([], {}, start);
    assert Coloured(colour, {}, black, start);
    forall x | x in colour'
      ensures Coloured(colour', {start}, black, x)
    {
      assert Coloured(colour, {}, black, x);
    }
    assert ExploredAt(out, [Frame(start, 0)], black, 0);
  }

  lemma GreyOnPath(out: Adjacency, stack: seq<Frame>, colour: map<Id, Colour>, parent: map<Id, Id>, grey: set<Id>, finished: seq<Id>, black: set<Id>, next: Id)
    returns (t: nat)
    requires Searching(out, stack, colour, parent, grey, finished, black) && stack != []
    requires next in colour && colour[next] == Grey
    ensures t < |stack| && Ids(stack)[t] == next && next in out
    ensures forall i, j :: 0 <= i < j < |Ids(stack)| ==> Ids(stack)[i] != Ids(stack)[j]
    ensures Ids(stack)[|stack| - 1] == stack[|stack| - 1].id
  {
    ListsDistinct(Ids(stack), grey);
    assert Coloured(colour, grey, black, next);
    t :| 0 <= t < |Ids(stack)| && Ids(stack)[t] == next;
    IdsAt(stack, |stack| - 1);
  }

  /** A closed walk along existing edges, or nothing exactly when there is none. */
  method FindCycle(nodes: seq<Id>, out: Adjacency) returns (cycle: Option<seq<Id>>)
    requires Lists(nodes, out.Keys) && Closed(out)
    ensures cycle.Some? ==> Cycle(out, cycle.value)
    ensures cycle.None? <==> !Cyclic(out)
  {
    var colour := map id | id in out :: White;
    var parent: map<Id, Id> := map[];
    ghost var finished: seq<Id>, black: set<Id>, seen: set<Id> := [], {}, {};
    assert Colouring(out, colour, {}, {}) by {
      assert forall x :: x in colour ==> Coloured(colour, {}, {}, x);
    }
    var i := 0;
    while i < |nodes|
      invariant 0 <= i <= |nodes| && Lists(nodes[..i], seen) && seen <= black
      invariant Searching(out, [], colour, parent, {}, finished, black)
    {
      ListsNext(nodes, out.Keys, i, seen);
      assert Coloured(colour, {}, black, nodes[i]);
      if colour[nodes[i]] == White {
        cycle, colour, parent, finished, black := Walk(out, nodes[i], colour, parent, finished, black);
        if cycle.Some? { return; }
      }
      seen := seen + {nodes[i]};
      i := i + 1;
    }
    assert nodes[..i] == nodes;
    ListsUnique(nodes, seen, out.Keys);
    assert black == out.Keys;
    FinishOrderIsAcyclic(out, finished);
    cycle := None;
  }
}
