/** The cycle finder's search inside one component: depth first with an explicit
    stack, from every node of the component, up to a cap on what is emitted. */
module CycleSearch {
  import opened Locks
  import opened Digraph
  import opened SimpleCycles

  datatype CycleEdge = CycleEdge(frm: LockId, to: LockId, info: EdgeInfo)
  type Cycle = seq<CycleEdge>

  datatype Frame = Frame(node: LockId, next: nat)

  // ------------------------------------------------- cycles with their witnesses

  function NextNode(c: seq<LockId>, i: nat): LockId
    requires i < |c|
  {
    if i + 1 < |c| then c[i + 1] else c[0]
  }

  ghost predicate AllEdges(edges: Edges, c: seq<LockId>) {
    forall i: nat | i < |c| :: EdgeKey(c[i], NextNode(c, i)) in edges
  }

  /** The cycle through the nodes of `c`, with the recorded witness of every edge. */
  ghost function CycleOf(edges: Edges, c: seq<LockId>): (cy: Cycle)
    ensures |cy| == |c|
  {
    seq(|c|, i requires 0 <= i < |c| =>
      var key := EdgeKey(c[i], NextNode(c, i));
      CycleEdge(key.frm, key.to, if key in edges then edges[key] else EdgeInfo(0, Mutex, Mutex, [], [])))
  }

  /** The edges of the cycle join up to a ring, are edges of the graph, and carry what is
      recorded for them there. */
  ghost predicate Witnessed(edges: Edges, cy: Cycle) {
    forall i: nat | i < |cy| ::
      && EdgeKey(cy[i].frm, cy[i].to) in edges && cy[i].info == edges[EdgeKey(cy[i].frm, cy[i].to)]
      && cy[i].to == cy[if i + 1 < |cy| then i + 1 else 0].frm
  }

  lemma CycleIsWitnessed(edges: Edges, c: seq<LockId>)
    requires AllEdges(edges, c)
    ensures Witnessed(edges, CycleOf(edges, c))
  {
  }

  ghost function CyclesOf(edges: Edges, cs: seq<seq<LockId>>): (r: seq<Cycle>)
    ensures |r| == |cs| && forall i | 0 <= i < |cs| :: r[i] == CycleOf(edges, cs[i])
  {
    if cs == [] then [] else CyclesOf(edges, cs[..|cs| - 1]) + [CycleOf(edges, cs[|cs| - 1])]
  }

  method MakeCycle(edges: Edges, path: seq<LockId>) returns (ok: bool, cy: Cycle)
    ensures ok <==> AllEdges(edges, path)
    ensures ok ==> cy == CycleOf(edges, path)
    ensures ok ==> Witnessed(edges, cy) && |cy| == |path| && forall i | 0 <= i < |path| :: cy[i].frm == path[i]
  {
    ok, cy := true, [];
    var i: nat := 0;
    while i < |path|
      invariant i <= |path| && ok && cy == CycleOf(edges, path)[..i]
      invariant forall j: nat | j < i :: EdgeKey(path[j], NextNode(path, j)) in edges
    {
      var key := EdgeKey(path[i], NextNode(path, i));
      if key !in edges {
        ok := false;
        break;
      }
      cy := cy + [CycleEdge(key.frm, key.to, edges[key])];
      i := i + 1;
    }
  }

  // ------------------------------------------------------------ adjacency lists

  /** The adjacency lists hold the edges, and every end of an edge has an entry. */
  ghost predicate IsAdjOf(edges: Edges, adj: Adj) {
    && (forall u, v :: v in Neigh(adj, u) <==> EdgeKey(u, v) in edges)
    && NoParallel(adj)
    && (forall u :: u in adj <==> exists v :: EdgeKey(u, v) in edges || EdgeKey(v, u) in edges)
  }

  /** The same for the edges looked at so far. */
  ghost predicate ListsEdges(adj: Adj, done: set<EdgeKey>) {
    && (forall u, v :: v in Neigh(adj, u) <==> EdgeKey(u, v) in done)
    && NoParallel(adj)
  }

  ghost predicate ListsEnds(adj: Adj, done: set<EdgeKey>) {
    forall u :: u in adj <==> IsEnd(done, u)
  }

  ghost predicate IsEnd(done: set<EdgeKey>, u: LockId) {
    exists v :: EdgeKey(u, v) in done || EdgeKey(v, u) in done
  }

  /** One more edge in the lists. */
  function WithEdge(adj: Adj, key: EdgeKey): Adj {
    var more := adj[key.frm := Neigh(adj, key.frm) + [key.to]];
    if key.to in more then more else more[key.to := []]
  }

  lemma EdgeListed(adj: Adj, done: set<EdgeKey>, key: EdgeKey)
    requires ListsEdges(adj, done) && key !in done
    ensures ListsEdges(WithEdge(adj, key), done + {key})
  {
    var t := WithEdge(adj, key);
    forall u, v ensures v in Neigh(t, u) <==> EdgeKey(u, v) in done + {key} {
      assert v in Neigh(adj, u) <==> EdgeKey(u, v) in done;
    }
  }

  lemma EndsListed(adj: Adj, done: set<EdgeKey>, key: EdgeKey)
    requires ListsEnds(adj, done)
    ensures ListsEnds(WithEdge(adj, key), done + {key})
  {
    hide IsEnd;
    forall u ensures u in WithEdge(adj, key) <==> IsEnd(done + {key}, u) { EndsAfter(done, key, u); }
  }

  lemma EndsAfter(done: set<EdgeKey>, key: EdgeKey, u: LockId)
    ensures IsEnd(done + {key}, u) <==> IsEnd(done, u) || u == key.frm || u == key.to
  {
    var more := done + {key};
    assert key == EdgeKey(key.frm, key.to) && key in more;
    if IsEnd(done, u) {
      var v :| EdgeKey(u, v) in done || EdgeKey(v, u) in done;
      assert EdgeKey(u, v) in more || EdgeKey(v, u) in more;
    }
  }

  method BuildAdj(edges: Edges) returns (adj: Adj)
    ensures IsAdjOf(edges, adj)
  {
    hide ListsEdges, ListsEnds;
    adj := map[];
    var keys := edges.Keys;
    NothingListed();
    assert edges.Keys - keys == {};
    while keys != {}
      invariant keys <= edges.Keys
      invariant ListsEdges(adj, edges.Keys - keys) && ListsEnds(adj, edges.Keys - keys)
    {
      var key :| key in keys;
      EdgeListed(adj, edges.Keys - keys, key);
      EndsListed(adj, edges.Keys - keys, key);
      assert edges.Keys - (keys - {key}) == (edges.Keys - keys) + {key};
      keys := keys - {key};
      adj := adj[key.frm := Neigh(adj, key.frm) + [key.to]];
      if key.to !in adj { adj := adj[key.to := []]; }
    }
    assert edges.Keys - keys == edges.Keys;
    AllListed(edges, adj);
  }

  lemma NothingListed()
    ensures ListsEdges(map[], {}) && ListsEnds(map[], {})
  {
  }

  lemma AllListed(edges: Edges, adj: Adj)
    requires ListsEdges(adj, edges.Keys) && ListsEnds(adj, edges.Keys)
    ensures IsAdjOf(edges, adj)
  {
    forall u ensures u in adj <==> exists v :: EdgeKey(u, v) in edges || EdgeKey(v, u) in edges {
      assert u in adj <==> IsEnd(edges.Keys, u);
    }
  }

  lemma RootedHasEdges(edges: Edges, adj: Adj, s: set<LockId>, c: seq<LockId>)
    requires IsAdjOf(edges, adj) && IsRooted(adj, s, c)
    ensures AllEdges(edges, c)
  {
    forall i: nat | i < |c| ensures EdgeKey(c[i], NextNode(c, i)) in edges {
      if i + 1 < |c| { assert Edge(adj, c[i], c[i + 1]); }
    }
  }

  /** A trail whose end leads back to its start has all its edges in the graph. */
  lemma ClosesTrail(edges: Edges, adj: Adj, s: set<LockId>, path: seq<LockId>)
    requires IsAdjOf(edges, adj) && IsTrail(adj, s, path) && |path| >= 2 && path[0] in Neigh(adj, Last(path))
    ensures AllEdges(edges, path) && CycleOf(edges, path) != []
  {
    hide IsAdjOf, AllEdges;
    RootedHasEdges(edges, adj, s, path);
  }

  // ------------------------------------------------------------------ the search

  ghost function PathOf(stack: seq<Frame>): (p: seq<LockId>)
    ensures |p| == |stack| && forall i | 0 <= i < |p| :: p[i] == stack[i].node
  {
    seq(|stack|, i requires 0 <= i < |stack| => stack[i].node)
  }

  /** What the frames of the stack will still emit, top frame first. */
  ghost function Remaining(adj: Adj, s: set<LockId>, stack: seq<Frame>): seq<seq<LockId>> {
    if stack == [] then []
    else Emit(adj, s, PathOf(stack), stack[|stack| - 1].next) + Remaining(adj, s, stack[..|stack| - 1])
  }

  /** The number of steps the search takes from `path` and `next` on. */
  ghost function Cost(adj: Adj, s: set<LockId>, path: seq<LockId>, next: nat): (n: nat)
    requires path != []
    ensures n > 0
    decreases Unused(s, path), |Neigh(adj, Last(path))| - next
  {
    var neigh := Neigh(adj, Last(path));
    if next >= |neigh| then 1
    else
      var v := neigh[next];
      1 + Cost(adj, s, path, next + 1) +
      if v in s && !(v == path[0] && |path| >= 2) && v !in path then
        Longer(s, path, v);
        Cost(adj, s, path + [v], 0)
      else 0
  }

  ghost function StackCost(adj: Adj, s: set<LockId>, stack: seq<Frame>): nat {
    if stack == [] then 0
    else Cost(adj, s, PathOf(stack), stack[|stack| - 1].next) + StackCost(adj, s, stack[..|stack| - 1])
  }

  /** The first `n` elements, or all of them. */
  ghost function Take<T>(n: int, xs: seq<T>): seq<T> {
    if n <= 0 then [] else if n < |xs| then xs[..n] else xs
  }

  /** The nodes of a component. */
  function NodeSet(scc: seq<LockId>): set<LockId> {
    set u | u in scc
  }

  ghost predicate OnPathAgrees(onPath: map<LockId, bool>, path: seq<LockId>) {
    forall v :: (v in onPath && onPath[v]) <==> v in path
  }

  /** The emitted cycles so far: either the search goes on and has `rest` left,
      or the cap has been reached. */
  ghost predicate Progress(all: seq<seq<LockId>>, found: seq<seq<LockId>>, rest: seq<seq<LockId>>, room: nat) {
    if |found| < room then all == found + rest else |found| == room && found <= all
  }

  /** Entering a neighbour splits what the top frame has left in two. */
  lemma Descend(adj: Adj, s: set<LockId>, stack: seq<Frame>, next: nat, v: LockId)
    requires stack != []
    ensures var top := stack[|stack| - 1];
            var deeper := stack[|stack| - 1 := Frame(top.node, next)] + [Frame(v, 0)];
            && PathOf(deeper) == PathOf(stack) + [v]
            && Remaining(adj, s, deeper) ==
                 Emit(adj, s, PathOf(stack) + [v], 0)
                 + (Emit(adj, s, PathOf(stack), next) + Remaining(adj, s, stack[..|stack| - 1]))
            && StackCost(adj, s, deeper) ==
                 Cost(adj, s, PathOf(stack) + [v], 0) + Cost(adj, s, PathOf(stack), next)
                 + StackCost(adj, s, stack[..|stack| - 1])
  {
    var top := stack[|stack| - 1];
    var moved := stack[|stack| - 1 := Frame(top.node, next)];
    var deeper := moved + [Frame(v, 0)];
    assert deeper[..|deeper| - 1] == moved;
    assert moved[..|moved| - 1] == stack[..|stack| - 1];
    assert PathOf(moved) == PathOf(stack);
    assert PathOf(deeper) == PathOf(stack) + [v];
  }

  /** Leaving the top frame. */
  lemma PopPath(adj: Adj, s: set<LockId>, stack: seq<Frame>, onPath: map<LockId, bool>)
    requires stack != [] && IsTrail(adj, s, PathOf(stack)) && OnPathAgrees(onPath, PathOf(stack))
    ensures var below := stack[..|stack| - 1];
            && PathOf(below) == PathOf(stack)[..|stack| - 1]
            && (below != [] ==> IsTrail(adj, s, PathOf(below)))
            && OnPathAgrees(onPath[Last(PathOf(stack)) := false], PathOf(below))
  {
    var p, q := PathOf(stack), PathOf(stack[..|stack| - 1]);
    assert q == p[..|p| - 1];
    forall i | 0 <= i < |q| - 1 ensures Edge(adj, q[i], q[i + 1]) { assert Edge(adj, p[i], p[i + 1]); }
  }

  /** What is left on the stack, split at the top frame. */
  lemma SplitTop(adj: Adj, s: set<LockId>, stack: seq<Frame>)
    requires stack != []
    ensures var top, below := stack[|stack| - 1], stack[..|stack| - 1];
            && Remaining(adj, s, stack) == Emit(adj, s, PathOf(stack), top.next) + Remaining(adj, s, below)
            && StackCost(adj, s, stack) > StackCost(adj, s, below)
            && StackCost(adj, s, stack) == Cost(adj, s, PathOf(stack), top.next) + StackCost(adj, s, below)
            && [] + Remaining(adj, s, below) == Remaining(adj, s, below)
  {
  }

  lemma OnPathGrows(onPath: map<LockId, bool>, path: seq<LockId>, v: LockId)
    requires OnPathAgrees(onPath, path)
    ensures OnPathAgrees(onPath[v := true], path + [v])
  {
  }

  lemma CyclesOfConcat(edges: Edges, a: seq<seq<LockId>>, b: seq<seq<LockId>>)
    ensures CyclesOf(edges, a + b) == CyclesOf(edges, a) + CyclesOf(edges, b)
  {
  }

  lemma CyclesOfAppend(edges: Edges, cs: seq<seq<LockId>>, c: seq<LockId>)
    ensures CyclesOf(edges, cs + [c]) == CyclesOf(edges, cs) + [CycleOf(edges, c)]
  {
    assert (cs + [c])[..|cs|] == cs;
  }

  /** A scan of neighbours that started with `all` to be emitted has emitted
      `found`: it entered a neighbour with `rest` left, or found no further
      neighbour, or ran out of room. */
  ghost predicate Scanned(all: seq<seq<LockId>>, found: seq<seq<LockId>>, rest: seq<seq<LockId>>, room: nat) {
    |found| <= room && if |found| < room then all == found + rest else found <= all
  }

  /** What looking at one neighbour contributes, and that it brings the search closer
      to its end. */
  lemma LookAtOne(adj: Adj, s: set<LockId>, path: seq<LockId>, next: nat)
    requires path != [] && next < |Neigh(adj, Last(path))|
    ensures var v := Neigh(adj, Last(path))[next];
            var closes := v in s && v == path[0] && |path| >= 2;
            var enters := v in s && !closes && v !in path;
            && Emit(adj, s, path, next) ==
                 (if closes then [path] else if enters then Emit(adj, s, path + [v], 0) else [])
                 + Emit(adj, s, path, next + 1)
            && Cost(adj, s, path, next + 1) + (if enters then Cost(adj, s, path + [v], 0) else 0)
                 < Cost(adj, s, path, next)
  {
  }

  lemma LookedAtAll(adj: Adj, s: set<LockId>, path: seq<LockId>, next: nat)
    requires path != [] && next >= |Neigh(adj, Last(path))|
    ensures Emit(adj, s, path, next) == []
  {
  }

  /** Looks at the neighbours of the end of `path` from position `ni0` on, up to
      the first one to enter. */
  method ScanNeighbours(edges: Edges, adj: Adj, inScc: set<LockId>, start: LockId, path: seq<LockId>,
                        onPath: map<LockId, bool>, ni0: nat, cap: int, out0: seq<Cycle>, emitted0: nat)
    returns (ni: nat, advanced: bool, v: LockId, out: seq<Cycle>, emitted: nat, ghost found: seq<seq<LockId>>)
    requires IsAdjOf(edges, adj) && path != [] && path[0] == start && IsTrail(adj, inScc, path)
    requires OnPathAgrees(onPath, path)
    requires emitted0 < cap
    ensures out == out0 + CyclesOf(edges, found) && emitted == emitted0 + |found|
    ensures advanced ==>
              && emitted < cap && v in inScc && v !in path && v in Neigh(adj, Last(path))
              && Emit(adj, inScc, path, ni0) == found + (Emit(adj, inScc, path + [v], 0) + Emit(adj, inScc, path, ni))
              && Cost(adj, inScc, path + [v], 0) + Cost(adj, inScc, path, ni) < Cost(adj, inScc, path, ni0)
    ensures !advanced ==> Scanned(Emit(adj, inScc, path, ni0), found, [], cap - emitted0)
  {
    hide AllEdges, CycleOf, CyclesOf, IsAdjOf, Emit, Cost, IsTrail;
    ni, advanced, v, out, emitted, found := ni0, false, start, out0, emitted0, [];
    CyclesOfNone(edges);
    var neigh := Neigh(adj, path[|path| - 1]);
    while ni < |neigh|
      invariant |found| < cap - emitted0 && !advanced
      invariant Emit(adj, inScc, path, ni0) == found + Emit(adj, inScc, path, ni)
      invariant out == out0 + CyclesOf(edges, found) && emitted == emitted0 + |found|
      invariant Cost(adj, inScc, path, ni) <= Cost(adj, inScc, path, ni0)
      decreases |neigh| - ni
    {
      LookAtOne(adj, inScc, path, ni);
      v := neigh[ni];
      ni := ni + 1;
      if v !in inScc { continue; }
      if v == start && |path| >= 2 {
        var ok, cy := MakeCycle(edges, path);
        ClosesTrail(edges, adj, inScc, path);
        if ok && cy != [] {
          out := out + [cy];
          emitted := emitted + 1;
          CyclesOfAppend(edges, found, path);
          OneMoreFound(found, path, Emit(adj, inScc, path, ni));
          found := found + [path];
          if emitted >= cap { break; }
        }
        continue;
      }
      if !(v in onPath && onPath[v]) {
        advanced := true;
        break;
      }
    }
    if ni >= |neigh| { LookedAtAll(adj, inScc, path, ni); }
  }

  lemma OneMoreFound(found: seq<seq<LockId>>, path: seq<LockId>, rest: seq<seq<LockId>>)
    ensures found + ([path] + rest) == (found + [path]) + rest
  {
  }

  lemma ProgressStep(all: seq<seq<LockId>>, found: seq<seq<LockId>>, part: seq<seq<LockId>>, below: seq<seq<LockId>>,
                     more: seq<seq<LockId>>, rest: seq<seq<LockId>>, room: nat)
    requires Progress(all, found, part + below, room) && |found| < room && Scanned(part, more, rest, room - |found|)
    ensures Progress(all, found + more, rest + below, room)
  {
    if |more| < room - |found| {
      assert all == found + ((more + rest) + below) == (found + more) + (rest + below);
    } else {
      assert part == more + part[|more|..];
      assert all == (found + more) + (part[|more|..] + below);
    }
  }

  /** The cycles `found` have been appended to `out0`. */
  ghost predicate Appended(edges: Edges, out0: seq<Cycle>, out: seq<Cycle>, found: seq<seq<LockId>>) {
    out == out0 + CyclesOf(edges, found)
  }

  lemma AppendMore(edges: Edges, out0: seq<Cycle>, out: seq<Cycle>, found: seq<seq<LockId>>, more: seq<seq<LockId>>)
    requires Appended(edges, out0, out, found)
    ensures Appended(edges, out0, out + CyclesOf(edges, more), found + more)
  {
    hide CyclesOf;
    CyclesOfConcat(edges, found, more);
    var a, b := CyclesOf(edges, found), CyclesOf(edges, more);
    assert (out0 + a) + b == out0 + (a + b);
  }

  lemma IsAppended(edges: Edges, out0: seq<Cycle>, out: seq<Cycle>, found: seq<seq<LockId>>)
    requires Appended(edges, out0, out, found)
    ensures out == out0 + CyclesOf(edges, found)
  {
  }

  lemma NothingAppended(edges: Edges, out0: seq<Cycle>)
    ensures Appended(edges, out0, out0, [])
  {
  }

  /** The cycles through `start`, as many as there is room for, in the order of
      the recursive enumeration. */
  method EnumerateFrom(edges: Edges, adj: Adj, inScc: set<LockId>, start: LockId, cap: int,
                       out0: seq<Cycle>, emitted0: nat)
    returns (out: seq<Cycle>, emitted: nat)
    requires IsAdjOf(edges, adj) && start in inScc && emitted0 < cap
    ensures var found := Take(cap - emitted0, Emit(adj, inScc, [start], 0));
            out == out0 + CyclesOf(edges, found) && emitted == emitted0 + |found|
  {
    hide IsAdjOf, CyclesOf, Emit, Cost, Take, Remaining, StackCost, Progress, Scanned, IsTrail, OnPathAgrees, Unused,
         Appended;
    ghost var room := cap - emitted0;
    ghost var all := Emit(adj, inScc, [start], 0);
    ghost var found: seq<seq<LockId>> := [];
    out, emitted := out0, emitted0;
    var onPath := map[start := true];
    var path := [start];
    var stack := [Frame(start, 0)];
    StartStack(edges, adj, inScc, start, room);
    NothingAppended(edges, out0);
    while stack != []
      invariant path == PathOf(stack) && (path != [] ==> path[0] == start && IsTrail(adj, inScc, path))
      invariant OnPathAgrees(onPath, path)
      invariant Progress(all, found, Remaining(adj, inScc, stack), room)
      invariant Appended(edges, out0, out, found) && emitted == emitted0 + |found|
      decreases StackCost(adj, inScc, stack)
    {
      if emitted >= cap { break; }
      var Frame(u, ni) := stack[|stack| - 1];
      SplitTop(adj, inScc, stack);
      ProgressOpen(all, found, Remaining(adj, inScc, stack), room);
      ghost var part, below := Emit(adj, inScc, path, ni), Remaining(adj, inScc, stack[..|stack| - 1]);
      ghost var more;
      ghost var out1 := out;
      var next, advanced, v;
      next, advanced, v, out, emitted, more :=
        ScanNeighbours(edges, adj, inScc, start, path, onPath, ni, cap, out, emitted);
      AppendMore(edges, out0, out1, found, more);
      if advanced {
        Descend(adj, inScc, stack, next, v);
        TrailExtends(adj, inScc, path, v);
        OnPathGrows(onPath, path, v);
        ghost var inner, outer := Emit(adj, inScc, path + [v], 0), Emit(adj, inScc, path, next);
        AdvancedIsScanned(part, more, inner + outer, room - |found|);
        ProgressStep(all, found, part, below, more, inner + outer, room);
        Regroup(inner, outer, below);
        stack := stack[|stack| - 1 := Frame(u, next)];
        onPath := onPath[v := true];
        path := path + [v];
        stack := stack + [Frame(v, 0)];
        found := found + more;
        continue;
      }
      ProgressStep(all, found, part, below, more, [], room);
      found := found + more;
      PopPath(adj, inScc, stack, onPath);
      onPath := onPath[u := false];
      path := path[..|path| - 1];
      stack := stack[..|stack| - 1];
    }
    StackDone(adj, inScc, all, found, stack, room);
    IsAppended(edges, out0, out, found);
  }

  lemma Regroup(a: seq<seq<LockId>>, b: seq<seq<LockId>>, c: seq<seq<LockId>>)
    ensures (a + b) + c == a + (b + c)
  {
  }

  lemma ProgressOpen(all: seq<seq<LockId>>, found: seq<seq<LockId>>, rest: seq<seq<LockId>>, room: nat)
    requires Progress(all, found, rest, room)
    ensures |found| <= room
  {
  }

  lemma AdvancedIsScanned(all: seq<seq<LockId>>, found: seq<seq<LockId>>, rest: seq<seq<LockId>>, room: nat)
    requires |found| < room && all == found + rest
    ensures Scanned(all, found, rest, room)
  {
  }

  lemma StackDone(adj: Adj, s: set<LockId>, all: seq<seq<LockId>>, found: seq<seq<LockId>>, stack: seq<Frame>,
                  room: nat)
    requires room > 0 && Progress(all, found, Remaining(adj, s, stack), room) && (stack == [] || |found| >= room)
    ensures found == Take(room, all)
  {
  }

  lemma StartStack(edges: Edges, adj: Adj, s: set<LockId>, start: LockId, room: nat)
    requires start in s && room > 0
    ensures var stack := [Frame(start, 0)];
            && PathOf(stack) == [start] && IsTrail(adj, s, [start]) && OnPathAgrees(map[start := true], [start])
            && Progress(Emit(adj, s, [start], 0), [], Remaining(adj, s, stack), room)
            && CyclesOf(edges, []) == []
  {
    var stack := [Frame(start, 0)];
    assert stack[..0] == [] && PathOf(stack) == [start];
  }

  lemma TakeConcat<T>(n: int, a: seq<T>, b: seq<T>)
    requires n > 0
    ensures var first := Take(n, a); Take(n, a + b) == first + Take(n - |first|, b)
  {
  }

  /** What has been found from the starts before `i`, and what is left for the others. */
  ghost predicate SccProgress(adj: Adj, s: set<LockId>, scc: seq<LockId>, cap: int, found: seq<seq<LockId>>, i: nat) {
    i <= |scc| && Take(cap, EmitAll(adj, s, scc)) == found + Take(cap - |found|, EmitAll(adj, s, scc[i..]))
  }

  lemma SccBegin(adj: Adj, s: set<LockId>, scc: seq<LockId>, cap: int)
    ensures SccProgress(adj, s, scc, cap, [], 0)
  {
    assert scc[0..] == scc;
  }

  /** One more start node. */
  lemma SccStep(adj: Adj, s: set<LockId>, scc: seq<LockId>, cap: int, found: seq<seq<LockId>>, i: nat)
    requires SccProgress(adj, s, scc, cap, found, i) && i < |scc| && |found| < cap
    ensures SccProgress(adj, s, scc, cap, found + Take(cap - |found|, Emit(adj, s, [scc[i]], 0)), i + 1)
  {
    hide Emit, Take;
    var room, first, rest := cap - |found|, Emit(adj, s, [scc[i]], 0), EmitAll(adj, s, scc[i + 1..]);
    assert scc[i..][1..] == scc[i + 1..];
    TakeConcat(room, first, rest);
    var more := Take(room, first);
    assert found + (more + Take(room - |more|, rest)) == (found + more) + Take(room - |more|, rest);
  }

  lemma SccEnd(adj: Adj, s: set<LockId>, scc: seq<LockId>, cap: int, found: seq<seq<LockId>>, i: nat)
    requires SccProgress(adj, s, scc, cap, found, i) && (i == |scc| || |found| >= cap)
    ensures found == Take(cap, EmitAll(adj, s, scc))
  {
  }

  /** The cycles of one component, as many as the cap allows, in the order of the
      recursive enumeration from every node of the component. */
  method EnumerateScc(edges: Edges, adj: Adj, scc: seq<LockId>, cap: int, out0: seq<Cycle>)
    returns (out: seq<Cycle>)
    requires IsAdjOf(edges, adj)
    ensures out == out0 + CyclesOf(edges, Take(cap, EmitAll(adj, NodeSet(scc), scc)))
    ensures var n := |EmitAll(adj, NodeSet(scc), scc)|;
            |out| == |out0| + if cap <= 0 then 0 else if cap < n then cap else n
  {
    hide IsAdjOf, Emit, EmitAll, Take, CyclesOf, NodeSet, SccProgress, Appended;
    out := out0;
    var inScc := NodeSet(scc);
    var emitted: nat := 0;
    ghost var found: seq<seq<LockId>> := [];
    SccBegin(adj, inScc, scc, cap);
    NothingAppended(edges, out0);
    var i: nat := 0;
    while i < |scc|
      invariant i <= |scc| && emitted == |found|
      invariant Appended(edges, out0, out, found) && SccProgress(adj, inScc, scc, cap, found, i)
    {
      if emitted >= cap { break; }
      var start := scc[i];
      InNodeSet(scc, i);
      ghost var more := Take(cap - |found|, Emit(adj, inScc, [start], 0));
      SccStep(adj, inScc, scc, cap, found, i);
      AppendMore(edges, out0, out, found, more);
      out, emitted := EnumerateFrom(edges, adj, inScc, start, cap, out, emitted);
      found := found + more;
      i := i + 1;
    }
    SccEnd(adj, inScc, scc, cap, found, i);
    IsAppended(edges, out0, out, found);
    TakeSize(cap, EmitAll(adj, inScc, scc));
  }

  lemma TakeSize<T>(n: int, xs: seq<T>)
    ensures |Take(n, xs)| == if n <= 0 then 0 else if n < |xs| then n else |xs|
  {
  }

  lemma InNodeSet(scc: seq<LockId>, i: nat)
    requires i < |scc|
    ensures scc[i] in NodeSet(scc)
  {
  }

  lemma CyclesOfNone(edges: Edges)
    ensures CyclesOf(edges, []) == []
  {
  }
}
