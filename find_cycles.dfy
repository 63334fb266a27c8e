/** `findCycle`: an iterative depth-first search with an explicit stack that
    returns the first cycle it closes, or nothing when no cycle is reachable
    from the start node. Each stack frame's child iterator is modelled by the
    number of children it has already handed out. */
module FindCycles {
  import opened Wrappers
  import opened Graphs

  /** The start node and every node some child list names: all the search can push. */
  function Targets(adj: Adj, start: NodeId): set<NodeId> {
    {start} + set v, w | v in adj && w in adj[v] :: w
  }

  /** `c` read backwards is a closed walk: each entry is a successor of the next
      one, and the first entry has the last one as a successor. */
  ghost predicate IsCycle(adj: Adj, c: seq<NodeId>) {
    |c| > 0 && Distinct(c) && c[|c| - 1] in Next(adj, c[0]) &&
    forall k :: 0 <= k < |c| - 1 ==> c[k] in Next(adj, c[k + 1])
  }

  /** The stack is a walk from `start` without repeats, with one iterator
      position per frame. */
  ghost predicate Shape(start: NodeId, stack: seq<NodeId>, pos: seq<nat>) {
    |stack| == |pos| && (|stack| > 0 ==> stack[0] == start) && Distinct(stack)
  }

  /** No iterator has run past the end of its child list. */
  ghost predicate InRange(adj: Adj, stack: seq<NodeId>, pos: seq<nat>) {
    forall k :: 0 <= k < |stack| && k < |pos| ==> pos[k] <= |Next(adj, stack[k])|
  }

  /** The node above each frame is the last child that frame handed out. */
  ghost predicate PushedLast(adj: Adj, stack: seq<NodeId>, pos: seq<nat>) {
    forall k :: 0 <= k < |stack| - 1 && k < |pos| ==>
      1 <= pos[k] <= |Next(adj, stack[k])| && Next(adj, stack[k])[pos[k] - 1] == stack[k + 1]
  }

  /** `nodeIndexes` maps exactly the stacked nodes, each to its position. */
  ghost predicate Indexed(stack: seq<NodeId>, index: map<NodeId, nat>) {
    (forall v :: v in index <==> v in stack) &&
    (forall k :: 0 <= k < |stack| ==> stack[k] in index && index[stack[k]] == k)
  }

  /** A visited node is either on the stack or finished, never both. */
  ghost predicate Partitioned(visited: set<NodeId>, done: set<NodeId>, stack: seq<NodeId>) {
    (forall v :: v in visited <==> v in done || v in stack) &&
    (forall v :: v in done ==> v !in stack)
  }

  /** Finished nodes carry ranks below `counter` that fall along every edge,
      and their successors are all finished. */
  ghost predicate Ranked(adj: Adj, done: set<NodeId>, rank: map<NodeId, nat>, counter: nat) {
    (forall v :: v in done ==> v in rank && rank[v] < counter) &&
    (forall v, w :: v in done && w in Next(adj, v) ==> w in done && w in rank && v in rank && rank[w] < rank[v])
  }

  /** Every child a frame handed out is finished or is the node stacked above it. */
  ghost predicate Handed(adj: Adj, stack: seq<NodeId>, pos: seq<nat>, done: set<NodeId>) {
    forall k, j :: 0 <= k < |stack| && k < |pos| && 0 <= j < pos[k] && j < |Next(adj, stack[k])| ==>
      Next(adj, stack[k])[j] in done || (k + 1 < |stack| && Next(adj, stack[k])[j] == stack[k + 1])
  }

  /** Children still to be handed out, plus one per frame still to be popped. */
  function Remaining(adj: Adj, stack: seq<NodeId>, pos: seq<nat>): nat
    decreases |stack|
  {
    if |stack| == 0 || |stack| != |pos| then 0
    else
      var n := |stack|;
      var left := |Next(adj, stack[n - 1])| - pos[n - 1];
      (if left < 0 then 0 else left) + 1 + Remaining(adj, stack[..n - 1], pos[..n - 1])
  }

  lemma RemainingPop(adj: Adj, stack: seq<NodeId>, pos: seq<nat>)
    requires |stack| == |pos| > 0
    ensures Remaining(adj, stack[..|stack| - 1], pos[..|stack| - 1]) < Remaining(adj, stack, pos)
  {
  }

  lemma RemainingAdvance(adj: Adj, stack: seq<NodeId>, pos: seq<nat>)
    requires |stack| == |pos| > 0 && pos[|stack| - 1] < |Next(adj, stack[|stack| - 1])|
    ensures Remaining(adj, stack, pos[|stack| - 1 := pos[|stack| - 1] + 1]) < Remaining(adj, stack, pos)
  {
    var n := |stack|;
    assert pos[n - 1 := pos[n - 1] + 1][..n - 1] == pos[..n - 1];
  }

  lemma MeasureDrops(targets: set<NodeId>, visited: set<NodeId>, next: NodeId)
    requires next in targets && next !in visited
    ensures |targets - (visited + {next})| < |targets - visited|
  {
    assert targets - visited == (targets - (visited + {next})) + {next};
  }

  lemma StackIsWalk(adj: Adj, stack: seq<NodeId>, pos: seq<nat>)
    requires |stack| == |pos| && PushedLast(adj, stack, pos)
    ensures IsWalk(adj, stack)
  {
    forall k | 0 <= k < |stack| - 1 ensures stack[k + 1] in Next(adj, stack[k]) {
      assert Next(adj, stack[k])[pos[k] - 1] == stack[k + 1];
    }
  }

  /** The stack from position `c` up, read backwards, is a cycle once the top
      has the node at `c` as a child. */
  lemma CycleOnStack(adj: Adj, start: NodeId, stack: seq<NodeId>, c: nat, next: NodeId)
    requires IsWalk(adj, stack) && Distinct(stack) && |stack| > 0 && stack[0] == start
    requires c < |stack| && stack[c] == next && next in Next(adj, stack[|stack| - 1])
    ensures IsCycle(adj, Reverse(stack[c..]))
    ensures CycleReachable(adj, start) && Reaches(adj, start, Reverse(stack[c..])[0])
  {
    ReversedSuffixCycle(adj, stack, c, next);
    var p := stack + [next];
    assert IsWalk(adj, p) by {
      forall k | 0 <= k < |p| - 1 ensures p[k + 1] in Next(adj, p[k]) {
        if k < |stack| - 1 { assert p[k] == stack[k] && p[k + 1] == stack[k + 1]; }
      }
    }
    assert p[c] == p[|stack|];
    WalkReaches(adj, stack);
  }

  lemma ReversedSuffixCycle(adj: Adj, stack: seq<NodeId>, c: nat, next: NodeId)
    requires IsWalk(adj, stack) && Distinct(stack)
    requires c < |stack| && stack[c] == next && next in Next(adj, stack[|stack| - 1])
    ensures IsCycle(adj, Reverse(stack[c..]))
  {
    var r := Reverse(stack[c..]);
    var m := |stack| - c;
    assert forall k :: 0 <= k < m ==> r[k] == stack[c + m - 1 - k];
    forall k | 0 <= k < m - 1 ensures r[k] in Next(adj, r[k + 1]) {
      assert stack[c + m - 2 - k + 1] in Next(adj, stack[c + m - 2 - k]);
    }
    forall i, j | 0 <= i < j < m ensures r[i] != r[j] {
      assert stack[c + m - 1 - j] != stack[c + m - 1 - i];
    }
  }

  /** No walk from a finished start repeats a node, since finishing ranks fall
      along every edge out of the finished nodes. */
  lemma NoCycleWhenFinished(adj: Adj, start: NodeId, done: set<NodeId>, rank: map<NodeId, nat>)
    requires start in done && done <= rank.Keys
    requires forall v, w :: v in done && w in Next(adj, v) ==> w in done && rank[w] < rank[v]
    ensures !CycleReachable(adj, start)
  {
    forall p | IsWalk(adj, p) && |p| > 0 && p[0] == start ensures Distinct(p) {
      RankedWalkDistinct(adj, done, rank, p);
    }
  }

  /** `findCycle(startNode, getChildrenNodes)` over the successor lists `adj`; a
      node without a list has no children. The result is the stack from the
      re-entered node up to the top, reversed. */
  method FindCycle(adj: Adj, start: NodeId) returns (cycle: Option<seq<NodeId>>)
    ensures cycle.None? <==> !CycleReachable(adj, start)
    ensures cycle.Some? ==> IsCycle(adj, cycle.value) && Reaches(adj, start, cycle.value[0])
    ensures cycle.Some? && cycle.value[0] == start ==> cycle.value == [start]
  {
    var visited := {start};
    var stack := [start];
    var pos: seq<nat> := [0];
    var index: map<NodeId, nat> := map[start := 0];
    ghost var done: set<NodeId> := {};
    ghost var rank: map<NodeId, nat> := map[];
    ghost var counter: nat := 0;
    ghost var targets := Targets(adj, start);
    while |stack| > 0
      invariant Inv(adj, start, stack, pos, index, visited, done, rank, counter)
      decreases |targets - visited|, Remaining(adj, stack, pos)
    {
      var n := |stack|;
      var children := Next(adj, stack[n - 1]);
      if pos[n - 1] == |children| {
        stack, pos, index, done, rank, counter := Pop(adj, start, stack, pos, index, visited, done, rank, counter);
        continue;
      }
      var next := children[pos[n - 1]];
      if next in index {
        CycleStep(adj, start, stack, pos, index, visited, done, rank, counter);
        return Some(Reverse(stack[index[next]..]));
      }
      if next in visited {
        pos := Skip(adj, start, stack, pos, index, visited, done, rank, counter);
        continue;
      }
      stack, pos, index, visited := Push(adj, start, stack, pos, index, visited, done, rank, counter);
    }
    EndStep(adj, start, stack, pos, index, visited, done, rank, counter);
    return None;
  }

  /** The loop invariant of `FindCycle`: the stacks are well formed, and the
      proof's bookkeeping of finished nodes is consistent with them. */
  ghost predicate Inv(adj: Adj, start: NodeId, stack: seq<NodeId>, pos: seq<nat>, index: map<NodeId, nat>,
                      visited: set<NodeId>, done: set<NodeId>, rank: map<NodeId, nat>, counter: nat) {
    Frames(adj, start, stack, pos, index) && Finished(adj, start, stack, pos, visited, done, rank, counter)
  }

  ghost predicate Frames(adj: Adj, start: NodeId, stack: seq<NodeId>, pos: seq<nat>, index: map<NodeId, nat>) {
    Shape(start, stack, pos) && InRange(adj, stack, pos) && PushedLast(adj, stack, pos) && Indexed(stack, index)
  }

  ghost predicate Finished(adj: Adj, start: NodeId, stack: seq<NodeId>, pos: seq<nat>, visited: set<NodeId>,
                           done: set<NodeId>, rank: map<NodeId, nat>, counter: nat) {
    Partitioned(visited, done, stack) && Ranked(adj, done, rank, counter) && Handed(adj, stack, pos, done) &&
    start in visited && visited <= Targets(adj, start)
  }

  /** The top iterator is exhausted: both stacks are popped and the node's index
      deleted; for the proof, the node is finished with the next rank. */
  method Pop(adj: Adj, ghost start: NodeId, stack: seq<NodeId>, pos: seq<nat>, index: map<NodeId, nat>,
             ghost visited: set<NodeId>, ghost done: set<NodeId>, ghost rank: map<NodeId, nat>, ghost counter: nat)
    returns (stack': seq<NodeId>, pos': seq<nat>, index': map<NodeId, nat>,
             ghost done': set<NodeId>, ghost rank': map<NodeId, nat>, ghost counter': nat)
    requires Inv(adj, start, stack, pos, index, visited, done, rank, counter)
    requires |stack| > 0 && pos[|stack| - 1] == |Next(adj, stack[|stack| - 1])|
    ensures stack' == stack[..|stack| - 1] && pos' == pos[..|stack| - 1] && index' == index - {stack[|stack| - 1]}
    ensures Inv(adj, start, stack', pos', index', visited, done', rank', counter')
    ensures Remaining(adj, stack', pos') < Remaining(adj, stack, pos)
  {
    var n := |stack|;
    var top := stack[n - 1];
    PopFrames(adj, start, stack, pos, index);
    PopFinishes(adj, start, stack, pos, visited, done, rank, counter);
    RemainingPop(adj, stack, pos);
    stack', pos', index' := stack[..n - 1], pos[..n - 1], index - {top};
    done', rank', counter' := done + {top}, rank[top := counter], counter + 1;
  }

  /** The top iterator hands out a child that was visited before and is no
      longer on the stack: only the iterator moves. */
  method Skip(adj: Adj, ghost start: NodeId, stack: seq<NodeId>, pos: seq<nat>, ghost index: map<NodeId, nat>,
              ghost visited: set<NodeId>, ghost done: set<NodeId>, ghost rank: map<NodeId, nat>, ghost counter: nat)
    returns (pos': seq<nat>)
    requires Inv(adj, start, stack, pos, index, visited, done, rank, counter)
    requires |stack| > 0 && pos[|stack| - 1] < |Next(adj, stack[|stack| - 1])|
    requires var next := Next(adj, stack[|stack| - 1])[pos[|stack| - 1]]; next !in index && next in visited
    ensures pos' == pos[|stack| - 1 := pos[|stack| - 1] + 1]
    ensures Inv(adj, start, stack, pos', index, visited, done, rank, counter)
    ensures Remaining(adj, stack, pos') < Remaining(adj, stack, pos)
  {
    AdvanceFrames(adj, start, stack, pos, index);
    SkipFinished(adj, start, stack, pos, index, visited, done, rank, counter);
    RemainingAdvance(adj, stack, pos);
    pos' := pos[|stack| - 1 := pos[|stack| - 1] + 1];
  }

  /** The top iterator hands out an unvisited child: it is marked visited,
      indexed at the current stack height, and pushed with a fresh iterator. */
  method Push(adj: Adj, ghost start: NodeId, stack: seq<NodeId>, pos: seq<nat>, index: map<NodeId, nat>,
              visited: set<NodeId>, ghost done: set<NodeId>, ghost rank: map<NodeId, nat>, ghost counter: nat)
    returns (stack': seq<NodeId>, pos': seq<nat>, index': map<NodeId, nat>, visited': set<NodeId>)
    requires Inv(adj, start, stack, pos, index, visited, done, rank, counter)
    requires |stack| > 0 && pos[|stack| - 1] < |Next(adj, stack[|stack| - 1])|
    requires var next := Next(adj, stack[|stack| - 1])[pos[|stack| - 1]]; next !in index && next !in visited
    ensures var n := |stack|; var next := Next(adj, stack[n - 1])[pos[n - 1]];
      stack' == stack + [next] && pos' == pos[n - 1 := pos[n - 1] + 1] + [0] &&
      index' == index[next := n] && visited' == visited + {next}
    ensures Inv(adj, start, stack', pos', index', visited', done, rank, counter)
    ensures |Targets(adj, start) - visited'| < |Targets(adj, start) - visited|
  {
    var n := |stack|;
    var next := Next(adj, stack[n - 1])[pos[n - 1]];
    AdvanceFrames(adj, start, stack, pos, index);
    PushFrames(adj, start, stack, pos[n - 1 := pos[n - 1] + 1], index, next);
    PushFinished(adj, start, stack, pos, index, visited, done, rank, counter);
    stack', pos', index', visited' := stack + [next], pos[n - 1 := pos[n - 1] + 1] + [0], index[next := n], visited + {next};
  }

  lemma CycleStep(adj: Adj, start: NodeId, stack: seq<NodeId>, pos: seq<nat>, index: map<NodeId, nat>,
                  visited: set<NodeId>, done: set<NodeId>, rank: map<NodeId, nat>, counter: nat)
    requires Inv(adj, start, stack, pos, index, visited, done, rank, counter)
    requires |stack| > 0 && pos[|stack| - 1] < |Next(adj, stack[|stack| - 1])|
    requires Next(adj, stack[|stack| - 1])[pos[|stack| - 1]] in index
    ensures var c := index[Next(adj, stack[|stack| - 1])[pos[|stack| - 1]]];
      c <= |stack| && IsCycle(adj, Reverse(stack[c..])) &&
      CycleReachable(adj, start) && Reaches(adj, start, Reverse(stack[c..])[0])
    ensures var c := index[Next(adj, stack[|stack| - 1])[pos[|stack| - 1]]];
      Reverse(stack[c..])[0] == start ==> Reverse(stack[c..]) == [start]
  {
    var next := Next(adj, stack[|stack| - 1])[pos[|stack| - 1]];
    var c :| 0 <= c < |stack| && stack[c] == next;
    StackIsWalk(adj, stack, pos);
    CycleOnStack(adj, start, stack, c, next);
    if Reverse(stack[c..])[0] == start {
      TopAtStart(start, stack, c);
    }
  }

  /** The cycle closed from the top of the stack starts at the start node only
      when the start node is alone on the stack: the cycle is a self-loop. */
  lemma TopAtStart(start: NodeId, stack: seq<NodeId>, c: nat)
    requires |stack| > 0 && stack[0] == start && Distinct(stack) && c < |stack|
    requires Reverse(stack[c..])[0] == start
    ensures Reverse(stack[c..]) == [start]
  {
    assert Reverse(stack[c..])[0] == stack[|stack| - 1];
  }

  lemma EndStep(adj: Adj, start: NodeId, stack: seq<NodeId>, pos: seq<nat>, index: map<NodeId, nat>,
                visited: set<NodeId>, done: set<NodeId>, rank: map<NodeId, nat>, counter: nat)
    requires Inv(adj, start, stack, pos, index, visited, done, rank, counter) && |stack| == 0
    ensures !CycleReachable(adj, start)
  {
    NoCycleWhenFinished(adj, start, done, rank);
  }

  /** Popping a frame leaves a well-formed, correctly indexed stack. */
  lemma PopFrames(adj: Adj, start: NodeId, stack: seq<NodeId>, pos: seq<nat>, index: map<NodeId, nat>)
    requires Frames(adj, start, stack, pos, index) && |stack| > 0
    ensures Frames(adj, start, stack[..|stack| - 1], pos[..|stack| - 1], index - {stack[|stack| - 1]})
  {
    var n := |stack|;
    var s', p' := stack[..n - 1], pos[..n - 1];
    assert forall k :: 0 <= k < n - 1 ==> s'[k] == stack[k] && p'[k] == pos[k];
    assert Shape(start, s', p') && InRange(adj, s', p') && PushedLast(adj, s', p');
    IndexedPop(stack, index);
  }

  lemma IndexedPop(stack: seq<NodeId>, index: map<NodeId, nat>)
    requires Indexed(stack, index) && Distinct(stack) && |stack| > 0
    ensures Indexed(stack[..|stack| - 1], index - {stack[|stack| - 1]})
  {
    var n := |stack|;
    var s' := stack[..n - 1];
    assert forall k :: 0 <= k < n - 1 ==> s'[k] == stack[k] && stack[k] != stack[n - 1];
    forall v ensures v in index - {stack[n - 1]} <==> v in s' {
      if v in s' {
        var k :| 0 <= k < n - 1 && s'[k] == v;
      }
    }
  }

  /** Popping a frame whose children are all handed out finishes its node with
      the next rank. */
  lemma PopFinishes(adj: Adj, start: NodeId, stack: seq<NodeId>, pos: seq<nat>, visited: set<NodeId>,
                    done: set<NodeId>, rank: map<NodeId, nat>, counter: nat)
    requires |stack| == |pos| > 0 && Distinct(stack) && pos[|stack| - 1] == |Next(adj, stack[|stack| - 1])|
    requires Finished(adj, start, stack, pos, visited, done, rank, counter)
    ensures var n := |stack|; var top := stack[n - 1];
      Finished(adj, start, stack[..n - 1], pos[..n - 1], visited, done + {top}, rank[top := counter], counter + 1)
  {
    var n := |stack|;
    var top := stack[n - 1];
    var s', p', d', r' := stack[..n - 1], pos[..n - 1], done + {top}, rank[top := counter];
    assert top !in s' by {
      forall k | 0 <= k < n - 1 ensures s'[k] != top { assert s'[k] == stack[k]; }
    }
    assert forall v :: v in stack <==> v in s' || v == top;
    assert Partitioned(visited, d', s');
    forall w | w in Next(adj, top) ensures w in done && rank[w] < counter {
      var j :| 0 <= j < |Next(adj, top)| && Next(adj, top)[j] == w;
      assert Next(adj, stack[n - 1])[j] in done;
    }
    assert Ranked(adj, d', r', counter + 1);
    forall k, j | 0 <= k < |s'| && k < |p'| && 0 <= j < p'[k] && j < |Next(adj, s'[k])|
      ensures Next(adj, s'[k])[j] in d' || (k + 1 < |s'| && Next(adj, s'[k])[j] == s'[k + 1])
    {
      assert s'[k] == stack[k] && p'[k] == pos[k];
    }
  }

  /** Handing out the next child of the top frame keeps the frames well formed. */
  lemma AdvanceFrames(adj: Adj, start: NodeId, stack: seq<NodeId>, pos: seq<nat>, index: map<NodeId, nat>)
    requires Frames(adj, start, stack, pos, index) && |stack| > 0
    requires pos[|stack| - 1] < |Next(adj, stack[|stack| - 1])|
    ensures Frames(adj, start, stack, pos[|stack| - 1 := pos[|stack| - 1] + 1], index)
  {
  }

  /** A finished child handed out is accounted for without a push. */
  lemma SkipFinished(adj: Adj, start: NodeId, stack: seq<NodeId>, pos: seq<nat>, index: map<NodeId, nat>,
                     visited: set<NodeId>, done: set<NodeId>, rank: map<NodeId, nat>, counter: nat)
    requires Inv(adj, start, stack, pos, index, visited, done, rank, counter)
    requires |stack| > 0 && pos[|stack| - 1] < |Next(adj, stack[|stack| - 1])|
    requires var next := Next(adj, stack[|stack| - 1])[pos[|stack| - 1]]; next !in index && next in visited
    ensures Finished(adj, start, stack, pos[|stack| - 1 := pos[|stack| - 1] + 1], visited, done, rank, counter)
  {
    var n := |stack|;
    var p' := pos[n - 1 := pos[n - 1] + 1];
    assert Next(adj, stack[n - 1])[pos[n - 1]] in done;
    forall k, j | 0 <= k < |stack| && k < |p'| && 0 <= j < p'[k] && j < |Next(adj, stack[k])|
      ensures Next(adj, stack[k])[j] in done || (k + 1 < |stack| && Next(adj, stack[k])[j] == stack[k + 1])
    {
      if k < n - 1 || j < pos[n - 1] {
        assert j < pos[k];
      }
    }
  }

  /** Pushing an unvisited child onto the stack. */
  lemma PushFrames(adj: Adj, start: NodeId, stack: seq<NodeId>, pos: seq<nat>, index: map<NodeId, nat>, next: NodeId)
    requires Frames(adj, start, stack, pos, index) && |stack| > 0 && next !in stack
    requires 1 <= pos[|stack| - 1] && Next(adj, stack[|stack| - 1])[pos[|stack| - 1] - 1] == next
    ensures Frames(adj, start, stack + [next], pos + [0], index[next := |stack|])
  {
    var s', p' := stack + [next], pos + [0];
    var n := |stack|;
    assert Shape(start, s', p') by {
      forall i, j | 0 <= i < j < n + 1 ensures s'[i] != s'[j] {
        assert s'[i] == stack[i];
        if j < n { assert s'[j] == stack[j]; }
      }
    }
    PushedLastPush(adj, stack, pos, next);
    IndexedPush(stack, index, next);
  }

  lemma PushedLastPush(adj: Adj, stack: seq<NodeId>, pos: seq<nat>, next: NodeId)
    requires |stack| == |pos| > 0 && InRange(adj, stack, pos) && PushedLast(adj, stack, pos)
    requires 1 <= pos[|stack| - 1] <= |Next(adj, stack[|stack| - 1])|
    requires Next(adj, stack[|stack| - 1])[pos[|stack| - 1] - 1] == next
    ensures InRange(adj, stack + [next], pos + [0]) && PushedLast(adj, stack + [next], pos + [0])
  {
    var s', p' := stack + [next], pos + [0];
    var n := |stack|;
    forall k | 0 <= k < n && k < |p'|
      ensures 1 <= p'[k] <= |Next(adj, s'[k])| && Next(adj, s'[k])[p'[k] - 1] == s'[k + 1]
    {
      assert s'[k] == stack[k] && p'[k] == pos[k];
      if k < n - 1 { assert s'[k + 1] == stack[k + 1]; }
    }
    forall k | 0 <= k < n + 1 && k < |p'| ensures p'[k] <= |Next(adj, s'[k])| {
      if k < n { assert s'[k] == stack[k] && p'[k] == pos[k]; }
    }
  }

  lemma IndexedPush(stack: seq<NodeId>, index: map<NodeId, nat>, next: NodeId)
    requires Indexed(stack, index) && next !in stack
    ensures Indexed(stack + [next], index[next := |stack|])
  {
    var s' := stack + [next];
    var n := |stack|;
    forall v ensures v in index[next := n] <==> v in s' {
      if v in s' && v != next {
        var k :| 0 <= k < n + 1 && s'[k] == v;
        assert stack[k] == v;
      }
    }
    forall k | 0 <= k < n + 1 ensures s'[k] in index[next := n] && index[next := n][s'[k]] == k {
      if k < n { assert s'[k] == stack[k] != next; }
    }
  }

  /** Pushing an unvisited child: it joins the visited nodes on the stack, the
      frame below it accounts for it, and fewer nodes remain unvisited. */
  lemma PushFinished(adj: Adj, start: NodeId, stack: seq<NodeId>, pos: seq<nat>, index: map<NodeId, nat>,
                     visited: set<NodeId>, done: set<NodeId>, rank: map<NodeId, nat>, counter: nat)
    requires Inv(adj, start, stack, pos, index, visited, done, rank, counter)
    requires |stack| > 0 && pos[|stack| - 1] < |Next(adj, stack[|stack| - 1])|
    requires var next := Next(adj, stack[|stack| - 1])[pos[|stack| - 1]]; next !in visited
    ensures var n := |stack|; var next := Next(adj, stack[n - 1])[pos[n - 1]];
      Finished(adj, start, stack + [next], pos[n - 1 := pos[n - 1] + 1] + [0], visited + {next}, done, rank, counter) &&
      |Targets(adj, start) - (visited + {next})| < |Targets(adj, start) - visited|
  {
    var n := |stack|;
    var top := stack[n - 1];
    var next := Next(adj, top)[pos[n - 1]];
    var s' := stack + [next];
    assert next in Targets(adj, start) by { assert top in adj && next in adj[top]; }
    MeasureDrops(Targets(adj, start), visited, next);
    assert forall v :: v in s' <==> v in stack || v == next;
    assert Partitioned(visited + {next}, done, s');
    PushHanded(adj, stack, pos, done);
  }

  lemma PushHanded(adj: Adj, stack: seq<NodeId>, pos: seq<nat>, done: set<NodeId>)
    requires |stack| == |pos| > 0 && pos[|stack| - 1] < |Next(adj, stack[|stack| - 1])|
    requires Handed(adj, stack, pos, done)
    ensures var n := |stack|;
      Handed(adj, stack + [Next(adj, stack[n - 1])[pos[n - 1]]], pos[n - 1 := pos[n - 1] + 1] + [0], done)
  {
    var n := |stack|;
    var next := Next(adj, stack[n - 1])[pos[n - 1]];
    var s', p' := stack + [next], pos[n - 1 := pos[n - 1] + 1] + [0];
    forall k, j | 0 <= k < |s'| && k < |p'| && 0 <= j < p'[k] && j < |Next(adj, s'[k])|
      ensures Next(adj, s'[k])[j] in done || (k + 1 < |s'| && Next(adj, s'[k])[j] == s'[k + 1])
    {
      assert k < n && s'[k] == stack[k];
      if k < n - 1 || j < pos[n - 1] {
        assert j < pos[k];
      }
    }
  }
}
