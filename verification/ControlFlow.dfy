/** Forward control-flow graphs, reachability, and the stack walk the bytecode verifier
    makes over them. Nodes are instruction addresses; node 0 is the entry. */
module ControlFlow {
  import opened Basics

  /** `succ` gives every node its successors; `bad` are the refused nodes (which lead
      nowhere); `twins` are the conditional jumps whose target is their fall-through. */
  datatype Graph = Graph(succ: map<nat, set<nat>>, bad: set<nat>, twins: set<nat>) {
    /** Every edge stays in the graph and goes forward; nodes are 8 apart, at most 64. */
    ghost predicate Forward() {
      && 0 in succ
      && (forall v :: v in succ ==> v % 8 == 0 && v < 512)
      && (forall v :: v in succ ==> succ[v] <= succ.Keys)
      && (forall v :: v in succ ==> forall w :: w in succ[v] ==> w > v)
    }
  }

  // ----- reachability: the declarative reference -----

  ghost predicate IsPath(g: Graph, p: seq<nat>) {
    && |p| > 0 && p[0] == 0
    && (forall i :: 0 <= i < |p| ==> p[i] in g.succ)
    && (forall i :: 0 < i < |p| ==> p[i] in g.succ[p[i - 1]])
  }

  /** Some chain of control-flow edges leads from the first instruction to `v`. */
  ghost predicate Reachable(g: Graph, v: nat) {
    exists p :: IsPath(g, p) && p[|p| - 1] == v
  }

  lemma ReachableStart(g: Graph)
    requires g.Forward()
    ensures Reachable(g, 0)
  {
    assert IsPath(g, [0]) && [0][|[0]| - 1] == 0;
  }

  lemma ReachableStep(g: Graph, v: nat, w: nat)
    requires g.Forward() && Reachable(g, v) && v in g.succ && w in g.succ[v]
    ensures w in g.succ && w > v && Reachable(g, w)
  {
    var p :| IsPath(g, p) && p[|p| - 1] == v;
    var q := p + [w];
    assert IsPath(g, q) && q[|q| - 1] == w;
  }

  lemma {:induction false} ClosedContainsPath(g: Graph, p: seq<nat>, closed: set<nat>)
    requires IsPath(g, p) && 0 in closed
    requires forall v :: v in closed ==> v in g.succ && g.succ[v] <= closed
    ensures p[|p| - 1] in closed
    decreases |p|
  {
    if |p| > 1 {
      var q := p[..|p| - 1];
      assert IsPath(g, q);
      ClosedContainsPath(g, q, closed);
      assert p[|p| - 1] in g.succ[q[|q| - 1]];
    }
  }

  /** A set of nodes that holds the entry and is closed under successors holds every
      reachable node. */
  lemma ClosedContainsReachable(g: Graph, v: nat, closed: set<nat>)
    requires Reachable(g, v) && 0 in closed
    requires forall v :: v in closed ==> v in g.succ && g.succ[v] <= closed
    ensures v in closed
  {
    var p :| IsPath(g, p) && p[|p| - 1] == v;
    ClosedContainsPath(g, p, closed);
  }

  ghost predicate NoBadReachable(g: Graph) {
    forall v :: Reachable(g, v) ==> v !in g.bad
  }

  // ----- the highest-first listing -----

  /** The nodes named so far by the listed ones: the entry, and all successors. */
  ghost predicate Discovered(g: Graph, listed: seq<nat>, v: nat) {
    v == 0 || exists u :: u in listed && u in g.succ && v in g.succ[u]
  }

  /** `v` is the highest-addressed node discovered and not yet listed. */
  ghost predicate IsHighest(g: Graph, listed: seq<nat>, v: nat) {
    && v in g.succ && v !in listed && Discovered(g, listed, v)
    && (forall w :: w > v && w !in listed ==> !Discovered(g, listed, w))
  }

  ghost predicate HighestAt(g: Graph, o: seq<nat>, k: nat)
    requires k < |o|
  {
    IsHighest(g, o[..k], o[k])
  }

  /** `o` lists nodes, each time taking the highest one. */
  ghost predicate HighestFirst(g: Graph, o: seq<nat>) {
    forall k: nat :: k < |o| ==> HighestAt(g, o, k)
  }

  ghost predicate LateAt(g: Graph, o: seq<nat>, k: nat)
    requires k < |o|
  {
    o[k] in g.twins ==> o[k] + 8 in o[..k]
  }

  /** Every twin in the listing comes after the node it jumps and falls to. */
  ghost predicate TwinsLate(g: Graph, o: seq<nat>) {
    forall k: nat :: k < |o| ==> LateAt(g, o, k)
  }

  ghost predicate TwinFree(g: Graph) {
    forall o :: HighestFirst(g, o) ==> TwinsLate(g, o)
  }

  /** The highest-first listing is unique: any two agree as far as both go. */
  lemma {:induction false} HighestFirstUnique(g: Graph, a: seq<nat>, b: seq<nat>, n: nat)
    requires HighestFirst(g, a) && HighestFirst(g, b) && n <= |a| && n <= |b|
    ensures a[..n] == b[..n]
    decreases n
  {
    if n == 0 {
    } else {
      HighestFirstUnique(g, a, b, n - 1);
      assert HighestAt(g, a, n - 1) && HighestAt(g, b, n - 1);
      assert a[n - 1] == b[n - 1];
      assert a[..n] == a[..n - 1] + [a[n - 1]] && b[..n] == b[..n - 1] + [b[n - 1]];
    }
  }

  lemma {:induction false} ListedAreReachable(g: Graph, o: seq<nat>, k: nat)
    requires g.Forward() && HighestFirst(g, o) && k < |o|
    ensures Reachable(g, o[k])
    decreases k
  {
    assert HighestAt(g, o, k);
    if o[k] == 0 {
      ReachableStart(g);
    } else {
      var u :| u in o[..k] && u in g.succ && o[k] in g.succ[u];
      var j :| 0 <= j < k && o[j] == u;
      ListedAreReachable(g, o, j);
      ReachableStep(g, u, o[k]);
    }
  }

  /** A twin at the entry is listed before anything, so always early. */
  lemma EntryTwinIsEarly(g: Graph)
    requires 0 in g.succ && 0 in g.twins
    ensures !TwinFree(g)
  {
    var o: seq<nat> := [0];
    assert o[..0] == [];
    assert HighestAt(g, o, 0) && !LateAt(g, o, 0);
    assert HighestFirst(g, o) && !TwinsLate(g, o);
  }

  // ----- the stack walk -----

  /** The walk so far is a highest-first listing `o` of good nodes with every twin late, and
      the stack holds exactly what is discovered and unlisted, in ascending order. */
  ghost predicate Clean(g: Graph, stack: seq<nat>, o: seq<nat>) {
    && HighestFirst(g, o) && TwinsLate(g, o)
    && (forall v :: v in o ==> v in g.succ && v !in g.bad)
    && Ascending(stack)
    && (forall v :: v in stack <==> v !in o && Discovered(g, o, v))
  }

  /** Some stack entry can only be popped after it has been visited. */
  ghost predicate Doomed(stack: seq<nat>, o: seq<nat>) {
    || (exists i :: 0 <= i < |stack| && stack[i] in o)
    || (exists i, j :: 0 <= i < j < |stack| && stack[i] == stack[j])
  }

  /** The loop invariant of the walk, whatever the graph: the walk is clean, or a twin was
      met too early and rejection is certain. */
  ghost predicate WalkInvariant(g: Graph, stack: seq<nat>, o: seq<nat>) {
    && g.Forward()
    && (forall v :: v in stack ==> v in g.succ)
    && (Clean(g, stack, o) || (!TwinFree(g) && Doomed(stack, o)))
  }

  /** `p` is what the walk pushes on visiting `v` when `seen` has been visited: the unseen
      successors in ascending order, except that an early twin pushes its successor twice. */
  ghost predicate PushesFor(g: Graph, v: nat, seen: seq<nat>, p: seq<nat>)
    requires v in g.succ
  {
    && (forall w :: w in p <==> w in g.succ[v] && w !in seen)
    && (if v in g.twins && v + 8 !in seen then p == [v + 8, v + 8] else Ascending(p))
  }

  lemma StartIsClean(g: Graph)
    requires g.Forward()
    ensures WalkInvariant(g, [0], [])
  {
  }

  lemma DiscoveredExtend(g: Graph, o: seq<nat>, v: nat, w: nat)
    requires v in g.succ
    ensures Discovered(g, o + [v], w) <==> Discovered(g, o, w) || w in g.succ[v]
  {
  }

  /** Popping the top of a clean stack extends the highest-first listing. */
  lemma PopExtendsListing(g: Graph, rest: seq<nat>, v: nat, o: seq<nat>)
    requires v in g.succ && Clean(g, rest + [v], o)
    ensures v !in o && v !in rest && HighestFirst(g, o + [v])
    ensures forall i :: 0 <= i < |rest| ==> rest[i] < v
  {
    var s := rest + [v];
    assert s[|rest|] == v && v in s;
    assert forall i :: 0 <= i < |rest| ==> s[i] == rest[i];
    assert IsHighest(g, o, v) by {
      assert forall w :: w > v ==> w !in s;
    }
    var o' := o + [v];
    forall k: nat | k < |o'|
      ensures HighestAt(g, o', k)
    {
      if k < |o| {
        assert HighestAt(g, o, k) && o'[..k] == o[..k];
      } else {
        assert o'[..k] == o;
      }
    }
  }

  lemma TwinsLateStep(g: Graph, o: seq<nat>, v: nat)
    requires TwinsLate(g, o)
    ensures TwinsLate(g, o + [v]) <==> !(v in g.twins && v + 8 !in o)
  {
    var o' := o + [v];
    assert o'[..|o|] == o;
    assert LateAt(g, o', |o|) <==> !(v in g.twins && v + 8 !in o);
    forall k: nat | k < |o|
      ensures LateAt(g, o', k)
    {
      assert LateAt(g, o, k) && o'[..k] == o[..k];
    }
  }

  lemma AscendingAppend(rest: seq<nat>, v: nat, p: seq<nat>)
    requires Ascending(rest) && Ascending(p)
    requires forall i :: 0 <= i < |rest| ==> rest[i] < v
    requires forall i :: 0 <= i < |p| ==> v < p[i]
    ensures Ascending(rest + p)
  {
  }

  lemma StackHoldsDiscovered(g: Graph, rest: seq<nat>, v: nat, o: seq<nat>, p: seq<nat>)
    requires v in g.succ && v !in rest
    requires forall w :: w in rest + [v] <==> w !in o && Discovered(g, o, w)
    requires forall w :: w in p <==> w in g.succ[v] && w !in o + [v]
    ensures forall w :: w in rest + p <==> w !in o + [v] && Discovered(g, o + [v], w)
  {
    forall w
      ensures w in rest + p <==> w !in o + [v] && Discovered(g, o + [v], w)
    {
      DiscoveredExtend(g, o, v, w);
      assert w in rest + [v] <==> w in rest || w == v;
    }
  }

  lemma AscendingStep(g: Graph, rest: seq<nat>, v: nat, seen: seq<nat>, p: seq<nat>)
    requires g.Forward() && v in g.succ && Ascending(rest + [v]) && Ascending(p)
    requires forall w :: w in p <==> w in g.succ[v] && w !in seen
    ensures Ascending(rest + p)
  {
    var s := rest + [v];
    assert forall i :: 0 <= i < |rest| ==> s[i] == rest[i] && s[i] < s[|rest|];
    assert forall w :: w in p ==> w > v;
    assert forall i :: 0 <= i < |p| ==> p[i] in p;
    AscendingAppend(rest, v, p);
  }

  /** A step of the walk from a clean state: it stays clean, unless it met a twin early. */
  lemma CleanStep(g: Graph, rest: seq<nat>, v: nat, o: seq<nat>, p: seq<nat>)
    requires g.Forward() && v in g.succ && v !in g.bad && Clean(g, rest + [v], o)
    requires PushesFor(g, v, o + [v], p)
    ensures Clean(g, rest + p, o + [v]) || (!TwinFree(g) && Doomed(rest + p, o + [v]))
  {
    PopExtendsListing(g, rest, v, o);
    TwinsLateStep(g, o, v);
    if v in g.twins && v + 8 !in o {
      assert (rest + p)[|rest|] == (rest + p)[|rest| + 1];
    } else {
      AscendingStep(g, rest, v, o + [v], p);
      StackHoldsDiscovered(g, rest, v, o, p);
    }
  }

  /** A doomed stack stays doomed, whatever is popped and pushed. */
  lemma DoomedStep(rest: seq<nat>, v: nat, p: seq<nat>, o: seq<nat>)
    requires Doomed(rest + [v], o) && v !in o
    ensures Doomed(rest + p, o + [v])
  {
    var s := rest + [v];
    var t := rest + p;
    if i :| 0 <= i < |s| && s[i] in o {
      assert t[i] == s[i] && t[i] in o + [v];
    } else {
      var i, j :| 0 <= i < j < |s| && s[i] == s[j];
      assert t[i] == s[i];
      if j < |rest| {
        assert t[j] == s[j];
      } else {
        assert t[i] == v && t[i] in o + [v];
      }
    }
  }

  /** A step of the walk keeps its invariant, whatever the graph. */
  lemma WalkStep(g: Graph, rest: seq<nat>, v: nat, o: seq<nat>, p: seq<nat>)
    requires WalkInvariant(g, rest + [v], o) && v in g.succ && v !in g.bad && v !in o
    requires PushesFor(g, v, o + [v], p)
    ensures WalkInvariant(g, rest + p, o + [v])
  {
    forall w | w in rest + p
      ensures w in g.succ
    {
      assert w in rest ==> w in rest + [v];
    }
    if Clean(g, rest + [v], o) {
      CleanStep(g, rest, v, o, p);
    } else {
      DoomedStep(rest, v, p, o);
    }
  }

  /** Meeting a node again means a twin was met early. */
  lemma RevisitNeedsTwin(g: Graph, rest: seq<nat>, v: nat, o: seq<nat>)
    requires WalkInvariant(g, rest + [v], o) && v in g.succ && v in o
    ensures !TwinFree(g)
  {
  }

  /** A node popped from a clean stack is reachable, so a bad one condemns the graph. */
  lemma BadPopRejects(g: Graph, rest: seq<nat>, v: nat, o: seq<nat>)
    requires WalkInvariant(g, rest + [v], o) && v in g.succ && v in g.bad
    ensures !(NoBadReachable(g) && TwinFree(g))
  {
    if Clean(g, rest + [v], o) {
      PopExtendsListing(g, rest, v, o);
      assert (o + [v])[|o|] == v;
      ListedAreReachable(g, o + [v], |o|);
    }
  }

  /** An ascending stack of 64 nodes would hold every node, listed ones included; so a full
      stack means a twin was met early. */
  lemma FullStackNeedsTwin(g: Graph, stack: seq<nat>, o: seq<nat>)
    requires WalkInvariant(g, stack, o) && o != [] && |stack| == 64
    ensures !TwinFree(g)
  {
    if Clean(g, stack, o) {
      assert o[0] in o;
      assert forall k :: 0 <= k < |stack| ==> stack[k] in stack;
      FullStackHoldsAll(stack, o[0]);
    }
  }

  lemma FullStackHoldsAll(stack: seq<nat>, v: nat)
    requires Ascending(stack) && |stack| == 64 && v % 8 == 0 && v < 512
    requires forall k :: 0 <= k < |stack| ==> stack[k] % 8 == 0 && stack[k] < 512
    ensures v in stack
  {
    NodeAtLeast(stack, v / 8);
    NodeAtMost(stack, v / 8);
    assert stack[v / 8] == v;
  }

  lemma {:induction false} NodeAtLeast(stack: seq<nat>, i: nat)
    requires Ascending(stack) && i < |stack|
    requires forall k :: 0 <= k < |stack| ==> stack[k] % 8 == 0 && stack[k] < 512
    ensures stack[i] >= 8 * i
  {
    if i == 0 {
    } else {
      NodeAtLeast(stack, i - 1);
      assert stack[i - 1] < stack[i];
    }
  }

  lemma {:induction false} NodeAtMost(stack: seq<nat>, i: nat)
    requires Ascending(stack) && i < |stack|
    requires forall k :: 0 <= k < |stack| ==> stack[k] % 8 == 0 && stack[k] < 512
    ensures stack[i] + 8 * (|stack| - i) <= 512
    decreases |stack| - i
  {
    if i + 1 < |stack| {
      NodeAtMost(stack, i + 1);
      assert stack[i] < stack[i + 1];
    }
  }

  /** When the stack runs empty the walk was clean and has listed every reachable node; so
      none of them is bad and no twin came early. */
  lemma EmptyStackAccepts(g: Graph, o: seq<nat>)
    requires WalkInvariant(g, [], o)
    ensures NoBadReachable(g) && TwinFree(g)
  {
    var none: seq<nat> := [];
    assert Clean(g, none, o);
    assert forall v :: v !in o && Discovered(g, o, v) ==> v in none;
    CompleteHoldsReachable(g, o);
    CompleteIsTwinFree(g, o);
  }

  lemma CompleteIsTwinFree(g: Graph, o: seq<nat>)
    requires HighestFirst(g, o) && TwinsLate(g, o)
    requires forall v :: Discovered(g, o, v) ==> v in o
    ensures TwinFree(g)
  {
    forall o' | HighestFirst(g, o')
      ensures TwinsLate(g, o')
    {
      CompleteListingIsLongest(g, o, o');
      HighestFirstUnique(g, o', o, |o'|);
      forall k: nat | k < |o'|
        ensures LateAt(g, o', k)
      {
        assert LateAt(g, o, k) && o'[..k] == o[..k];
      }
    }
  }

  lemma CompleteHoldsReachable(g: Graph, o: seq<nat>)
    requires forall v :: Discovered(g, o, v) ==> v in o
    requires forall v :: v in o ==> v in g.succ && v !in g.bad
    ensures NoBadReachable(g)
  {
    var closed := set v | v in o;
    assert Discovered(g, o, 0);
    forall v, w | v in closed && w in g.succ[v]
      ensures w in closed
    {
      assert Discovered(g, o, w);
    }
    forall v | Reachable(g, v)
      ensures v !in g.bad
    {
      ClosedContainsReachable(g, v, closed);
    }
  }

  lemma CompleteListingIsLongest(g: Graph, o: seq<nat>, o': seq<nat>)
    requires HighestFirst(g, o) && HighestFirst(g, o')
    requires forall v :: Discovered(g, o, v) ==> v in o
    ensures |o'| <= |o|
  {
    if |o| < |o'| {
      var v := o'[|o|];
      assert HighestAt(g, o', |o|) && v !in o'[..|o|];
      assert o[..|o|] == o;
      HighestFirstUnique(g, o, o', |o|);
      assert false;
    }
  }
}
