/** The cargo dependency worklist: which packages the workspace members reach through allowed edges. */
module Worklist {
  import opened Closure
  import opened Wrappers

  /** One kind of a dependency edge; None is cargo's null. */
  type EdgeKind = Option<string>

  /** An edge; kinds is None when the metadata lists no dep_kinds at all. */
  datatype Dep = Dep(pkg: string, kinds: Option<seq<EdgeKind>>)

  type Nodes = map<string, seq<Dep>>

  function DepsOf(nodes: Nodes, pid: string): seq<Dep> {
    if pid in nodes then nodes[pid] else []
  }

  /** dep.get("dep_kinds", [{"kind": None}]) */
  function KindsOf(dep: Dep): seq<EdgeKind> {
    if dep.kinds.Some? then dep.kinds.value else [None]
  }

  /** k.get("kind") or "normal" */
  function KindName(k: EdgeKind): string {
    if k.None? || k.value == "" then "normal" else k.value
  }

  /** Some kind of the edge is allowed. */
  predicate Allowed(kinds: set<string>, dep: Dep) {
    exists k | k in KindsOf(dep) :: KindName(k) in kinds
  }

  /** The packages an allowed edge leads to. */
  function Targets(kinds: set<string>, deps: seq<Dep>): seq<string> {
    if deps == [] then []
    else (if Allowed(kinds, deps[0]) then [deps[0].pkg] else []) + Targets(kinds, deps[1..])
  }

  function Next(nodes: Nodes, kinds: set<string>): string -> seq<string> {
    pid => Targets(kinds, DepsOf(nodes, pid))
  }

  lemma {:induction false} TargetsAre(kinds: set<string>, deps: seq<Dep>)
    ensures forall p :: p in Targets(kinds, deps) <==> exists d | d in deps :: Allowed(kinds, d) && d.pkg == p
  {
    if deps != [] {
      TargetsAre(kinds, deps[1..]);
      assert deps == [deps[0]] + deps[1..];
    }
  }

  /** Which packages follow which: those of a dependency whose kinds, or their absence, include an allowed one;
      a kind that is null or empty counts as normal, and so does a missing list. */
  lemma EdgesFollowed(nodes: Nodes, kinds: set<string>, pid: string, p: string)
    ensures p in Next(nodes, kinds)(pid) <==>
              pid in nodes && exists d | d in nodes[pid] ::
                d.pkg == p &&
                (if d.kinds.None? then "normal" in kinds
                 else exists k | k in d.kinds.value ::
                        if k == None || k == Some("") then "normal" in kinds else k.value in kinds)
  {
    TargetsAre(kinds, DepsOf(nodes, pid));
    if pid in nodes {
      forall d | d in nodes[pid]
        ensures Allowed(kinds, d) <==>
                  (if d.kinds.None? then "normal" in kinds
                   else exists k | k in d.kinds.value ::
                          if k == None || k == Some("") then "normal" in kinds else k.value in kinds)
      {
        AllowedMeans(kinds, d);
      }
    }
  }

  lemma AllowedMeans(kinds: set<string>, d: Dep)
    ensures Allowed(kinds, d) <==>
              (if d.kinds.None? then "normal" in kinds
               else exists k | k in d.kinds.value ::
                      if k == None || k == Some("") then "normal" in kinds else k.value in kinds)
  {
    assert forall k: EdgeKind :: KindName(k) in kinds <==>
             if k == None || k == Some("") then "normal" in kinds else k.value in kinds;
    if d.kinds.None? {
      assert None in KindsOf(d) && forall k | k in KindsOf(d) :: k == None;
    } else if k :| k in d.kinds.value && if k == None || k == Some("") then "normal" in kinds else k.value in kinds {
      assert k in KindsOf(d);
    }
  }

  /** Every package id that can ever be on the stack. */
  function Universe(nodes: Nodes, members: set<string>): set<string> {
    members + set pid, d | pid in nodes && d in nodes[pid] :: d.pkg
  }

  lemma UniverseBounds(nodes: Nodes, kinds: set<string>, members: set<string>)
    ensures members <= Universe(nodes, members)
    ensures Bounded(Next(nodes, kinds), Universe(nodes, members))
  {
    forall pid, q | q in Next(nodes, kinds)(pid) ensures q in Universe(nodes, members) {
      TargetsAre(kinds, DepsOf(nodes, pid));
    }
  }

  /** The worklist loop, started from the members in any order. */
  method Reachable(nodes: Nodes, kinds: set<string>, members: set<string>, order: seq<string>)
    returns (seen: set<string>)
    requires Elements(order) == members
    ensures LeastClosed(Next(nodes, kinds), members, seen)
  {
    ghost var next, universe := Next(nodes, kinds), Universe(nodes, members);
    UniverseBounds(nodes, kinds, members);
    seen := {};
    var stack := order;
    hide Next, Universe, Bounded, ExploringWithin, LeastClosed;
    Unexplored(next, members, universe);
    while stack != []
      invariant ExploringWithin(next, members, universe, seen, Elements(stack))
      decreases |universe - seen|, |stack|
    {
      var pid := stack[|stack| - 1];
      PopElements(stack);
      stack := stack[..|stack| - 1];
      if pid in seen {
        Skip(next, members, universe, seen, Elements(stack), pid);
      } else {
        var pushed := PushTargets(nodes, kinds, pid, seen + {pid}, stack);
        Explore(next, members, universe, seen, Elements(stack), pid, Elements(pushed));
        seen := seen + {pid};
        stack := pushed;
      }
    }
    assert Elements(stack) == {};
    Explored(next, members, universe, seen);
  }

  /** The two inner loops: push every unseen target, once per allowed kind. */
  method PushTargets(nodes: Nodes, kinds: set<string>, pid: string, seen: set<string>, stack: seq<string>)
    returns (r: seq<string>)
    ensures Elements(stack) <= Elements(r) <= Elements(stack) + Elements(Next(nodes, kinds)(pid))
    ensures Elements(Next(nodes, kinds)(pid)) <= seen + Elements(r)
  {
    r := stack;
    var deps := DepsOf(nodes, pid);
    TargetsAre(kinds, deps);
    for i := 0 to |deps|
      invariant stack <= r
      invariant forall p | p in r :: p in stack || p in Next(nodes, kinds)(pid)
      invariant forall j | 0 <= j < i && Allowed(kinds, deps[j]) :: deps[j].pkg in seen || deps[j].pkg in r
    {
      var ks := KindsOf(deps[i]);
      ghost var before := r;
      for j := 0 to |ks|
        invariant before <= r
        invariant forall p | p in r :: p in before || (Allowed(kinds, deps[i]) && p == deps[i].pkg)
        invariant (exists l | 0 <= l < j :: KindName(ks[l]) in kinds) ==> deps[i].pkg in seen || deps[i].pkg in r
      {
        if KindName(ks[j]) in kinds && deps[i].pkg !in seen {
          assert Allowed(kinds, deps[i]);
          r := r + [deps[i].pkg];
        }
      }
      if Allowed(kinds, deps[i]) {
        var k :| k in KindsOf(deps[i]) && KindName(k) in kinds;
        var l :| 0 <= l < |ks| && ks[l] == k;
      }
    }
  }
}
