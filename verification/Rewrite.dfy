/**
 * Rewrite-rule evaluation: the depth-first search of `Evaluate` and the least
 * fixed point it is meant to decide.
 *
 * A frame asks one question about the subject of the call: "does it hold
 * `relation` on this object?".  The search looks the frame up directly, then
 * expands its rule into child frames, cutting every branch that returns to a
 * frame already on its own path.
 */
module Rewrite {
  import opened Common

  datatype RuleNode =
    | This
    | ComputedUserset(relation: string)
    | TupleToUserset(tuplesetRelation: string, computedUsersetRelation: string)

  type Rule = seq<RuleNode>

  /** object type -> relation -> rule */
  type Rules = map<string, map<string, Rule>>

  datatype Frame = Frame(relation: string, objectType: string, objectId: string)

  datatype SubjectRef = SubjectRef(subjectType: string, subjectId: string, tupleId: string)

  datatype Outcome = Allowed(tupleId: string) | Denied | LimitExceeded

  /** What stays fixed during one evaluation: the rules, the direct tuples of the
      queried subject, and the subjects related to an object by a relation. */
  datatype World = World(
    rules: Rules,
    direct: Frame -> Option<string>,
    related: (string, string, string) -> set<SubjectRef>)

  /** The enumeration callback.  It ranges over a hash map, so each call may list the
      same subjects in another order: the first argument is the position of the call
      in the search tree, which no two calls share. */
  type Enumeration = (seq<nat>, string, string, string) -> seq<SubjectRef>

  datatype Env = Env(w: World, list: Enumeration, maxDepth: int, maxFanOut: int)

  const DEFAULT_MAX_DEPTH := 8
  const DEFAULT_MAX_FAN_OUT := 1024

  /** Option values: zero means "use the default". */
  function MakeEnv(w: World, list: Enumeration, maxDepth: int, maxFanOut: int): Env {
    Env(w, list,
        if maxDepth == 0 then DEFAULT_MAX_DEPTH else maxDepth,
        if maxFanOut == 0 then DEFAULT_MAX_FAN_OUT else maxFanOut)
  }

  /** The enumeration lists exactly the related subjects, each once, in some order. */
  ghost predicate Faithful(e: Env) {
    forall at, ot, oid, rel ::
      Distinct(e.list(at, ot, oid, rel)) && Elements(e.list(at, ot, oid, rel)) == e.w.related(ot, oid, rel)
  }

  // ---------------------------------------------------------------- the search

  /** The verdict of a search and the direct lookups it made, in order. */
  datatype Search = Search(outcome: Outcome, lookups: seq<Frame>)

  function RuleFor(rules: Rules, f: Frame): Option<Rule> {
    if f.objectType in rules && f.relation in rules[f.objectType]
    then Some(rules[f.objectType][f.relation])
    else None
  }

  function Fuel(e: Env, depth: nat): nat {
    if depth < e.maxDepth then e.maxDepth - depth else 0
  }

  /** The frames one rule node sends the search to; None when the enumeration is over the
      fan-out bound. */
  function Expand(e: Env, f: Frame, node: RuleNode, at: seq<nat>): Option<seq<Frame>> {
    match node
    case This => Some([])
    case ComputedUserset(rel) => Some([Frame(rel, f.objectType, f.objectId)])
    case TupleToUserset(ts, cu) =>
      var subs := e.list(at, f.objectType, f.objectId, ts);
      if |subs| > e.maxFanOut then None
      else Some(seq(|subs|, i requires 0 <= i < |subs| => Frame(cu, subs[i].subjectType, subs[i].subjectId)))
  }

  function Visit(e: Env, f: Frame, stack: seq<Frame>, depth: nat, at: seq<nat>): Search
    decreases Fuel(e, depth), 2, 0
  {
    if e.w.direct(f).Some? then Search(Allowed(e.w.direct(f).value), [f])
    else match RuleFor(e.w.rules, f)
    case None => Search(Denied, [f])
    case Some(rule) =>
      if f in stack then Search(Denied, [f])
      else if depth >= e.maxDepth then Search(LimitExceeded, [f])
      else
        var r := TryNodes(e, f, rule, 0, stack + [f], depth, at);
        Search(r.outcome, [f] + r.lookups)
  }

  function TryNodes(e: Env, f: Frame, rule: Rule, i: nat, stack: seq<Frame>, depth: nat, at: seq<nat>): Search
    requires i <= |rule| && depth < e.maxDepth
    decreases Fuel(e, depth), 1, |rule| - i
  {
    if i == |rule| then Search(Denied, [])
    else match Expand(e, f, rule[i], at + [i])
    case None => Search(LimitExceeded, [])
    case Some(children) =>
      var r := TryFrames(e, children, 0, stack, depth, at + [i]);
      if r.outcome != Denied then r
      else
        var rest := TryNodes(e, f, rule, i + 1, stack, depth, at);
        Search(rest.outcome, r.lookups + rest.lookups)
  }

  function TryFrames(e: Env, children: seq<Frame>, j: nat, stack: seq<Frame>, depth: nat, at: seq<nat>): Search
    requires j <= |children| && depth < e.maxDepth
    decreases Fuel(e, depth), 0, |children| - j
  {
    if j == |children| then Search(Denied, [])
    else
      var r := Visit(e, children[j], stack, depth + 1, at + [j]);
      if r.outcome != Denied then r
      else
        var rest := TryFrames(e, children, j + 1, stack, depth, at);
        Search(rest.outcome, r.lookups + rest.lookups)
  }

  function Evaluate(e: Env, f: Frame): Outcome {
    Visit(e, f, [], 0, []).outcome
  }

  // ---------------------------------------------------------------- the least fixed point

  /** `c` is a child question of `f` under the rule of `f`. */
  ghost predicate Edge(w: World, f: Frame, c: Frame) {
    RuleFor(w.rules, f).Some? && exists node :: node in RuleFor(w.rules, f).value && NodeEdge(w, f, node, c)
  }

  ghost predicate NodeEdge(w: World, f: Frame, node: RuleNode, c: Frame) {
    match node
    case This => false
    case ComputedUserset(rel) => c == Frame(rel, f.objectType, f.objectId)
    case TupleToUserset(ts, cu) =>
      exists s :: s in w.related(f.objectType, f.objectId, ts) && c == Frame(cu, s.subjectType, s.subjectId)
  }

  /** A set of frames closed under "has a direct tuple" and "some child is in the set". */
  ghost predicate Closed(w: World, grants: iset<Frame>) {
    && (forall f :: w.direct(f).Some? ==> f in grants)
    && (forall f, c :: Edge(w, f, c) && c in grants ==> f in grants)
  }

  ghost predicate Chain(w: World, c: seq<Frame>) {
    |c| > 0 && forall i :: 0 <= i < |c| - 1 ==> Edge(w, c[i], c[i + 1])
  }

  ghost predicate Reaches(w: World, f: Frame, g: Frame) {
    exists c :: Chain(w, c) && c[0] == f && c[|c| - 1] == g
  }

  /** A chain of rule edges, of any length, leads from `f` to a direct tuple. */
  ghost predicate Granted(w: World, f: Frame) {
    exists g :: Reaches(w, f, g) && w.direct(g).Some?
  }

  lemma ReachesSelf(w: World, f: Frame)
    ensures Reaches(w, f, f)
  {
    assert Chain(w, [f]) && [f][0] == f;
  }

  lemma ReachesStep(w: World, f: Frame, c: Frame, g: Frame)
    requires Edge(w, f, c) && Reaches(w, c, g)
    ensures Reaches(w, f, g)
  {
    var p :| Chain(w, p) && p[0] == c && p[|p| - 1] == g;
    var q := [f] + p;
    assert forall i :: 0 <= i < |q| - 1 ==> q[i + 1] == p[i] && (i > 0 ==> q[i] == p[i - 1]);
    assert Chain(w, q) && q[0] == f && q[|q| - 1] == g;
  }

  lemma ReachesExtend(w: World, f: Frame, c: Frame, g: Frame)
    requires Reaches(w, f, c) && Edge(w, c, g)
    ensures Reaches(w, f, g)
  {
    var p :| Chain(w, p) && p[0] == f && p[|p| - 1] == c;
    var q := p + [g];
    assert Chain(w, q) && q[0] == f && q[|q| - 1] == g;
  }

  /** Granted is the least closed set: it is closed, and inside every closed set. */
  lemma GrantedIsLeastFixedPoint(w: World)
    ensures Closed(w, iset f | Granted(w, f))
    ensures forall grants :: Closed(w, grants) ==> (iset f | Granted(w, f)) <= grants
  {
    GrantedIsClosed(w);
    forall grants | Closed(w, grants) ensures (iset f | Granted(w, f)) <= grants {
      GrantedIsLeast(w, grants);
    }
  }

  lemma GrantedIsClosed(w: World)
    ensures Closed(w, iset f | Granted(w, f))
  {
    hide Reaches, Edge;
    forall f | w.direct(f).Some? ensures Granted(w, f) {
      ReachesSelf(w, f);
    }
    forall f, c | Edge(w, f, c) && Granted(w, c) ensures Granted(w, f) {
      var g :| Reaches(w, c, g) && w.direct(g).Some?;
      ReachesStep(w, f, c, g);
    }
  }

  lemma GrantedIsLeast(w: World, grants: iset<Frame>)
    requires Closed(w, grants)
    ensures (iset f | Granted(w, f)) <= grants
  {
    hide Closed;
    forall f | Granted(w, f) ensures f in grants {
      var g :| Reaches(w, f, g) && w.direct(g).Some?;
      var p :| Chain(w, p) && p[0] == f && p[|p| - 1] == g;
      ClosedAbsorbsChain(w, grants, p, 0);
    }
  }

  lemma {:induction false} ClosedAbsorbsChain(w: World, grants: iset<Frame>, p: seq<Frame>, i: nat)
    requires Closed(w, grants) && Chain(w, p) && i < |p| && w.direct(p[|p| - 1]).Some?
    ensures p[i] in grants
    decreases |p| - i
  {
    if i < |p| - 1 {
      ClosedAbsorbsChain(w, grants, p, i + 1);
      assert Edge(w, p[i], p[i + 1]);
    }
  }

  // ---------------------------------------------------------------- rule edges seen by the search

  lemma ExpandIsEdges(e: Env, f: Frame, node: RuleNode, at: seq<nat>)
    requires Faithful(e)
    requires Expand(e, f, node, at).Some?
    ensures forall c :: c in Expand(e, f, node, at).value <==> NodeEdge(e.w, f, node, c)
  {
    match node
    case This =>
    case ComputedUserset(_) =>
    case TupleToUserset(ts, cu) =>
      var subs := e.list(at, f.objectType, f.objectId, ts);
      var children := Expand(e, f, node, at).value;
      assert Elements(subs) == e.w.related(f.objectType, f.objectId, ts);
      forall c | c in children ensures NodeEdge(e.w, f, node, c) {
        var i :| 0 <= i < |children| && children[i] == c;
        assert subs[i] in Elements(subs);
      }
      forall c | NodeEdge(e.w, f, node, c) ensures c in children {
        var s :| s in e.w.related(f.objectType, f.objectId, ts) && c == Frame(cu, s.subjectType, s.subjectId);
        assert s in Elements(subs);
        var i :| 0 <= i < |subs| && subs[i] == s;
        assert children[i] == c;
      }
  }

  // ---------------------------------------------------------------- soundness

  /** Whatever id an Allowed verdict carries is the id of a direct tuple on a frame the
      rules lead to. */
  lemma {:induction false} VisitSound(e: Env, f: Frame, stack: seq<Frame>, depth: nat, at: seq<nat>) returns (g: Frame)
    requires Faithful(e)
    requires Visit(e, f, stack, depth, at).outcome.Allowed?
    ensures Reaches(e.w, f, g) && e.w.direct(g) == Some(Visit(e, f, stack, depth, at).outcome.tupleId)
    decreases Fuel(e, depth), 2, 0
  {
    if e.w.direct(f).Some? {
      g := f;
      ReachesSelf(e.w, f);
    } else {
      g := NodesSound(e, f, RuleFor(e.w.rules, f).value, 0, stack + [f], depth, at);
    }
  }

  lemma {:induction false} NodesSound(e: Env, f: Frame, rule: Rule, i: nat, stack: seq<Frame>, depth: nat, at: seq<nat>)
    returns (g: Frame)
    requires Faithful(e) && RuleFor(e.w.rules, f) == Some(rule)
    requires i <= |rule| && depth < e.maxDepth
    requires TryNodes(e, f, rule, i, stack, depth, at).outcome.Allowed?
    ensures Reaches(e.w, f, g)
    ensures e.w.direct(g) == Some(TryNodes(e, f, rule, i, stack, depth, at).outcome.tupleId)
    decreases Fuel(e, depth), 1, |rule| - i
  {
    var children := Expand(e, f, rule[i], at + [i]).value;
    if TryFrames(e, children, 0, stack, depth, at + [i]).outcome.Denied? {
      g := NodesSound(e, f, rule, i + 1, stack, depth, at);
    } else {
      var c;
      c, g := FramesSound(e, children, 0, stack, depth, at + [i]);
      ExpandIsEdges(e, f, rule[i], at + [i]);
      assert rule[i] in rule && NodeEdge(e.w, f, rule[i], c);
      ReachesStep(e.w, f, c, g);
    }
  }

  lemma {:induction false} FramesSound(e: Env, children: seq<Frame>, j: nat, stack: seq<Frame>, depth: nat, at: seq<nat>)
    returns (c: Frame, g: Frame)
    requires Faithful(e) && j <= |children| && depth < e.maxDepth
    requires TryFrames(e, children, j, stack, depth, at).outcome.Allowed?
    ensures c in children && Reaches(e.w, c, g)
    ensures e.w.direct(g) == Some(TryFrames(e, children, j, stack, depth, at).outcome.tupleId)
    decreases Fuel(e, depth), 0, |children| - j
  {
    if Visit(e, children[j], stack, depth + 1, at + [j]).outcome.Denied? {
      c, g := FramesSound(e, children, j + 1, stack, depth, at);
    } else {
      c := children[j];
      g := VisitSound(e, children[j], stack, depth + 1, at + [j]);
    }
  }

  lemma EvaluateSound(e: Env, f: Frame)
    requires Faithful(e) && Evaluate(e, f).Allowed?
    ensures exists g :: Reaches(e.w, f, g) && e.w.direct(g) == Some(Evaluate(e, f).tupleId)
  {
    var g := VisitSound(e, f, [], 0, []);
  }

  // ---------------------------------------------------------------- completeness

  lemma {:induction false} FramesAllDenied(e: Env, children: seq<Frame>, j: nat, stack: seq<Frame>, depth: nat, at: seq<nat>, k: nat)
    requires j <= k < |children| && depth < e.maxDepth
    requires TryFrames(e, children, j, stack, depth, at).outcome.Denied?
    ensures Visit(e, children[k], stack, depth + 1, at + [k]).outcome.Denied?
    decreases |children| - j
  {
    if j < k {
      FramesAllDenied(e, children, j + 1, stack, depth, at, k);
    }
  }

  lemma {:induction false} NodesAllDenied(e: Env, f: Frame, rule: Rule, i: nat, stack: seq<Frame>, depth: nat, at: seq<nat>, k: nat)
    requires i <= k < |rule| && depth < e.maxDepth
    requires TryNodes(e, f, rule, i, stack, depth, at).outcome.Denied?
    ensures Expand(e, f, rule[k], at + [k]).Some?
    ensures TryFrames(e, Expand(e, f, rule[k], at + [k]).value, 0, stack, depth, at + [k]).outcome.Denied?
    decreases |rule| - i
  {
    if i < k {
      NodesAllDenied(e, f, rule, i + 1, stack, depth, at, k);
    }
  }

  /** A denied frame off the stack has had every one of its children denied. */
  lemma ChildDenied(e: Env, f: Frame, stack: seq<Frame>, depth: nat, at: seq<nat>, c: Frame) returns (at': seq<nat>)
    requires Faithful(e) && f !in stack && Edge(e.w, f, c)
    requires Visit(e, f, stack, depth, at).outcome.Denied?
    ensures depth < e.maxDepth && Visit(e, c, stack + [f], depth + 1, at').outcome.Denied?
  {
    var rule := RuleFor(e.w.rules, f).value;
    var node :| node in rule && NodeEdge(e.w, f, node, c);
    var k :| 0 <= k < |rule| && rule[k] == node;
    NodesAllDenied(e, f, rule, 0, stack + [f], depth, at, k);
    ExpandIsEdges(e, f, rule[k], at + [k]);
    var children := Expand(e, f, rule[k], at + [k]).value;
    var m :| 0 <= m < |children| && children[m] == c;
    FramesAllDenied(e, children, 0, stack + [f], depth, at + [k], m);
    at' := at + [k] + [m];
  }

  lemma {:induction false} LastOccurrence(p: seq<Frame>, f: Frame) returns (k: nat)
    requires f in p
    ensures k < |p| && p[k] == f && f !in p[k + 1..]
  {
    var n := |p| - 1;
    if p[n] == f {
      k := n;
    } else {
      assert p == p[..n] + [p[n]];
      k := LastOccurrence(p[..n], f);
      assert p[k + 1..] == p[..n][k + 1..] + [p[n]];
    }
  }

  lemma ChainSuffix(w: World, p: seq<Frame>, k: nat)
    requires Chain(w, p) && k < |p|
    ensures Chain(w, p[k..])
  {
    var q := p[k..];
    forall i | 0 <= i < |q| - 1 ensures Edge(w, q[i], q[i + 1]) {
      assert Edge(w, p[k + i], p[k + i + 1]);
    }
  }

  /** The heart of completeness: cutting a branch at a repeated frame loses nothing,
      because a chain to a tuple can be restarted at its last visit to that frame. */
  lemma {:induction false} DeniedBlocksChains(e: Env, f: Frame, stack: seq<Frame>, depth: nat, at: seq<nat>, p: seq<Frame>)
    requires Faithful(e)
    requires Visit(e, f, stack, depth, at).outcome.Denied?
    requires Chain(e.w, p) && p[0] == f
    requires forall g :: g in p ==> g !in stack
    ensures e.w.direct(p[|p| - 1]).None?
    decreases |p|
  {
    var k := LastOccurrence(p, f);
    if k < |p| - 1 {
      var q := p[k + 1..];
      assert Edge(e.w, p[k], p[k + 1]);
      ChainSuffix(e.w, p, k + 1);
      var at' := ChildDenied(e, f, stack, depth, at, q[0]);
      DeniedBlocksChains(e, q[0], stack + [f], depth + 1, at', q);
    }
  }

  /** Denied without error means that no chain of rule edges, however long or cyclic the
      rules, reaches a direct tuple of the subject. */
  lemma EvaluateComplete(e: Env, f: Frame)
    requires Faithful(e) && Evaluate(e, f).Denied?
    ensures !Granted(e.w, f)
  {
    forall g | Reaches(e.w, f, g) ensures e.w.direct(g).None? {
      var p :| Chain(e.w, p) && p[0] == f && p[|p| - 1] == g;
      DeniedBlocksChains(e, f, [], 0, [], p);
    }
  }

  /** An error-free verdict is exactly membership in the least fixed point. */
  lemma VerdictIsFixedPoint(e: Env, f: Frame)
    requires Faithful(e) && !Evaluate(e, f).LimitExceeded?
    ensures Evaluate(e, f).Allowed? <==> Granted(e.w, f)
  {
    if Evaluate(e, f).Allowed? {
      EvaluateSound(e, f);
    } else {
      EvaluateComplete(e, f);
    }
  }

  // ---------------------------------------------------------------- exactness under adequate bounds

  /** `bearing` holds every frame reachable from `f` that has a rule. */
  ghost predicate BearingWithin(w: World, f: Frame, bearing: set<Frame>) {
    forall g :: Reaches(w, f, g) && RuleFor(w.rules, g).Some? ==> g in bearing
  }

  ghost predicate FanOutFits(e: Env, bearing: set<Frame>) {
    forall g, ts, cu :: g in bearing && RuleFor(e.w.rules, g).Some? && TupleToUserset(ts, cu) in RuleFor(e.w.rules, g).value
      ==> |e.w.related(g.objectType, g.objectId, ts)| <= e.maxFanOut
  }

  ghost predicate Adequate(e: Env, root: Frame, bearing: set<Frame>) {
    && Faithful(e)
    && BearingWithin(e.w, root, bearing)
    && |bearing| <= e.maxDepth
    && FanOutFits(e, bearing)
  }

  /** The path of the search: distinct rule-bearing frames, as many as its depth. */
  ghost predicate OnPath(e: Env, stack: seq<Frame>, depth: nat, bearing: set<Frame>) {
    |stack| == depth && Distinct(stack) && forall g :: g in stack ==> g in bearing
  }

  lemma PathIsShort(e: Env, stack: seq<Frame>, depth: nat, bearing: set<Frame>, f: Frame)
    requires OnPath(e, stack, depth, bearing) && f in bearing && f !in stack && |bearing| <= e.maxDepth
    ensures depth < e.maxDepth && OnPath(e, stack + [f], depth + 1, bearing)
  {
    var longer := stack + [f];
    DistinctSize(longer);
    SubsetSize(Elements(longer), bearing);
  }

  lemma {:induction false} VisitWithinBounds(e: Env, root: Frame, bearing: set<Frame>, f: Frame, stack: seq<Frame>, depth: nat, at: seq<nat>)
    requires Adequate(e, root, bearing) && Reaches(e.w, root, f) && OnPath(e, stack, depth, bearing)
    ensures !Visit(e, f, stack, depth, at).outcome.LimitExceeded?
    decreases Fuel(e, depth), 2, 0
  {
    if e.w.direct(f).None? && RuleFor(e.w.rules, f).Some? && f !in stack {
      PathIsShort(e, stack, depth, bearing, f);
      NodesWithinBounds(e, root, bearing, f, RuleFor(e.w.rules, f).value, 0, stack + [f], depth, at);
    }
  }

  lemma ExpandWithinBounds(e: Env, root: Frame, bearing: set<Frame>, f: Frame, node: RuleNode, at: seq<nat>)
    requires Adequate(e, root, bearing) && Reaches(e.w, root, f) && f in bearing
    requires RuleFor(e.w.rules, f).Some? && node in RuleFor(e.w.rules, f).value
    ensures Expand(e, f, node, at).Some?
    ensures forall c :: c in Expand(e, f, node, at).value ==> Reaches(e.w, root, c)
  {
    if node.TupleToUserset? {
      DistinctSize(e.list(at, f.objectType, f.objectId, node.tuplesetRelation));
      assert TupleToUserset(node.tuplesetRelation, node.computedUsersetRelation) == node;
    }
    ExpandIsEdges(e, f, node, at);
    forall c | c in Expand(e, f, node, at).value ensures Reaches(e.w, root, c) {
      assert NodeEdge(e.w, f, node, c);
      ReachesExtend(e.w, root, f, c);
    }
  }

  lemma {:induction false} NodesWithinBounds(e: Env, root: Frame, bearing: set<Frame>, f: Frame, rule: Rule, i: nat,
                                             stack: seq<Frame>, depth: nat, at: seq<nat>)
    requires Adequate(e, root, bearing) && Reaches(e.w, root, f) && OnPath(e, stack, depth + 1, bearing)
    requires RuleFor(e.w.rules, f) == Some(rule) && f in bearing
    requires i <= |rule| && depth < e.maxDepth
    ensures !TryNodes(e, f, rule, i, stack, depth, at).outcome.LimitExceeded?
    decreases Fuel(e, depth), 1, |rule| - i
  {
    if i < |rule| {
      ExpandWithinBounds(e, root, bearing, f, rule[i], at + [i]);
      var children := Expand(e, f, rule[i], at + [i]).value;
      FramesWithinBounds(e, root, bearing, children, 0, stack, depth, at + [i]);
      NodesWithinBounds(e, root, bearing, f, rule, i + 1, stack, depth, at);
    }
  }

  lemma {:induction false} FramesWithinBounds(e: Env, root: Frame, bearing: set<Frame>, children: seq<Frame>, j: nat,
                                              stack: seq<Frame>, depth: nat, at: seq<nat>)
    requires Adequate(e, root, bearing) && OnPath(e, stack, depth + 1, bearing)
    requires forall c :: c in children ==> Reaches(e.w, root, c)
    requires j <= |children| && depth < e.maxDepth
    ensures !TryFrames(e, children, j, stack, depth, at).outcome.LimitExceeded?
    decreases Fuel(e, depth), 0, |children| - j
  {
    if j < |children| {
      VisitWithinBounds(e, root, bearing, children[j], stack, depth + 1, at + [j]);
      FramesWithinBounds(e, root, bearing, children, j + 1, stack, depth, at);
    }
  }

  /** With as much depth as there are reachable rule-bearing frames, and enough fan-out
      for each of them, the search never errs and decides the fixed point exactly. */
  lemma EvaluateExact(e: Env, f: Frame, bearing: set<Frame>)
    requires Adequate(e, f, bearing)
    ensures !Evaluate(e, f).LimitExceeded?
    ensures Evaluate(e, f).Allowed? <==> Granted(e.w, f)
  {
    ReachesSelf(e.w, f);
    VisitWithinBounds(e, f, bearing, f, [], 0, []);
    VerdictIsFixedPoint(e, f);
  }

  /** "", "r", "rr", ... : as many distinct relation names as one likes. */
  function Name(k: nat): string {
    seq(k, i => 'r')
  }

  /** Relations 0..d of one object, each implied by the next, and no tuple at all. */
  function LadderEnv(d: nat): Env {
    var names := set k | 0 <= k <= d :: Name(k);
    var rungs := map name | name in names :: [ComputedUserset(Name(|name| + 1))];
    var w := World(map["doc" := rungs], (f: Frame) => None, (ot: string, oid: string, rel: string) => {});
    MakeEnv(w, (at: seq<nat>, ot: string, oid: string, rel: string) => [], d, 0)
  }

  lemma LadderRung(d: nat, k: nat)
    requires k <= d
    ensures RuleFor(LadderEnv(d).w.rules, Frame(Name(k), "doc", "1")) == Some([ComputedUserset(Name(k + 1))])
  {
    assert Name(k) in LadderEnv(d).w.rules["doc"];
  }

  lemma {:induction false} LadderVisit(d: nat, k: nat, stack: seq<Frame>, at: seq<nat>)
    requires 1 <= d && k <= d && |stack| == k
    requires forall i :: 0 <= i < k ==> stack[i] == Frame(Name(i), "doc", "1")
    ensures Visit(LadderEnv(d), Frame(Name(k), "doc", "1"), stack, k, at).outcome.LimitExceeded?
    decreases d - k
  {
    var e, f := LadderEnv(d), Frame(Name(k), "doc", "1");
    LadderRung(d, k);
    assert forall i :: 0 <= i < k ==> |stack[i].relation| == i;
    assert f !in stack;
    if k < d {
      var child := Frame(Name(k + 1), "doc", "1");
      LadderVisit(d, k + 1, stack + [f], at + [0] + [0]);
      assert Expand(e, f, ComputedUserset(Name(k + 1)), at + [0]) == Some([child]);
      assert TryFrames(e, [child], 0, stack + [f], k, at + [0]).outcome.LimitExceeded?;
    }
  }

  /** The depth hypothesis cannot be weakened by one: d + 1 rule-bearing frames can exceed
      a depth of d, for every positive d (zero asks for the default). */
  lemma DepthBoundIsTight(d: nat)
    requires 1 <= d
    ensures var e, root := LadderEnv(d), Frame(Name(0), "doc", "1");
            exists bearing: set<Frame> ::
              && |bearing| == e.maxDepth + 1
              && BearingWithin(e.w, root, bearing)
              && Faithful(e) && FanOutFits(e, bearing)
              && Evaluate(e, root).LimitExceeded?
  {
    var e, root := LadderEnv(d), Frame(Name(0), "doc", "1");
    LadderVisit(d, 0, [], []);
    var all := seq(d + 1, i requires 0 <= i => Frame(Name(i), "doc", "1"));
    assert forall i, j :: 0 <= i < j < |all| ==> |all[i].relation| != |all[j].relation|;
    DistinctSize(all);
    LadderBearing(d, all);
  }

  lemma LadderBearing(d: nat, all: seq<Frame>)
    requires 1 <= d && |all| == d + 1 && forall i :: 0 <= i <= d ==> all[i] == Frame(Name(i), "doc", "1")
    ensures BearingWithin(LadderEnv(d).w, Frame(Name(0), "doc", "1"), Elements(all))
  {
    var w, root := LadderEnv(d).w, Frame(Name(0), "doc", "1");
    forall g | Reaches(w, root, g) && RuleFor(w.rules, g).Some? ensures g in Elements(all) {
      var p :| Chain(w, p) && p[0] == root && p[|p| - 1] == g;
      LadderChain(d, p, |p| - 1);
      var k :| 0 <= k <= d && Name(k) == g.relation;
      assert all[k] == g;
    }
  }

  lemma {:induction false} LadderChain(d: nat, p: seq<Frame>, i: nat)
    requires Chain(LadderEnv(d).w, p) && i < |p| && p[0] == Frame(Name(0), "doc", "1")
    ensures p[i].objectType == "doc" && p[i].objectId == "1"
  {
    if i > 0 {
      LadderChain(d, p, i - 1);
      assert Edge(LadderEnv(d).w, p[i - 1], p[i]);
    }
  }

  // ---------------------------------------------------------------- what the options mean

  /** At most `n` subjects are related to any of the frames through a relation their rules follow. */
  ghost predicate RelatedWithin(w: World, frames: set<Frame>, n: int) {
    forall g, ts, cu :: g in frames && RuleFor(w.rules, g).Some? && TupleToUserset(ts, cu) in RuleFor(w.rules, g).value
      ==> |w.related(g.objectType, g.objectId, ts)| <= n
  }

  /** The enumeration lists exactly the related subjects, each once. */
  ghost predicate ListsRelated(w: World, list: Enumeration) {
    forall at, ot, oid, rel :: Distinct(list(at, ot, oid, rel)) && Elements(list(at, ot, oid, rel)) == w.related(ot, oid, rel)
  }

  /** A depth option of zero allows 8 rule-bearing frames and a fan-out option of zero 1024 subjects; any other value allows itself.
      Within that the search never errs and decides the fixed point. */
  lemma OptionsSuffice(w: World, list: Enumeration, maxDepth: int, maxFanOut: int, f: Frame, bearing: set<Frame>)
    requires ListsRelated(w, list) && BearingWithin(w, f, bearing)
    requires (maxDepth == 0 ==> |bearing| <= 8) && (maxDepth != 0 ==> |bearing| <= maxDepth)
    requires (maxFanOut == 0 ==> RelatedWithin(w, bearing, 1024)) && (maxFanOut != 0 ==> RelatedWithin(w, bearing, maxFanOut))
    ensures !Evaluate(MakeEnv(w, list, maxDepth, maxFanOut), f).LimitExceeded?
    ensures Evaluate(MakeEnv(w, list, maxDepth, maxFanOut), f).Allowed? <==> Granted(w, f)
  {
    EvaluateExact(MakeEnv(w, list, maxDepth, maxFanOut), f, bearing);
  }

  /** One subject more than the fan-out allows, at a frame without a direct tuple whose rule starts with that enumeration, is an error. */
  lemma FanOutIsTight(w: World, list: Enumeration, maxDepth: int, maxFanOut: int, f: Frame, ts: string, cu: string)
    requires ListsRelated(w, list) && w.direct(f).None?
    requires RuleFor(w.rules, f).Some? && RuleFor(w.rules, f).value != [] && RuleFor(w.rules, f).value[0] == TupleToUserset(ts, cu)
    requires maxFanOut == 0 ==> |w.related(f.objectType, f.objectId, ts)| > 1024
    requires maxFanOut != 0 ==> |w.related(f.objectType, f.objectId, ts)| > maxFanOut
    ensures Evaluate(MakeEnv(w, list, maxDepth, maxFanOut), f).LimitExceeded?
  {
    var e, rule := MakeEnv(w, list, maxDepth, maxFanOut), RuleFor(w.rules, f).value;
    DistinctSize(list([0], f.objectType, f.objectId, ts));
    assert [] + [0] == [0];
    assert Expand(e, f, rule[0], [] + [0]).None?;
    if e.maxDepth > 0 {
      assert TryNodes(e, f, rule, 0, [] + [f], 0, []).outcome.LimitExceeded?;
    }
  }

  /** With both options zero nine rungs of the ladder, without any subject to enumerate, exceed the depth. */
  lemma DefaultDepthIsEight()
    ensures exists bearing: set<Frame> ::
      |bearing| == 9 && BearingWithin(LadderEnv(8).w, Frame(Name(0), "doc", "1"), bearing) && RelatedWithin(LadderEnv(8).w, bearing, 0)
    ensures ListsRelated(LadderEnv(8).w, LadderEnv(8).list)
    ensures Evaluate(MakeEnv(LadderEnv(8).w, LadderEnv(8).list, 0, 0), Frame(Name(0), "doc", "1")).LimitExceeded?
  {
    var e, root := LadderEnv(8), Frame(Name(0), "doc", "1");
    DepthBoundIsTight(8);
    var bearing: set<Frame> :| |bearing| == e.maxDepth + 1 && BearingWithin(e.w, root, bearing) && FanOutFits(e, bearing);
    assert MakeEnv(e.w, e.list, 0, 0) == e;
    hide Visit;
    assert RelatedWithin(e.w, bearing, 0);
  }

  // ---------------------------------------------------------------- order and growth

  /** `big` has every tuple and every rule node of `small`, in any order. */
  ghost predicate Extends(small: World, big: World) {
    && (forall f :: small.direct(f).Some? ==> big.direct(f).Some?)
    && (forall ot, oid, rel :: small.related(ot, oid, rel) <= big.related(ot, oid, rel))
    && (forall f :: RuleFor(small.rules, f).Some? ==>
          && RuleFor(big.rules, f).Some?
          && forall node :: node in RuleFor(small.rules, f).value ==> node in RuleFor(big.rules, f).value)
  }

  lemma EdgeMonotone(small: World, big: World, f: Frame, c: Frame)
    requires Extends(small, big) && Edge(small, f, c)
    ensures Edge(big, f, c)
  {
    var node :| node in RuleFor(small.rules, f).value && NodeEdge(small, f, node, c);
    assert NodeEdge(big, f, node, c);
  }

  lemma GrantedMonotone(small: World, big: World, f: Frame)
    requires Extends(small, big) && Granted(small, f)
    ensures Granted(big, f)
  {
    var g :| Reaches(small, f, g) && small.direct(g).Some?;
    var p :| Chain(small, p) && p[0] == f && p[|p| - 1] == g;
    forall i | 0 <= i < |p| - 1 ensures Edge(big, p[i], p[i + 1]) {
      EdgeMonotone(small, big, p[i], p[i + 1]);
    }
    assert Chain(big, p);
    assert Reaches(big, f, g);
  }

  /** Adding tuples or rule nodes never turns an error-free Allowed into an error-free
      Denied, whatever the bounds and the enumeration orders of the two calls. */
  lemma VerdictMonotone(e1: Env, e2: Env, f: Frame)
    requires Faithful(e1) && Faithful(e2) && Extends(e1.w, e2.w)
    requires Evaluate(e1, f).Allowed?
    ensures !Evaluate(e2, f).Denied?
  {
    EvaluateSound(e1, f);
    GrantedMonotone(e1.w, e2.w, f);
    if Evaluate(e2, f).Denied? {
      EvaluateComplete(e2, f);
    }
  }

  /** Two error-free evaluations over the same tuples and the same rule nodes agree, in
      whatever order nodes and subjects are listed. */
  lemma VerdictIndependentOfOrder(e1: Env, e2: Env, f: Frame)
    requires Faithful(e1) && Faithful(e2) && Extends(e1.w, e2.w) && Extends(e2.w, e1.w)
    requires !Evaluate(e1, f).LimitExceeded? && !Evaluate(e2, f).LimitExceeded?
    ensures Evaluate(e1, f).Allowed? <==> Evaluate(e2, f).Allowed?
  {
    if Evaluate(e1, f).Allowed? {
      VerdictMonotone(e1, e2, f);
    }
    if Evaluate(e2, f).Allowed? {
      VerdictMonotone(e2, e1, f);
    }
  }

  // ---------------------------------------------------------------- work

  /** A negative fan-out bound lets no enumeration pass. */
  function NodeWidth(node: RuleNode, fanOut: int): nat {
    match node
    case This => 0
    case ComputedUserset(_) => 1
    case TupleToUserset(_, _) => if fanOut > 0 then fanOut else 0
  }

  /** The most children one rule can have. */
  function Width(rule: Rule, fanOut: int): nat {
    if rule == [] then 0
    else NodeWidth(rule[0], fanOut) + Width(rule[1..], fanOut)
  }

  ghost predicate WidthWithin(e: Env, b: nat) {
    forall f :: RuleFor(e.w.rules, f).Some? ==> Width(RuleFor(e.w.rules, f).value, e.maxFanOut) <= b
  }

  /** 1 + b + ... + b^n */
  function Geometric(b: nat, n: nat): nat {
    if n == 0 then 1 else 1 + b * Geometric(b, n - 1)
  }

  lemma MulMonotone(x: nat, y: nat, g: nat)
    requires x <= y
    ensures x * g <= y * g
  {
    assert y * g == x * g + (y - x) * g;
  }

  lemma {:induction false} FramesWork(e: Env, children: seq<Frame>, j: nat, stack: seq<Frame>, depth: nat, at: seq<nat>, b: nat, g: nat)
    requires WidthWithin(e, b) && j <= |children| && depth < e.maxDepth
    requires g == Geometric(b, Fuel(e, depth) - 1)
    ensures |TryFrames(e, children, j, stack, depth, at).lookups| <= (|children| - j) * g
    decreases Fuel(e, depth), 0, |children| - j
  {
    if j < |children| {
      VisitWork(e, children[j], stack, depth + 1, at + [j], b);
      FramesWork(e, children, j + 1, stack, depth, at, b, g);
      assert (|children| - j) * g == g + (|children| - (j + 1)) * g;
    }
  }

  lemma {:induction false} NodesWork(e: Env, f: Frame, rule: Rule, i: nat, stack: seq<Frame>, depth: nat, at: seq<nat>, b: nat, g: nat)
    requires WidthWithin(e, b) && i <= |rule| && depth < e.maxDepth
    requires g == Geometric(b, Fuel(e, depth) - 1)
    ensures |TryNodes(e, f, rule, i, stack, depth, at).lookups| <= Width(rule[i..], e.maxFanOut) * g
    decreases Fuel(e, depth), 1, |rule| - i
  {
    if i < |rule| {
      var here, rest := NodeWidth(rule[i], e.maxFanOut), Width(rule[i + 1..], e.maxFanOut);
      assert rule[i..][1..] == rule[i + 1..] && rule[i..][0] == rule[i];
      assert (here + rest) * g == here * g + rest * g;
      NodesWork(e, f, rule, i + 1, stack, depth, at, b, g);
      if Expand(e, f, rule[i], at + [i]).Some? {
        var children := Expand(e, f, rule[i], at + [i]).value;
        FramesWork(e, children, 0, stack, depth, at + [i], b, g);
        MulMonotone(|children|, here, g);
      }
    }
  }

  lemma {:induction false} VisitWork(e: Env, f: Frame, stack: seq<Frame>, depth: nat, at: seq<nat>, b: nat)
    requires WidthWithin(e, b)
    ensures |Visit(e, f, stack, depth, at).lookups| <= Geometric(b, Fuel(e, depth))
    decreases Fuel(e, depth), 2, 0
  {
    GeometricPositive(b, Fuel(e, depth));
    if e.w.direct(f).None? && RuleFor(e.w.rules, f).Some? && f !in stack && depth < e.maxDepth {
      var rule := RuleFor(e.w.rules, f).value;
      var g := Geometric(b, Fuel(e, depth) - 1);
      NodesWork(e, f, rule, 0, stack + [f], depth, at, b, g);
      assert rule[0..] == rule;
      MulMonotone(Width(rule, e.maxFanOut), b, g);
    }
  }

  lemma GeometricPositive(b: nat, n: nat)
    ensures Geometric(b, n) >= 1
  {
  }

  /** One evaluation makes at most 1 + b + ... + b^maxDepth direct lookups, where `b` bounds
      the children of any rule. */
  lemma EvaluateWork(e: Env, f: Frame, b: nat)
    requires WidthWithin(e, b)
    ensures |Visit(e, f, [], 0, []).lookups| <= Geometric(b, if e.maxDepth > 0 then e.maxDepth else 0)
  {
    VisitWork(e, f, [], 0, [], b);
  }
}
