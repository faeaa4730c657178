/**
 * The in-memory tuple store: two maps kept inverse to each other, and `Check`, which runs
 * the rewrite-rule search over them.
 */
module TupleStore {
  import opened Common
  import opened Keys
  import opened Rewrite

  datatype Tuple = Tuple(
    id: string,
    subjectType: string, subjectId: string,
    relation: string,
    objectType: string, objectId: string,
    createdAt: int, createdBy: Option<string>)
  {
    function Key(): string {
      NaturalKey(subjectType, subjectId, relation, objectType, objectId)
    }

    predicate HeldBy(st: string, sid: string) {
      subjectType == st && subjectId == sid
    }

    function OwnFrame(): Frame {
      Frame(relation, objectType, objectId)
    }
  }

  datatype CreateTupleInput = CreateTupleInput(
    subjectType: string, subjectId: string, relation: string, objectType: string, objectId: string, createdBy: Option<string>)
  {
    function Key(): string {
      NaturalKey(subjectType, subjectId, relation, objectType, objectId)
    }
  }

  datatype Error = InvalidFormat | DuplicateTuple(existingId: string) | TupleNotFound | EvaluationLimit

  datatype CheckResult = CheckResult(allowed: bool, matchedTupleId: Option<string>)

  /** The two maps. */
  datatype State = State(tuples: map<string, Tuple>, naturalKeyToId: map<string, string>)

  /** `tuples` and `naturalKeyToId` are mutually inverse. */
  ghost predicate Inverse(s: State) {
    && (forall id :: id in s.tuples ==>
          && s.tuples[id].id == id
          && s.tuples[id].Key() in s.naturalKeyToId
          && s.naturalKeyToId[s.tuples[id].Key()] == id)
    && (forall key :: key in s.naturalKeyToId ==>
          && s.naturalKeyToId[key] in s.tuples
          && s.tuples[s.naturalKeyToId[key]].Key() == key)
  }

  /** The ids of the subject's tuples. */
  function HeldIds(tuples: map<string, Tuple>, st: string, sid: string): set<string> {
    set id | id in tuples && tuples[id].HeldBy(st, sid)
  }

  function KeysOf(tuples: map<string, Tuple>, ids: set<string>): set<string> {
    set id | id in ids && id in tuples :: tuples[id].Key()
  }

  /** The store without the given tuples and their keys. */
  function Without(s: State, ids: set<string>): State {
    State(s.tuples - ids, s.naturalKeyToId - KeysOf(s.tuples, ids))
  }

  // ---------------------------------------------------------------- Check over the two maps

  /** The order in which a map range lists a set, call by call. */
  type Order = (seq<nat>, set<SubjectRef>) -> seq<SubjectRef>

  ghost predicate ListsOnce(order: Order) {
    forall at, refs :: Distinct(order(at, refs)) && Elements(order(at, refs)) == refs
  }

  function RelatedTo(tuples: map<string, Tuple>, ot: string, oid: string, rel: string): set<SubjectRef> {
    set id | id in tuples && tuples[id].objectType == ot && tuples[id].objectId == oid && tuples[id].relation == rel
      :: SubjectRef(tuples[id].subjectType, tuples[id].subjectId, tuples[id].id)
  }

  function DirectLookup(keys: map<string, string>, st: string, sid: string, f: Frame): Option<string> {
    var key := NaturalKey(st, sid, f.relation, f.objectType, f.objectId);
    if key in keys then Some(keys[key]) else None
  }

  /** The facts one `Check` sees: a nil rule map is a map without rules. */
  function WorldOf(s: State, rules: Option<Rules>, st: string, sid: string): World {
    World(if rules.Some? then rules.value else map[],
          (f: Frame) => DirectLookup(s.naturalKeyToId, st, sid, f),
          (ot: string, oid: string, rel: string) => RelatedTo(s.tuples, ot, oid, rel))
  }

  function EnvOf(s: State, rules: Option<Rules>, maxDepth: int, maxFanOut: int, order: Order, st: string, sid: string): Env {
    MakeEnv(WorldOf(s, rules, st, sid),
            (at: seq<nat>, ot: string, oid: string, rel: string) => order(at, RelatedTo(s.tuples, ot, oid, rel)),
            maxDepth, maxFanOut)
  }

  function AsResult(o: Outcome): Result<CheckResult, Error> {
    match o
    case Allowed(id) => Ok(CheckResult(true, Some(id)))
    case Denied => Ok(CheckResult(false, None))
    case LimitExceeded => Err(EvaluationLimit)
  }

  /** The tuple `id` is stored under the key of `subject` at `g`. */
  ghost predicate MatchedAt(s: State, st: string, sid: string, g: Frame, id: string) {
    id in s.tuples && s.tuples[id].Key() == NaturalKey(st, sid, g.relation, g.objectType, g.objectId)
  }

  // ---------------------------------------------------------------- when a lookup finds the subject's own tuple

  /** What format checks leave of a stored tuple. */
  ghost predicate Formatted(s: State) {
    forall id :: id in s.tuples ==>
      IsRelationName(s.tuples[id].relation) && IsTypePrefix(s.tuples[id].subjectType) && IsTypePrefix(s.tuples[id].objectType)
  }

  /** A tuple of somebody else whose key starts with the subject and still has two bars to come. */
  predicate Shadows(t: Tuple, st: string, sid: string) {
    && !t.HeldBy(st, sid)
    && SubjectPrefix(st, sid) <= t.Key()
    && TwoBars(t.Key()[|SubjectPrefix(st, sid)|..])
  }

  predicate Unshadowed(tuples: map<string, Tuple>, st: string, sid: string) {
    forall id :: id in tuples ==> !Shadows(tuples[id], st, sid)
  }

  /** Every exact-match lookup of the subject finds a tuple of that subject or none. */
  ghost predicate FindsOwnOnly(s: State, st: string, sid: string) {
    forall f, id :: DirectLookup(s.naturalKeyToId, st, sid, f) == Some(id) ==> id in s.tuples && s.tuples[id].HeldBy(st, sid)
  }

  /** For every subject: its lookups find only its own tuples if and only if no tuple shadows it. */
  lemma FindsOwnOnlyIff(s: State, st: string, sid: string)
    requires Inverse(s)
    ensures FindsOwnOnly(s, st, sid) <==> Unshadowed(s.tuples, st, sid)
  {
    if FindsOwnOnly(s, st, sid) {
      forall id | id in s.tuples ensures !Shadows(s.tuples[id], st, sid) {
        if Shadows(s.tuples[id], st, sid) {
          var f := ShadowIsFound(s, st, sid, id);
        }
      }
    }
    if Unshadowed(s.tuples, st, sid) {
      forall f, id | DirectLookup(s.naturalKeyToId, st, sid, f) == Some(id) ensures s.tuples[id].HeldBy(st, sid) {
        FoundIsOwn(s, st, sid, f, id);
      }
    }
  }

  lemma FoundIsOwn(s: State, st: string, sid: string, f: Frame, id: string)
    requires Inverse(s) && Unshadowed(s.tuples, st, sid) && MatchedAt(s, st, sid, f, id)
    ensures s.tuples[id].HeldBy(st, sid)
  {
    KeyOfSubjectIff(s.tuples[id].Key(), st, sid);
    assert !Shadows(s.tuples[id], st, sid);
  }

  lemma ShadowIsFound(s: State, st: string, sid: string, id: string) returns (f: Frame)
    requires Inverse(s) && id in s.tuples && Shadows(s.tuples[id], st, sid)
    ensures DirectLookup(s.naturalKeyToId, st, sid, f) == Some(id)
  {
    KeyOfSubjectIff(s.tuples[id].Key(), st, sid);
    var rel, ot, oid :| s.tuples[id].Key() == NaturalKey(st, sid, rel, ot, oid);
    f := Frame(rel, ot, oid);
  }

  /** A bar-free subject is shadowed exactly by tuples of its type whose subject id continues its own after a bar. */
  lemma ShadowsPlainSubject(t: Tuple, st: string, sid: string)
    requires BarFree(st) && BarFree(sid) && BarFree(t.subjectType)
    ensures Shadows(t, st, sid) <==> t.subjectType == st && sid + "|" <= t.subjectId
  {
    var tail := t.relation + "|" + (t.objectType + "|" + t.objectId);
    var p := SubjectPrefix(st, sid);
    KeyOfSubject(t.subjectType, t.subjectId, t.relation, t.objectType, t.objectId);
    KeyStartsWithSubject(st, sid, t.subjectType, t.subjectId, tail);
    if t.subjectType == st && sid + "|" <= t.subjectId {
      var x := t.subjectId[|sid| + 1..];
      assert t.subjectId == sid + "|" + x;
      assert t.Key() == NaturalKey(st, sid, x, t.relation, t.objectType + "|" + t.objectId);
      KeyOfSubjectIff(t.Key(), st, sid);
    }
  }

  /** All bar-free subjects find only their own tuples if and only if every stored subject id is bar-free. */
  lemma PlainSubjectsFindOwnIff(s: State)
    requires Inverse(s) && Formatted(s)
    ensures (forall st, sid :: BarFree(st) && BarFree(sid) ==> FindsOwnOnly(s, st, sid))
       <==> (forall id :: id in s.tuples ==> BarFree(s.tuples[id].subjectId))
  {
    if forall st, sid :: BarFree(st) && BarFree(sid) ==> FindsOwnOnly(s, st, sid) {
      forall id | id in s.tuples ensures BarFree(s.tuples[id].subjectId) {
        var t := s.tuples[id];
        if !BarFree(t.subjectId) {
          var sid := BeforeFirstBar(t.subjectId);
          FindsOwnOnlyIff(s, t.subjectType, sid);
          ShadowsPlainSubject(t, t.subjectType, sid);
        }
      }
    }
    if forall id :: id in s.tuples ==> BarFree(s.tuples[id].subjectId) {
      forall st, sid | BarFree(st) && BarFree(sid) ensures FindsOwnOnly(s, st, sid) {
        forall id | id in s.tuples ensures !Shadows(s.tuples[id], st, sid) {
          ShadowsPlainSubject(s.tuples[id], st, sid);
          if sid + "|" <= s.tuples[id].subjectId {
            ContinuedHasBar(sid, s.tuples[id].subjectId);
          }
        }
        FindsOwnOnlyIff(s, st, sid);
      }
    }
  }

  lemma ContinuedHasBar(head: string, s: string)
    requires head + "|" <= s
    ensures !BarFree(s)
  {
    assert s[|head|] == '|';
  }

  lemma {:induction false} BeforeFirstBar(s: string) returns (head: string)
    requires !BarFree(s)
    ensures BarFree(head) && head + "|" <= s
    decreases |s|
  {
    if s[0] == '|' {
      head := "";
    } else {
      var rest := BeforeFirstBar(s[1..]);
      head := [s[0]] + rest;
      assert head + "|" == [s[0]] + (rest + "|");
      assert s == [s[0]] + s[1..];
    }
  }

  // ---------------------------------------------------------------- when the match lies on the reached frame

  /** A tuple of the subject found at `g` is stored on `g` itself exactly when relation and object type
      of `g` are bar-free. */
  lemma OwnFrameIff(t: Tuple, st: string, sid: string, g: Frame)
    requires t.HeldBy(st, sid) && BarFree(t.relation) && BarFree(t.objectType)
    requires t.Key() == NaturalKey(st, sid, g.relation, g.objectType, g.objectId)
    ensures t.OwnFrame() == g <==> BarFree(g.relation) && BarFree(g.objectType)
  {
    var p := SubjectPrefix(st, sid);
    KeyOfSubject(st, sid, t.relation, t.objectType, t.objectId);
    KeyOfSubject(st, sid, g.relation, g.objectType, g.objectId);
    if BarFree(g.relation) && BarFree(g.objectType) {
      JoinInjective(t.relation, t.objectType + "|" + t.objectId, g.relation, g.objectType + "|" + g.objectId);
      JoinInjective(t.objectType, t.objectId, g.objectType, g.objectId);
    }
  }

  /** The question and every relation the rules lead to are bar-free. */
  ghost predicate PlainQuery(rules: Option<Rules>, f: Frame) {
    && BarFree(f.relation) && BarFree(f.objectType)
    && (rules.Some? ==> forall g, node :: RuleFor(rules.value, g).Some? && node in RuleFor(rules.value, g).value ==> PlainNode(node))
  }

  predicate PlainNode(node: RuleNode) {
    match node
    case This => true
    case ComputedUserset(rel) => BarFree(rel)
    case TupleToUserset(_, rel) => BarFree(rel)
  }

  /** Rules of plain relations lead only to frames with bar-free relation and object type. */
  lemma {:induction false} ReachedFrameIsPlain(s: State, rules: Option<Rules>, st: string, sid: string, p: seq<Frame>)
    requires Formatted(s) && Chain(WorldOf(s, rules, st, sid), p) && PlainQuery(rules, p[0])
    ensures BarFree(p[|p| - 1].relation) && BarFree(p[|p| - 1].objectType)
    decreases |p|
  {
    var w, n := WorldOf(s, rules, st, sid), |p| - 1;
    if n > 0 {
      assert Chain(w, p[..n]);
      ReachedFrameIsPlain(s, rules, st, sid, p[..n]);
      assert Edge(w, p[n - 1], p[n]);
      var node :| node in RuleFor(w.rules, p[n - 1]).value && NodeEdge(w, p[n - 1], node, p[n]);
      assert PlainNode(node);
    }
  }

  // ---------------------------------------------------------------- what a verdict says about stored tuples

  /** An Allowed verdict names a tuple stored under a key of the subject at a reachable frame; unless the subject
      is shadowed the tuple is its own, and for a plain query it is stored on that frame. */
  lemma AllowedNamesStoredTuple(s: State, rules: Option<Rules>, maxDepth: int, maxFanOut: int, order: Order, st: string, sid: string, f: Frame)
    returns (g: Frame)
    requires Inverse(s) && Formatted(s) && ListsOnce(order)
    requires Evaluate(EnvOf(s, rules, maxDepth, maxFanOut, order, st, sid), f).Allowed?
    ensures var id := Evaluate(EnvOf(s, rules, maxDepth, maxFanOut, order, st, sid), f).tupleId;
            && Reaches(WorldOf(s, rules, st, sid), f, g)
            && MatchedAt(s, st, sid, g, id)
            && (Unshadowed(s.tuples, st, sid) ==> s.tuples[id].HeldBy(st, sid))
            && (Unshadowed(s.tuples, st, sid) && PlainQuery(rules, f) ==> s.tuples[id].OwnFrame() == g)
  {
    var e := EnvOf(s, rules, maxDepth, maxFanOut, order, st, sid);
    EvaluateSound(e, f);
    var id := Evaluate(e, f).tupleId;
    g :| Reaches(e.w, f, g) && e.w.direct(g) == Some(id);
    hide Evaluate;
    if Unshadowed(s.tuples, st, sid) {
      FoundIsOwn(s, st, sid, g, id);
      if PlainQuery(rules, f) {
        var p :| Chain(e.w, p) && p[0] == f && p[|p| - 1] == g;
        ReachedFrameIsPlain(s, rules, st, sid, p);
        OwnFrameIff(s.tuples[id], st, sid, g);
      }
    }
  }

  /** For a plain query of a subject nobody shadows, an error-free verdict is exactly: some tuple of the subject
      is stored on a frame the rules lead to. */
  lemma CheckExact(s: State, rules: Option<Rules>, maxDepth: int, maxFanOut: int, order: Order, st: string, sid: string, f: Frame)
    requires Inverse(s) && Formatted(s) && ListsOnce(order)
    requires Unshadowed(s.tuples, st, sid) && PlainQuery(rules, f)
    requires !Evaluate(EnvOf(s, rules, maxDepth, maxFanOut, order, st, sid), f).LimitExceeded?
    ensures Evaluate(EnvOf(s, rules, maxDepth, maxFanOut, order, st, sid), f).Allowed?
       <==> exists id :: id in s.tuples && s.tuples[id].HeldBy(st, sid)
                         && Reaches(WorldOf(s, rules, st, sid), f, s.tuples[id].OwnFrame())
  {
    hide Evaluate;
    if Evaluate(EnvOf(s, rules, maxDepth, maxFanOut, order, st, sid), f).Allowed? {
      var g := AllowedNamesStoredTuple(s, rules, maxDepth, maxFanOut, order, st, sid, f);
    } else {
      forall id | id in s.tuples && s.tuples[id].HeldBy(st, sid)
        ensures !Reaches(WorldOf(s, rules, st, sid), f, s.tuples[id].OwnFrame())
      {
        DeniedRulesOutTuples(s, rules, maxDepth, maxFanOut, order, st, sid, f, id);
      }
    }
  }

  /** A subject without tuples: under any rules, bounds and enumeration order some question about it is allowed if
      and only if a tuple shadows it. */
  lemma NoTuplesNoGrantIff(s: State, rules: Option<Rules>, maxDepth: int, maxFanOut: int, order: Order, st: string, sid: string)
    requires Inverse(s) && Formatted(s) && ListsOnce(order)
    requires HeldIds(s.tuples, st, sid) == {}
    ensures (exists f :: Evaluate(EnvOf(s, rules, maxDepth, maxFanOut, order, st, sid), f).Allowed?) <==> !Unshadowed(s.tuples, st, sid)
  {
    var e := EnvOf(s, rules, maxDepth, maxFanOut, order, st, sid);
    if Unshadowed(s.tuples, st, sid) {
      forall id | id in s.tuples ensures !s.tuples[id].HeldBy(st, sid) {
        assert id !in HeldIds(s.tuples, st, sid);
      }
      forall f ensures !Evaluate(e, f).Allowed? {
        if Evaluate(e, f).Allowed? {
          var g := AllowedNamesStoredTuple(s, rules, maxDepth, maxFanOut, order, st, sid, f);
        }
      }
    } else {
      var id :| id in s.tuples && Shadows(s.tuples[id], st, sid);
      var f := ShadowIsFound(s, st, sid, id);
      assert e.w.direct(f) == Some(id);
      assert Evaluate(e, f).Allowed?;
    }
  }

  /** A denial rules out every stored tuple of the subject on every reachable frame. */
  lemma DeniedRulesOutTuples(s: State, rules: Option<Rules>, maxDepth: int, maxFanOut: int, order: Order, st: string, sid: string, f: Frame, id: string)
    requires Inverse(s) && ListsOnce(order)
    requires Evaluate(EnvOf(s, rules, maxDepth, maxFanOut, order, st, sid), f).Denied?
    requires id in s.tuples && s.tuples[id].HeldBy(st, sid)
    ensures !Reaches(WorldOf(s, rules, st, sid), f, s.tuples[id].OwnFrame())
  {
    var e := EnvOf(s, rules, maxDepth, maxFanOut, order, st, sid);
    var g := s.tuples[id].OwnFrame();
    EvaluateComplete(e, f);
    assert s.tuples[id].Key() == NaturalKey(st, sid, g.relation, g.objectType, g.objectId);
    assert e.w.direct(g).Some?;
  }

  // ---------------------------------------------------------------- runs

  datatype Op =
    | Create(input: CreateTupleInput, id: string, now: int)
    | Delete(tupleId: string)
    | Cascade(subjectType: string, subjectId: string)

  function FormatOk(input: CreateTupleInput): bool {
    IsRelationName(input.relation) && IsTypePrefix(input.subjectType) && IsTypePrefix(input.objectType)
  }

  function NewTuple(input: CreateTupleInput, id: string, now: int): Tuple {
    Tuple(id, input.subjectType, input.subjectId, input.relation, input.objectType, input.objectId, now, input.createdBy)
  }

  function Apply(s: State, op: Op): State {
    match op
    case Create(input, id, now) =>
      if FormatOk(input) && input.Key() !in s.naturalKeyToId
      then State(s.tuples[id := NewTuple(input, id, now)], s.naturalKeyToId[input.Key() := id])
      else s
    case Delete(id) => if id in s.tuples then Without(s, {id}) else s
    case Cascade(st, sid) => Without(s, HeldIds(s.tuples, st, sid))
  }

  /** Generated ids are fresh. */
  predicate Fresh(s: State, op: Op) {
    op.Create? ==> op.id !in s.tuples
  }

  function Run(s: State, ops: seq<Op>): State
    decreases |ops|
  {
    if ops == [] then s else Run(Apply(s, ops[0]), ops[1..])
  }

  predicate FreshRun(s: State, ops: seq<Op>)
    decreases |ops|
  {
    ops == [] || (Fresh(s, ops[0]) && FreshRun(Apply(s, ops[0]), ops[1..]))
  }

  lemma WithoutKeepsInverse(s: State, ids: set<string>)
    requires Inverse(s)
    ensures Inverse(Without(s, ids))
  {
    var s' := Without(s, ids);
    forall key | key in s'.naturalKeyToId ensures s'.naturalKeyToId[key] !in ids {
      assert s.tuples[s.naturalKeyToId[key]].Key() == key;
    }
  }

  lemma WithoutOneMore(s: State, ids: set<string>, id: string)
    requires id in s.tuples
    ensures Without(s, ids + {id})
         == State(Without(s, ids).tuples - {id}, Without(s, ids).naturalKeyToId - {s.tuples[id].Key()})
  {
    assert KeysOf(s.tuples, ids + {id}) == KeysOf(s.tuples, ids) + {s.tuples[id].Key()};
    assert s.tuples - (ids + {id}) == s.tuples - ids - {id};
  }

  lemma WithoutNothing(s: State)
    ensures Without(s, {}) == s
  {
    assert KeysOf(s.tuples, {}) == {};
  }

  lemma ApplyKeepsInverse(s: State, op: Op)
    requires Inverse(s) && Fresh(s, op)
    ensures Inverse(Apply(s, op))
  {
    match op
    case Create(input, id, now) =>
      if FormatOk(input) && input.Key() !in s.naturalKeyToId {
        assert NewTuple(input, id, now).Key() == input.Key();
        var s' := Apply(s, op);
        forall id2 | id2 in s'.tuples
          ensures s'.tuples[id2].Key() in s'.naturalKeyToId && s'.naturalKeyToId[s'.tuples[id2].Key()] == id2
        {
        }
      }
    case Delete(id) => WithoutKeepsInverse(s, {id});
    case Cascade(st, sid) => WithoutKeepsInverse(s, HeldIds(s.tuples, st, sid));
  }

  lemma ApplyKeepsFormatted(s: State, op: Op)
    requires Formatted(s)
    ensures Formatted(Apply(s, op))
  {
  }

  lemma CascadeDone(s: State, removed: set<string>, held: set<string>, st: string, sid: string)
    requires Inverse(s) && held == HeldIds(s.tuples, st, sid) && removed == held - {}
    ensures removed == held && Without(s, removed) == Apply(s, Cascade(st, sid)) && Inverse(Without(s, removed))
    ensures Formatted(s) ==> Formatted(Without(s, removed))
    ensures forall id :: id in Without(s, removed).tuples <==> id in s.tuples && !(s.tuples[id].subjectType == st && s.tuples[id].subjectId == sid)
    ensures forall id :: id in Without(s, removed).tuples ==> Without(s, removed).tuples[id] == s.tuples[id]
    ensures var s' := Without(s, removed);
      forall key :: key in s'.naturalKeyToId <==> exists id :: id in s'.tuples && s'.tuples[id].Key() == key
    ensures HeldIds(Without(s, removed).tuples, st, sid) == {}
  {
    assert removed == held;
    ApplyKeepsInverse(s, Cascade(st, sid));
  }

  lemma {:induction false} RunKeepsInverse(s: State, ops: seq<Op>)
    requires Inverse(s) && FreshRun(s, ops)
    ensures Inverse(Run(s, ops))
    ensures Formatted(s) ==> Formatted(Run(s, ops))
    decreases |ops|
  {
    hide Inverse, Formatted, Apply;
    if ops == [] {
    } else {
      ApplyKeepsInverse(s, ops[0]);
      if Formatted(s) {
        ApplyKeepsFormatted(s, ops[0]);
      }
      RunKeepsInverse(Apply(s, ops[0]), ops[1..]);
    }
  }

  /** The operation creates a tuple for the subject. */
  predicate Grants(op: Op, st: string, sid: string) {
    op.Create? && op.input.subjectType == st && op.input.subjectId == sid
  }

  lemma {:induction false} NoTuplesUntilGrant(s: State, ops: seq<Op>, st: string, sid: string)
    requires HeldIds(s.tuples, st, sid) == {}
    requires forall op :: op in ops ==> !Grants(op, st, sid)
    ensures HeldIds(Run(s, ops).tuples, st, sid) == {}
    decreases |ops|
  {
    if ops == [] {
    } else {
      var s' := Apply(s, ops[0]);
      assert ops[0] in ops;
      forall id | id in s'.tuples ensures !s'.tuples[id].HeldBy(st, sid) {
        if id in s.tuples && s'.tuples[id] == s.tuples[id] {
          assert id !in HeldIds(s.tuples, st, sid);
        }
      }
      NoTuplesUntilGrant(s', ops[1..], st, sid);
    }
  }

  /** From a cascade until a tuple is next created for the subject, under any rules, bounds and order no check
      allows it: exactly as long as no tuple of somebody else shadows it. */
  lemma CascadeLastsUntilNextGrant(s: State, st: string, sid: string, ops: seq<Op>,
                                   rules: Option<Rules>, maxDepth: int, maxFanOut: int, order: Order)
    requires Inverse(s) && Formatted(s) && ListsOnce(order)
    requires FreshRun(Apply(s, Cascade(st, sid)), ops)
    requires forall op :: op in ops ==> !Grants(op, st, sid)
    ensures var s' := Run(Apply(s, Cascade(st, sid)), ops);
      (exists f :: Evaluate(EnvOf(s', rules, maxDepth, maxFanOut, order, st, sid), f).Allowed?) <==> !Unshadowed(s'.tuples, st, sid)
  {
    var s' := Apply(s, Cascade(st, sid));
    assert HeldIds(s'.tuples, st, sid) == {};
    ApplyKeepsInverse(s, Cascade(st, sid));
    ApplyKeepsFormatted(s, Cascade(st, sid));
    hide Evaluate, Inverse, Formatted, Apply, HeldIds, Unshadowed;
    RunKeepsInverse(s', ops);
    NoTuplesUntilGrant(s', ops, st, sid);
    NoTuplesNoGrantIff(Run(s', ops), rules, maxDepth, maxFanOut, order, st, sid);
  }

  // ---------------------------------------------------------------- runs in which joined keys mislead

  const EMPTY := State(map[], map[])

  /** One well-formed tuple of a user whose id contains bars, and a user without tuples is allowed. */
  lemma BarInSubjectIdGrants(rules: Option<Rules>, maxDepth: int, maxFanOut: int, order: Order)
    ensures var op := Create(CreateTupleInput("usr", "a|viewer|doc|b", "viewer", "doc", "c", None), "t1", 0);
      && FreshRun(EMPTY, [op])
      && HeldIds(Run(EMPTY, [op]).tuples, "usr", "a") == {}
      && Evaluate(EnvOf(Run(EMPTY, [op]), rules, maxDepth, maxFanOut, order, "usr", "a"), Frame("viewer", "doc", "b|viewer|doc|c"))
         == Allowed("t1")
  {
    var input := CreateTupleInput("usr", "a|viewer|doc|b", "viewer", "doc", "c", None);
    assert IsTypePrefix("usr") && IsTypePrefix("doc") && IsRelationName("viewer");
    OneTuple(input, "t1");
    hide Apply, Run;
    BarInSubjectIdCollides();
    hide NaturalKey;
  }

  /** The subject's own tuple answers for an object of another type when the queried type contains a bar. */
  lemma BarInQueriedTypeMisleads(rules: Option<Rules>, maxDepth: int, maxFanOut: int, order: Order)
    ensures var op, f := Create(CreateTupleInput("usr", "a", "viewer", "doc", "b|c", None), "t1", 0), Frame("viewer", "doc|b", "c");
      && FreshRun(EMPTY, [op])
      && Evaluate(EnvOf(Run(EMPTY, [op]), rules, maxDepth, maxFanOut, order, "usr", "a"), f) == Allowed("t1")
      && Run(EMPTY, [op]).tuples["t1"].OwnFrame() != f
  {
    var input := CreateTupleInput("usr", "a", "viewer", "doc", "b|c", None);
    assert IsTypePrefix("usr") && IsTypePrefix("doc") && IsRelationName("viewer");
    OneTuple(input, "t1");
    hide Apply, Run;
    BarInQueriedTypeCollides();
    hide NaturalKey;
  }

  lemma OneTuple(input: CreateTupleInput, id: string)
    requires FormatOk(input)
    ensures FreshRun(EMPTY, [Create(input, id, 0)])
    ensures Run(EMPTY, [Create(input, id, 0)]) == State(map[id := NewTuple(input, id, 0)], map[input.Key() := id])
  {
    assert Run(EMPTY, [Create(input, id, 0)]) == Run(Apply(EMPTY, Create(input, id, 0)), []);
  }

  // ---------------------------------------------------------------- checks across calls and stores

  lemma EnvFaithful(s: State, rules: Option<Rules>, maxDepth: int, maxFanOut: int, order: Order, st: string, sid: string)
    requires ListsOnce(order)
    ensures Faithful(EnvOf(s, rules, maxDepth, maxFanOut, order, st, sid))
  {
  }

  /** Whatever order the map yields tuples in, two checks without a limit error agree. */
  lemma CheckIsDeterministic(s: State, rules: Option<Rules>, maxDepth: int, maxFanOut: int, order1: Order, order2: Order,
                             st: string, sid: string, f: Frame)
    requires ListsOnce(order1) && ListsOnce(order2)
    ensures var v1, v2 := Evaluate(EnvOf(s, rules, maxDepth, maxFanOut, order1, st, sid), f),
                          Evaluate(EnvOf(s, rules, maxDepth, maxFanOut, order2, st, sid), f);
      v1.LimitExceeded? || v2.LimitExceeded? || (v1.Allowed? <==> v2.Allowed?)
  {
    var e1, e2 := EnvOf(s, rules, maxDepth, maxFanOut, order1, st, sid), EnvOf(s, rules, maxDepth, maxFanOut, order2, st, sid);
    EnvFaithful(s, rules, maxDepth, maxFanOut, order1, st, sid);
    EnvFaithful(s, rules, maxDepth, maxFanOut, order2, st, sid);
    if Evaluate(e1, f).LimitExceeded? || Evaluate(e2, f).LimitExceeded? {
    } else {
      VerdictIndependentOfOrder(e1, e2, f);
    }
  }

  lemma CreateExtends(s: State, op: Op, rules: Option<Rules>, st: string, sid: string)
    requires Fresh(s, op) && op.Create?
    ensures Extends(WorldOf(s, rules, st, sid), WorldOf(Apply(s, op), rules, st, sid))
  {
    var small, big := WorldOf(s, rules, st, sid), WorldOf(Apply(s, op), rules, st, sid);
    forall ot, oid, rel ensures small.related(ot, oid, rel) <= big.related(ot, oid, rel) {
      forall ref | ref in RelatedTo(s.tuples, ot, oid, rel) ensures ref in RelatedTo(Apply(s, op).tuples, ot, oid, rel) {
        var id :| id in s.tuples && s.tuples[id].objectType == ot && s.tuples[id].objectId == oid && s.tuples[id].relation == rel
          && ref == SubjectRef(s.tuples[id].subjectType, s.tuples[id].subjectId, s.tuples[id].id);
        assert Apply(s, op).tuples[id] == s.tuples[id];
      }
    }
  }

  /** Creating a tuple never turns an allowed check into a denied one, for any subject. */
  lemma CreateNeverDenies(s: State, op: Op, rules: Option<Rules>, maxDepth: int, maxFanOut: int, order: Order, st: string, sid: string, f: Frame)
    requires Fresh(s, op) && op.Create? && ListsOnce(order)
    requires Evaluate(EnvOf(s, rules, maxDepth, maxFanOut, order, st, sid), f).Allowed?
    ensures !Evaluate(EnvOf(Apply(s, op), rules, maxDepth, maxFanOut, order, st, sid), f).Denied?
  {
    EnvFaithful(s, rules, maxDepth, maxFanOut, order, st, sid);
    EnvFaithful(Apply(s, op), rules, maxDepth, maxFanOut, order, st, sid);
    CreateExtends(s, op, rules, st, sid);
    hide Evaluate, Apply;
    VerdictMonotone(EnvOf(s, rules, maxDepth, maxFanOut, order, st, sid), EnvOf(Apply(s, op), rules, maxDepth, maxFanOut, order, st, sid), f);
  }

  // ---------------------------------------------------------------- what the options of the store mean

  /** The rule of the frame begins with an enumeration of subjects. */
  predicate StartsWithEnumeration(rules: Rules, f: Frame) {
    RuleFor(rules, f).Some? && RuleFor(rules, f).value != [] && RuleFor(rules, f).value[0].TupleToUserset?
  }

  /** An option of zero means 8 frames and 1024 subjects: within that a check never errs, and one subject more than allowed
      at the queried frame is an error. */
  lemma CheckBounds(s: State, rules: Option<Rules>, maxDepth: int, maxFanOut: int, order: Order, st: string, sid: string, f: Frame)
    requires ListsOnce(order)
    ensures (exists bearing: set<Frame> ::
               && BearingWithin(WorldOf(s, rules, st, sid), f, bearing)
               && |bearing| <= (if maxDepth == 0 then 8 else maxDepth)
               && RelatedWithin(WorldOf(s, rules, st, sid), bearing, if maxFanOut == 0 then 1024 else maxFanOut)) ==>
              !Evaluate(EnvOf(s, rules, maxDepth, maxFanOut, order, st, sid), f).LimitExceeded?
    ensures (rules.Some?
             && NaturalKey(st, sid, f.relation, f.objectType, f.objectId) !in s.naturalKeyToId
             && StartsWithEnumeration(rules.value, f)
             && |RelatedTo(s.tuples, f.objectType, f.objectId, RuleFor(rules.value, f).value[0].tuplesetRelation)|
                > (if maxFanOut == 0 then 1024 else maxFanOut)) ==>
              Evaluate(EnvOf(s, rules, maxDepth, maxFanOut, order, st, sid), f).LimitExceeded?
  {
    var w := WorldOf(s, rules, st, sid);
    var list := (at: seq<nat>, ot: string, oid: string, rel: string) => order(at, RelatedTo(s.tuples, ot, oid, rel));
    assert ListsRelated(w, list);
    assert EnvOf(s, rules, maxDepth, maxFanOut, order, st, sid) == MakeEnv(w, list, maxDepth, maxFanOut);
    hide Evaluate, MakeEnv, BearingWithin, RelatedWithin;
    var depth, fanOut := if maxDepth == 0 then 8 else maxDepth, if maxFanOut == 0 then 1024 else maxFanOut;
    if bearing: set<Frame> :| BearingWithin(w, f, bearing) && |bearing| <= depth && RelatedWithin(w, bearing, fanOut) {
      OptionsSuffice(w, list, maxDepth, maxFanOut, f, bearing);
    }
    if rules.Some? && StartsWithEnumeration(rules.value, f)
       && NaturalKey(st, sid, f.relation, f.objectType, f.objectId) !in s.naturalKeyToId
       && |RelatedTo(s.tuples, f.objectType, f.objectId, RuleFor(rules.value, f).value[0].tuplesetRelation)|
          > (if maxFanOut == 0 then 1024 else maxFanOut) {
      var node := RuleFor(rules.value, f).value[0];
      FanOutIsTight(w, list, maxDepth, maxFanOut, f, node.tuplesetRelation, node.computedUsersetRelation);
    }
  }

  // ---------------------------------------------------------------- the store

  class InMemoryTupleStore {
    var tuples: map<string, Tuple>
    var naturalKeyToId: map<string, string>
    const rules: Option<Rules>
    const maxDepth: int
    const maxFanOut: int

    ghost function Value(): State
      reads this
    {
      State(tuples, naturalKeyToId)
    }

    ghost predicate Valid()
      reads this
    {
      Inverse(Value()) && Formatted(Value())
    }

    constructor (rules: Option<Rules>, maxDepth: int, maxFanOut: int)
      ensures Valid() && tuples == map[] && naturalKeyToId == map[]
      ensures this.rules == rules && this.maxDepth == maxDepth && this.maxFanOut == maxFanOut
    {
      tuples, naturalKeyToId := map[], map[];
      this.rules, this.maxDepth, this.maxFanOut := rules, maxDepth, maxFanOut;
    }

    method CreateTuple(input: CreateTupleInput, id: string, now: int) returns (r: Result<Tuple, Error>)
      requires Valid() && id !in tuples
      modifies this
      ensures Valid() && Value() == Apply(old(Value()), Create(input, id, now))
      ensures r == Err(InvalidFormat)
         <==> !(IsRelationName(input.relation) && IsTypePrefix(input.subjectType) && IsTypePrefix(input.objectType))
      ensures r.Err? ==> Value() == old(Value())
      ensures r.Err? && r.error != InvalidFormat ==>
        && r.error.DuplicateTuple? && r.error.existingId in tuples && tuples[r.error.existingId].Key() == input.Key()
      ensures r.Ok? ==>
        && r.value == Tuple(id, input.subjectType, input.subjectId, input.relation, input.objectType, input.objectId, now, input.createdBy)
        && input.Key() !in old(naturalKeyToId)
        && tuples == old(tuples)[id := r.value] && naturalKeyToId == old(naturalKeyToId)[input.Key() := id]
    {
      ApplyKeepsInverse(Value(), Create(input, id, now));
      ApplyKeepsFormatted(Value(), Create(input, id, now));
      if !IsRelationName(input.relation) {
        return Err(InvalidFormat);
      }
      if !IsTypePrefix(input.subjectType) {
        return Err(InvalidFormat);
      }
      if !IsTypePrefix(input.objectType) {
        return Err(InvalidFormat);
      }
      var key := NaturalKey(input.subjectType, input.subjectId, input.relation, input.objectType, input.objectId);
      if key in naturalKeyToId {
        return Err(DuplicateTuple(naturalKeyToId[key]));
      }
      var t := Tuple(id, input.subjectType, input.subjectId, input.relation, input.objectType, input.objectId, now, input.createdBy);
      tuples := tuples[id := t];
      naturalKeyToId := naturalKeyToId[key := id];
      return Ok(t);
    }

    method DeleteTuple(tupleId: string) returns (r: Result<(), Error>)
      requires Valid()
      modifies this
      ensures Valid() && Value() == Apply(old(Value()), Delete(tupleId))
      ensures r == if tupleId in old(tuples) then Ok(()) else Err(TupleNotFound)
      ensures tupleId !in tuples && SameBut(old(tuples), tuples, {tupleId})
      ensures tupleId in old(tuples) ==>
        old(tuples)[tupleId].Key() !in naturalKeyToId && SameBut(old(naturalKeyToId), naturalKeyToId, {old(tuples)[tupleId].Key()})
      ensures tupleId !in old(tuples) ==> Value() == old(Value())
    {
      ApplyKeepsInverse(Value(), Delete(tupleId));
      ApplyKeepsFormatted(Value(), Delete(tupleId));
      if tupleId !in tuples {
        return Err(TupleNotFound);
      }
      var t := tuples[tupleId];
      ghost var before := Value();
      tuples := tuples - {tupleId};
      naturalKeyToId := naturalKeyToId - {t.Key()};
      assert KeysOf(before.tuples, {tupleId}) == {t.Key()};
      return Ok(());
    }

    /** Removes every tuple of the subject and returns exactly how many there were. */
    method CascadeRevokeSubject(st: string, sid: string) returns (n: nat)
      requires Valid()
      modifies this
      ensures Valid() && Value() == Apply(old(Value()), Cascade(st, sid))
      ensures n == |HeldIds(old(tuples), st, sid)|
      ensures forall id :: id in tuples <==> id in old(tuples) && !(old(tuples)[id].subjectType == st && old(tuples)[id].subjectId == sid)
      ensures forall id :: id in tuples ==> tuples[id] == old(tuples)[id]
      ensures forall key :: key in naturalKeyToId <==> exists id :: id in tuples && tuples[id].Key() == key
    {
      hide Without, Inverse, Formatted, Apply;
      ghost var before, removed := Value(), {};
      ghost var held := HeldIds(tuples, st, sid);
      WithoutNothing(before);
      n := 0;
      var pending := tuples.Keys;
      while pending != {}
        invariant pending <= before.tuples.Keys && removed !! pending
        invariant Value() == Without(before, removed)
        invariant forall id :: id in pending ==> id in tuples && tuples[id] == before.tuples[id]
        invariant removed == held - pending
        invariant n == |removed|
        decreases pending
      {
        var id :| id in pending;
        VisitOne(held, pending, removed, id);
        pending := pending - {id};
        var t := tuples[id];
        assert (t.subjectType == st && t.subjectId == sid) == (id in held);
        WithoutOneMore(before, removed, id);
        if t.subjectType == st && t.subjectId == sid {
          tuples, naturalKeyToId := tuples - {id}, naturalKeyToId - {t.Key()};
          removed := removed + {id};
          n := n + 1;
        }
      }
      CascadeDone(before, removed, held, st, sid);
    }

    /** The two paths of Check: exact match without rules, the search with them. */
    method Check(st: string, sid: string, f: Frame, order: Order) returns (r: Result<CheckResult, Error>)
      requires Valid() && ListsOnce(order)
      ensures r == AsResult(Evaluate(EnvOf(Value(), rules, maxDepth, maxFanOut, order, st, sid), f))
      ensures r.Ok? && r.value.allowed ==>
        && r.value.matchedTupleId.Some? && r.value.matchedTupleId.value in tuples
        && (Unshadowed(tuples, st, sid) ==> tuples[r.value.matchedTupleId.value].HeldBy(st, sid))
        && (Unshadowed(tuples, st, sid) && PlainQuery(rules, f) ==>
              Reaches(WorldOf(Value(), rules, st, sid), f, tuples[r.value.matchedTupleId.value].OwnFrame()))
        && exists g :: Reaches(WorldOf(Value(), rules, st, sid), f, g) && MatchedAt(Value(), st, sid, g, r.value.matchedTupleId.value)
      ensures (exists bearing: set<Frame> ::
                 && BearingWithin(WorldOf(Value(), rules, st, sid), f, bearing)
                 && |bearing| <= (if maxDepth == 0 then 8 else maxDepth)
                 && RelatedWithin(WorldOf(Value(), rules, st, sid), bearing, if maxFanOut == 0 then 1024 else maxFanOut)) ==> r.Ok?
      ensures (rules.Some?
               && NaturalKey(st, sid, f.relation, f.objectType, f.objectId) !in naturalKeyToId
               && StartsWithEnumeration(rules.value, f)
               && |RelatedTo(tuples, f.objectType, f.objectId, RuleFor(rules.value, f).value[0].tuplesetRelation)|
                  > (if maxFanOut == 0 then 1024 else maxFanOut)) ==> r == Err(EvaluationLimit)
      ensures r.Ok? && !r.value.allowed ==>
        forall id :: id in tuples && tuples[id].HeldBy(st, sid) ==>
          !Reaches(WorldOf(Value(), rules, st, sid), f, tuples[id].OwnFrame())
    {
      ghost var e := EnvOf(Value(), rules, maxDepth, maxFanOut, order, st, sid);
      CheckBounds(Value(), rules, maxDepth, maxFanOut, order, st, sid, f);
      hide RelatedWithin, BearingWithin, MakeEnv, RuleFor;
      if Evaluate(e, f).Allowed? {
        ghost var g := AllowedNamesStoredTuple(Value(), rules, maxDepth, maxFanOut, order, st, sid, f);
      } else if Evaluate(e, f).Denied? {
        forall id | id in tuples && tuples[id].HeldBy(st, sid)
          ensures !Reaches(WorldOf(Value(), rules, st, sid), f, tuples[id].OwnFrame())
        {
          DeniedRulesOutTuples(Value(), rules, maxDepth, maxFanOut, order, st, sid, f, id);
        }
      }
      if rules.None? {
        var key := NaturalKey(st, sid, f.relation, f.objectType, f.objectId);
        if key in naturalKeyToId {
          return Ok(CheckResult(true, Some(naturalKeyToId[key])));
        }
        return Ok(CheckResult(false, None));
      }
      var keys, stored := naturalKeyToId, tuples;
      var world := World(rules.value,
                         (g: Frame) => DirectLookup(keys, st, sid, g),
                         (ot: string, oid: string, rel: string) => RelatedTo(stored, ot, oid, rel));
      var list := (at: seq<nat>, ot: string, oid: string, rel: string) => order(at, RelatedTo(stored, ot, oid, rel));
      r := AsResult(Evaluate(MakeEnv(world, list, maxDepth, maxFanOut), f));
    }
  }
}
