/**
 * Share tokens: create, verify, revoke.  A token is known to the store only by its hash, so
 * the operations take the hash of the presented token; clock readings are arguments.
 */
module Shares {
  import opened Common
  import opened Keys

  /** Times are nanoseconds. */
  const SECOND := 1_000_000_000
  const SHARE_MAX_TTL_SECONDS := 365 * 24 * 60 * 60

  datatype Share = Share(
    id: string, objectType: string, objectId: string, relation: string, createdBy: string,
    expiresAt: int, singleUse: bool, consumedAt: Option<int>, revokedAt: Option<int>, createdAt: int)

  datatype CreateShareInput = CreateShareInput(
    objectType: string, objectId: string, relation: string, createdBy: string, expiresInSeconds: int, singleUse: bool)

  datatype VerifiedShare = VerifiedShare(shareId: string, objectType: string, objectId: string, relation: string)

  datatype Error = InvalidFormat | InvalidShareToken | ShareRevoked | ShareConsumed | ShareExpired | ShareNotFound

  datatype State = State(shares: map<string, Share>, tokenHashes: map<string, string>, idByTokenHash: map<string, string>)

  /** One call, with the clock readings it takes. */
  datatype Op =
    | Create(input: CreateShareInput, id: string, hash: string, now: int)
    | Verify(hash: string, now: int, stampedAt: int)
    | Revoke(id: string, now: int)

  // ---------------------------------------------------------------- what each call does

  predicate InputOk(input: CreateShareInput) {
    IsRelationName(input.relation) && 0 < input.expiresInSeconds <= SHARE_MAX_TTL_SECONDS
  }

  function NewShare(input: CreateShareInput, id: string, now: int): Share {
    Share(id, input.objectType, input.objectId, input.relation, input.createdBy,
          now + input.expiresInSeconds * SECOND, input.singleUse, None, None, now)
  }

  function VerifyResult(s: State, hash: string, now: int): Result<VerifiedShare, Error> {
    if hash !in s.idByTokenHash then Err(InvalidShareToken)
    else
      var id := s.idByTokenHash[hash];
      if id !in s.tokenHashes || s.tokenHashes[id] != hash || id !in s.shares then Err(InvalidShareToken)
      else
        var sh := s.shares[id];
        if sh.revokedAt.Some? then Err(ShareRevoked)
        else if sh.singleUse && sh.consumedAt.Some? then Err(ShareConsumed)
        else if now >= sh.expiresAt then Err(ShareExpired)
        else Ok(VerifiedShare(sh.id, sh.objectType, sh.objectId, sh.relation))
  }

  function Apply(s: State, op: Op): State {
    match op
    case Create(input, id, hash, now) =>
      if InputOk(input)
      then State(s.shares[id := NewShare(input, id, now)], s.tokenHashes[id := hash], s.idByTokenHash[hash := id])
      else s
    case Verify(hash, now, stampedAt) =>
      if VerifyResult(s, hash, now).Ok? && s.shares[s.idByTokenHash[hash]].singleUse
      then s.(shares := s.shares[s.idByTokenHash[hash] := s.shares[s.idByTokenHash[hash]].(consumedAt := Some(stampedAt))])
      else s
    case Revoke(id, now) =>
      if id in s.shares && s.shares[id].revokedAt.None?
      then s.(shares := s.shares[id := s.shares[id].(revokedAt := Some(now))])
      else s
  }

  // ---------------------------------------------------------------- invariant

  ghost predicate Inv(s: State) {
    && s.shares.Keys == s.tokenHashes.Keys
    && (forall id :: id in s.tokenHashes ==> s.tokenHashes[id] in s.idByTokenHash && s.idByTokenHash[s.tokenHashes[id]] == id)
    && (forall hash :: hash in s.idByTokenHash ==> s.idByTokenHash[hash] in s.tokenHashes && s.tokenHashes[s.idByTokenHash[hash]] == hash)
    && (forall id :: id in s.shares ==> ShareInv(s.shares[id], id))
  }

  /** A lifetime within (0, 365 days]; only a single-use share is ever consumed. */
  ghost predicate ShareInv(sh: Share, id: string) {
    && sh.id == id
    && sh.createdAt < sh.expiresAt <= sh.createdAt + SHARE_MAX_TTL_SECONDS * SECOND
    && (sh.consumedAt.Some? ==> sh.singleUse)
  }

  /** Generated ids and token hashes are fresh. */
  predicate Fresh(s: State, op: Op) {
    op.Create? ==> op.id !in s.shares && op.hash !in s.idByTokenHash
  }

  lemma ApplyKeepsInv(s: State, op: Op)
    requires Inv(s) && Fresh(s, op)
    ensures Inv(Apply(s, op))
  {
  }

  // ---------------------------------------------------------------- runs

  function Time(op: Op): int { op.now }

  /** Fresh ids and hashes, and a clock that never goes back. */
  predicate GoodRun(s: State, ops: seq<Op>, since: int)
    decreases |ops|
  {
    ops == [] ||
    (Fresh(s, ops[0]) && since <= Time(ops[0]) && GoodRun(Apply(s, ops[0]), ops[1..], Time(ops[0])))
  }

  function Run(s: State, ops: seq<Op>): State
    decreases |ops|
  {
    if ops == [] then s else Run(Apply(s, ops[0]), ops[1..])
  }

  /** How many calls of the run verify the token successfully. */
  function Successes(s: State, ops: seq<Op>, hash: string): nat
    decreases |ops|
  {
    if ops == [] then 0
    else (if ops[0].Verify? && ops[0].hash == hash && VerifyResult(s, hash, ops[0].now).Ok? then 1 else 0)
         + Successes(Apply(s, ops[0]), ops[1..], hash)
  }

  predicate Issued(s: State, hash: string) {
    hash in s.idByTokenHash && s.idByTokenHash[hash] in s.shares
  }

  function ShareFor(s: State, hash: string): Share
    requires Issued(s, hash)
  {
    s.shares[s.idByTokenHash[hash]]
  }

  /** What the three terminal failures have in common, at a given time. */
  ghost predicate Dead(s: State, hash: string, now: int) {
    && Issued(s, hash)
    && var sh := ShareFor(s, hash);
       sh.revokedAt.Some? || (sh.singleUse && sh.consumedAt.Some?) || now >= sh.expiresAt
  }

  lemma DeadIsTerminalFailure(s: State, hash: string, now: int)
    requires Inv(s)
    ensures Dead(s, hash, now) <==> VerifyResult(s, hash, now) in {Err(ShareRevoked), Err(ShareConsumed), Err(ShareExpired)}
  {
  }

  lemma DeadStaysDead(s: State, op: Op, hash: string, now: int)
    requires Inv(s) && Fresh(s, op) && Dead(s, hash, now)
    ensures Dead(Apply(s, op), hash, now)
  {
  }

  /** Once a token is dead no later verification in any run succeeds. */
  lemma {:induction false} DeadNeverVerifies(s: State, ops: seq<Op>, hash: string, now: int)
    requires Inv(s) && Dead(s, hash, now) && GoodRun(s, ops, now)
    ensures Successes(s, ops, hash) == 0
    decreases |ops|
  {
    if ops == [] {
    } else {
      ApplyKeepsInv(s, ops[0]);
      DeadStaysDead(s, ops[0], hash, now);
      DeadIsTerminalFailure(s, hash, Time(ops[0]));
      DeadNeverVerifies(Apply(s, ops[0]), ops[1..], hash, Time(ops[0]));
    }
  }

  /** A token that has failed as revoked, consumed or expired fails ever after. */
  lemma FailedTokensNeverComeBack(s: State, hash: string, now: int, ops: seq<Op>)
    requires Inv(s) && GoodRun(s, ops, now)
    requires VerifyResult(s, hash, now) in {Err(ShareRevoked), Err(ShareConsumed), Err(ShareExpired)}
    ensures Successes(s, ops, hash) == 0
  {
    DeadIsTerminalFailure(s, hash, now);
    DeadNeverVerifies(s, ops, hash, now);
  }

  /** A single-use token verifies at most once over any run. */
  lemma {:induction false} SingleUseVerifiesOnce(s: State, ops: seq<Op>, hash: string, since: int)
    requires Inv(s) && GoodRun(s, ops, since)
    requires Issued(s, hash) && ShareFor(s, hash).singleUse
    ensures Successes(s, ops, hash) <= 1
    decreases |ops|
  {
    if ops == [] {
    } else {
      var s' := Apply(s, ops[0]);
      ApplyKeepsInv(s, ops[0]);
      if ops[0].Verify? && ops[0].hash == hash && VerifyResult(s, hash, ops[0].now).Ok? {
        DeadNeverVerifies(s', ops[1..], hash, Time(ops[0]));
      } else {
        SingleUseVerifiesOnce(s', ops[1..], hash, Time(ops[0]));
      }
    }
  }

  lemma {:induction false} RunKeepsInv(s: State, ops: seq<Op>, since: int)
    requires Inv(s) && GoodRun(s, ops, since)
    ensures Inv(Run(s, ops))
    decreases |ops|
  {
    if ops == [] {
    } else {
      ApplyKeepsInv(s, ops[0]);
      RunKeepsInv(Apply(s, ops[0]), ops[1..], Time(ops[0]));
    }
  }

  /** In every reachable state a successful verification falls strictly before ExpiresAt, less
      than 365 days after CreatedAt; and a share that is not single-use is never consumed. */
  lemma SuccessIsTimely(ops: seq<Op>, since: int, hash: string, now: int)
    requires GoodRun(State(map[], map[], map[]), ops, since)
    ensures var s := Run(State(map[], map[], map[]), ops);
      && (VerifyResult(s, hash, now).Ok? ==>
            && Issued(s, hash)
            && now < ShareFor(s, hash).expiresAt
            && now < ShareFor(s, hash).createdAt + 365 * 86_400 * 1_000_000_000)
      && forall id :: id in s.shares && !s.shares[id].singleUse ==> s.shares[id].consumedAt.None?
  {
    RunKeepsInv(State(map[], map[], map[]), ops, since);
    var s := Run(State(map[], map[], map[]), ops);
    forall id | id in s.shares ensures ShareInv(s.shares[id], id) {
    }
  }

  // ---------------------------------------------------------------- what a share is about

  /** The share keeps what it was created with. */
  ghost predicate MadeFrom(sh: Share, input: CreateShareInput, id: string, now: int) {
    && sh.id == id && sh.objectType == input.objectType && sh.objectId == input.objectId && sh.relation == input.relation
    && sh.createdBy == input.createdBy && sh.singleUse == input.singleUse && sh.createdAt == now
    && sh.expiresAt == now + input.expiresInSeconds * 1_000_000_000
  }

  ghost predicate Filed(s: State, input: CreateShareInput, id: string, hash: string, now: int) {
    && hash in s.idByTokenHash && s.idByTokenHash[hash] == id && id in s.shares && MadeFrom(s.shares[id], input, id, now)
  }

  lemma {:induction false} StaysFiled(s: State, ops: seq<Op>, since: int, input: CreateShareInput, id: string, hash: string, now: int)
    requires GoodRun(s, ops, since) && Filed(s, input, id, hash, now)
    ensures Filed(Run(s, ops), input, id, hash, now)
    decreases |ops|
  {
    if ops != [] {
      assert Filed(Apply(s, ops[0]), input, id, hash, now);
      StaysFiled(Apply(s, ops[0]), ops[1..], Time(ops[0]), input, id, hash, now);
    }
  }

  /** From its creation on, over any run, a token stands for its share, the share keeps its creation data, and every success
      names the created id, object type, object id and relation. */
  lemma SuccessNamesTheShare(s: State, input: CreateShareInput, id: string, hash: string, now: int, ops: seq<Op>, at: int)
    requires Inv(s) && Fresh(s, Create(input, id, hash, now))
    requires IsRelationName(input.relation) && 0 < input.expiresInSeconds <= 31_536_000
    requires GoodRun(Apply(s, Create(input, id, hash, now)), ops, now)
    ensures var s' := Run(Apply(s, Create(input, id, hash, now)), ops);
      && id in s'.shares && MadeFrom(s'.shares[id], input, id, now)
      && (VerifyResult(s', hash, at).Ok? ==>
            VerifyResult(s', hash, at).value == VerifiedShare(id, input.objectType, input.objectId, input.relation))
  {
    StaysFiled(Apply(s, Create(input, id, hash, now)), ops, now, input, id, hash, now);
  }

  /** In every reachable state the outcome of a verification is settled by the share of the token: unknown, revoked, used up and
      expired, in this order, and a success otherwise. */
  lemma OutcomeOfVerification(ops: seq<Op>, since: int, hash: string, now: int)
    requires GoodRun(State(map[], map[], map[]), ops, since)
    ensures var s := Run(State(map[], map[], map[]), ops);
      var r := VerifyResult(s, hash, now);
      && (r == Err(InvalidShareToken) <==> forall id :: id in s.tokenHashes ==> s.tokenHashes[id] != hash)
      && forall id :: id in s.tokenHashes && s.tokenHashes[id] == hash ==>
           && id in s.shares
           && var sh := s.shares[id];
              && (r == Err(ShareRevoked) <==> sh.revokedAt.Some?)
              && (r == Err(ShareConsumed) <==> sh.revokedAt.None? && sh.singleUse && sh.consumedAt.Some?)
              && (r == Err(ShareExpired) <==> sh.revokedAt.None? && !(sh.singleUse && sh.consumedAt.Some?) && sh.expiresAt <= now)
  {
    RunKeepsInv(State(map[], map[], map[]), ops, since);
  }

  // ---------------------------------------------------------------- the store

  class InMemoryShareStore {
    var shares: map<string, Share>
    var shareTokenHashes: map<string, string>
    var shareIdByTokenHash: map<string, string>

    ghost function Value(): State
      reads this
    {
      State(shares, shareTokenHashes, shareIdByTokenHash)
    }

    ghost predicate Valid()
      reads this
    {
      Inv(Value())
    }

    constructor ()
      ensures Valid() && Value() == State(map[], map[], map[])
    {
      shares, shareTokenHashes, shareIdByTokenHash := map[], map[], map[];
    }

    method CreateShare(input: CreateShareInput, id: string, hash: string, now: int) returns (r: Result<Share, Error>)
      requires Valid() && id !in shares && hash !in shareIdByTokenHash
      modifies this
      ensures Valid() && Value() == Apply(old(Value()), Create(input, id, hash, now))
      ensures r.Ok? <==> IsRelationName(input.relation) && 0 < input.expiresInSeconds <= 31_536_000
      ensures r.Err? ==> r.error == InvalidFormat && Value() == old(Value())
      ensures r.Ok? ==>
        && MadeFrom(r.value, input, id, now) && r.value.consumedAt.None? && r.value.revokedAt.None?
        && shares == old(shares)[id := r.value] && shareTokenHashes == old(shareTokenHashes)[id := hash]
        && shareIdByTokenHash == old(shareIdByTokenHash)[hash := id]
    {
      ApplyKeepsInv(Value(), Create(input, id, hash, now));
      if !IsRelationName(input.relation) {
        return Err(InvalidFormat);
      }
      if input.expiresInSeconds <= 0 || input.expiresInSeconds > SHARE_MAX_TTL_SECONDS {
        return Err(InvalidFormat);
      }
      var share := Share(id, input.objectType, input.objectId, input.relation, input.createdBy,
                         now + input.expiresInSeconds * SECOND, input.singleUse, None, None, now);
      shares := shares[id := share];
      shareTokenHashes := shareTokenHashes[id := hash];
      shareIdByTokenHash := shareIdByTokenHash[hash := id];
      return Ok(share);
    }

    method VerifyShareToken(hash: string, now: int, stampedAt: int) returns (r: Result<VerifiedShare, Error>)
      requires Valid()
      modifies this
      ensures Valid() && Value() == Apply(old(Value()), Verify(hash, now, stampedAt))
      ensures r == VerifyResult(old(Value()), hash, now)
      ensures r == Err(InvalidShareToken) <==> hash !in shareIdByTokenHash
      ensures hash in shareIdByTokenHash ==>
        var id := shareIdByTokenHash[hash];
        var sh := old(shares)[id];
        && (r == Err(ShareRevoked) <==> sh.revokedAt.Some?)
        && (r == Err(ShareConsumed) <==> sh.revokedAt.None? && sh.singleUse && sh.consumedAt.Some?)
        && (r == Err(ShareExpired) <==> sh.revokedAt.None? && !(sh.singleUse && sh.consumedAt.Some?) && sh.expiresAt <= now)
        && (r.Ok? ==>
              && r.value.shareId == id && r.value.objectType == sh.objectType
              && r.value.objectId == sh.objectId && r.value.relation == sh.relation)
        && shares[id] == (if r.Ok? && sh.singleUse then sh.(consumedAt := Some(stampedAt)) else sh)
        && SameBut(old(shares), shares, {id})
      ensures hash !in shareIdByTokenHash ==> shares == old(shares)
      ensures shareTokenHashes == old(shareTokenHashes) && shareIdByTokenHash == old(shareIdByTokenHash)
    {
      ApplyKeepsInv(Value(), Verify(hash, now, stampedAt));
      if hash !in shareIdByTokenHash {
        return Err(InvalidShareToken);
      }
      var shareId := shareIdByTokenHash[hash];
      if shareTokenHashes[shareId] != hash {
        return Err(InvalidShareToken);
      }
      var sh := shares[shareId];
      if sh.revokedAt.Some? {
        return Err(ShareRevoked);
      }
      if sh.singleUse && sh.consumedAt.Some? {
        return Err(ShareConsumed);
      }
      if !(now < sh.expiresAt) {
        return Err(ShareExpired);
      }
      if sh.singleUse {
        sh := sh.(consumedAt := Some(stampedAt));
        shares := shares[shareId := sh];
      }
      return Ok(VerifiedShare(sh.id, sh.objectType, sh.objectId, sh.relation));
    }

    method RevokeShare(id: string, now: int) returns (r: Result<Share, Error>)
      requires Valid()
      modifies this
      ensures Valid() && Value() == Apply(old(Value()), Revoke(id, now))
      ensures r == if id in old(shares) then Ok(shares[id]) else Err(ShareNotFound)
      ensures id in old(shares) ==>
        shares[id] == old(shares)[id].(revokedAt := if old(shares)[id].revokedAt.Some? then old(shares)[id].revokedAt else Some(now))
      ensures id in shares <==> id in old(shares)
      ensures SameBut(old(shares), shares, {id})
      ensures shareTokenHashes == old(shareTokenHashes) && shareIdByTokenHash == old(shareIdByTokenHash)
    {
      ApplyKeepsInv(Value(), Revoke(id, now));
      if id !in shares {
        return Err(ShareNotFound);
      }
      var sh := shares[id];
      if sh.revokedAt.Some? {
        return Ok(sh);
      }
      sh := sh.(revokedAt := Some(now));
      shares := shares[id := sh];
      return Ok(sh);
    }
  }
}
