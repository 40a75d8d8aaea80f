/** Refresh-token rotation, reuse detection, logout and purge over one token table. */
module RefreshTokens {
  import opened Common

  datatype Token = Token(userId: string, familyId: string, expiresAt: int, isRevoked: bool, revokedAt: Option<int>)

  /** Keyed by the unique token hash. */
  type Table = map<string, Token>

  datatype TokenError = InvalidToken | TokenReused | TokenExpired | AccountInactive | HashTaken

  const WEEK_MS := 7 * 24 * 60 * 60 * 1000

  function Revoked(k: Token, now: int): Token {
    k.(isRevoked := true, revokedAt := Some(now))
  }

  /** updateMany where { familyId, isRevoked: false } */
  function RevokeFamily(t: Table, familyId: string, now: int): Table {
    map h | h in t :: if t[h].familyId == familyId && !t[h].isRevoked then Revoked(t[h], now) else t[h]
  }

  predicate Purgeable(k: Token, now: int) {
    k.expiresAt < now || (k.isRevoked && k.revokedAt.Some? && k.revokedAt.value < now - WEEK_MS)
  }

  function Purge(t: Table, now: int): Table {
    map h | h in t && !Purgeable(t[h], now) :: t[h]
  }

  function Refresh(t: Table, hash: string, newHash: string, userActive: bool, now: int, ttl: int)
    : (Table, Option<TokenError>)
  {
    if hash !in t then (t, Some(InvalidToken))
    else if t[hash].isRevoked then (RevokeFamily(t, t[hash].familyId, now), Some(TokenReused))
    else if t[hash].expiresAt < now then (t, Some(TokenExpired))
    else if !userActive then (RevokeFamily(t, t[hash].familyId, now), Some(AccountInactive))
    else
      var t1 := t[hash := Revoked(t[hash], now)];
      if newHash in t1 then (t1, Some(HashTaken))
      else (t1[newHash := Token(t[hash].userId, t[hash].familyId, now + ttl, false, None)], None)
  }

  /** Every live token of the family is revoked at `now`, and no other token changes. */
  predicate FamilyRevoked(t: Table, u: Table, familyId: string, now: int) {
    && u.Keys == t.Keys
    && forall h | h in t ::
         u[h] == if t[h].familyId == familyId && !t[h].isRevoked
                 then t[h].(isRevoked := true, revokedAt := Some(now)) else t[h]
  }

  class PrismaRefreshTokenRepository {
    var tokens: Table

    method Create(hash: string, token: Token) returns (ok: bool)
      modifies this
      ensures ok == (hash !in old(tokens))
      ensures tokens == if ok then old(tokens)[hash := token] else old(tokens)
    {
      ok := hash !in tokens;
      if ok {
        tokens := tokens[hash := token];
      }
    }

    method RevokeByTokenHash(hash: string, now: int)
      requires hash in tokens
      modifies this
      ensures tokens == old(tokens)[hash := Revoked(old(tokens)[hash], now)]
    {
      tokens := tokens[hash := Revoked(tokens[hash], now)];
    }

    method RevokeByFamilyId(familyId: string, now: int)
      modifies this
      ensures tokens == RevokeFamily(old(tokens), familyId, now)
      ensures FamilyRevoked(old(tokens), tokens, familyId, now)
    {
      tokens := RevokeFamily(tokens, familyId, now);
    }

    method PurgeExpired(now: int) returns (count: nat)
      modifies this
      ensures forall h :: h in tokens <==>
                h in old(tokens)
                && var k := old(tokens)[h];
                   && k.expiresAt >= now
                   && (k.isRevoked && k.revokedAt.Some? ==> k.revokedAt.value >= now - 7 * 24 * 60 * 60 * 1000)
      ensures forall h | h in tokens :: tokens[h] == old(tokens)[h]
      ensures tokens == Purge(old(tokens), now) && count == |old(tokens)| - |tokens|
    {
      var kept := Purge(tokens, now);
      assert kept.Keys <= tokens.Keys;
      assert tokens.Keys == kept.Keys + (tokens.Keys - kept.Keys);
      count := |tokens.Keys - kept.Keys|;
      tokens := kept;
    }
  }

  class RefreshTokenUseCase {
    const refreshTokenRepo: PrismaRefreshTokenRepository

    constructor (refreshTokenRepo: PrismaRefreshTokenRepository)
      ensures this.refreshTokenRepo == refreshTokenRepo
    {
      this.refreshTokenRepo := refreshTokenRepo;
    }

    method Execute(hash: string, newHash: string, userActive: bool, now: int, ttl: int)
      returns (error: Option<TokenError>)
      modifies refreshTokenRepo
      ensures (refreshTokenRepo.tokens, error)
           == Refresh(old(refreshTokenRepo.tokens), hash, newHash, userActive, now, ttl)
      ensures var t := old(refreshTokenRepo.tokens);
              error == if hash !in t then Some(InvalidToken)
                       else if t[hash].isRevoked then Some(TokenReused)
                       else if t[hash].expiresAt < now then Some(TokenExpired)
                       else if !userActive then Some(AccountInactive)
                       else if newHash in t then Some(HashTaken) else None
      ensures error == Some(InvalidToken) || error == Some(TokenExpired) ==>
                refreshTokenRepo.tokens == old(refreshTokenRepo.tokens)
      ensures error == Some(TokenReused) || error == Some(AccountInactive) ==>
                FamilyRevoked(old(refreshTokenRepo.tokens), refreshTokenRepo.tokens,
                              old(refreshTokenRepo.tokens)[hash].familyId, now)
      ensures error == None ==>
                var t := old(refreshTokenRepo.tokens);
                refreshTokenRepo.tokens
                == t[hash := t[hash].(isRevoked := true, revokedAt := Some(now))]
                    [newHash := Token(t[hash].userId, t[hash].familyId, now + ttl, false, None)]
    {
      if hash !in refreshTokenRepo.tokens {
        return Some(InvalidToken);
      }
      var stored := refreshTokenRepo.tokens[hash];
      if stored.isRevoked {
        refreshTokenRepo.RevokeByFamilyId(stored.familyId, now);
        return Some(TokenReused);
      }
      if stored.expiresAt < now {
        return Some(TokenExpired);
      }
      if !userActive {
        refreshTokenRepo.RevokeByFamilyId(stored.familyId, now);
        return Some(AccountInactive);
      }
      refreshTokenRepo.RevokeByTokenHash(hash, now);
      var ok := refreshTokenRepo.Create(newHash, Token(stored.userId, stored.familyId, now + ttl, false, None));
      error := if ok then None else Some(HashTaken);
    }

    method IssueForLogin(userId: string, hash: string, familyId: string, now: int, ttl: int) returns (ok: bool)
      modifies refreshTokenRepo
      ensures ok == (hash !in old(refreshTokenRepo.tokens))
      ensures refreshTokenRepo.tokens ==
              if ok then old(refreshTokenRepo.tokens)[hash := Token(userId, familyId, now + ttl, false, None)]
              else old(refreshTokenRepo.tokens)
    {
      ok := refreshTokenRepo.Create(hash, Token(userId, familyId, now + ttl, false, None));
    }
  }

  class LogoutUseCase {
    const refreshTokenRepo: PrismaRefreshTokenRepository

    constructor (refreshTokenRepo: PrismaRefreshTokenRepository)
      ensures this.refreshTokenRepo == refreshTokenRepo
    {
      this.refreshTokenRepo := refreshTokenRepo;
    }

    method Execute(hash: string, now: int) returns (ok: bool)
      modifies refreshTokenRepo
      ensures ok == (hash in old(refreshTokenRepo.tokens))
      ensures refreshTokenRepo.tokens ==
              if ok then RevokeFamily(old(refreshTokenRepo.tokens), old(refreshTokenRepo.tokens)[hash].familyId, now)
              else old(refreshTokenRepo.tokens)
      ensures ok ==> FamilyRevoked(old(refreshTokenRepo.tokens), refreshTokenRepo.tokens,
                                   old(refreshTokenRepo.tokens)[hash].familyId, now)
    {
      ok := hash in refreshTokenRepo.tokens;
      if ok {
        refreshTokenRepo.RevokeByFamilyId(refreshTokenRepo.tokens[hash].familyId, now);
      }
    }
  }

  // ---- runs ----

  /** When a token was exchanged for a successor. */
  datatype Rotation = Rotation(familyId: string, at: int, expiresAt: int)

  /** Beside the table: the clock, and as history the hashes ever issued, the owner of every family
      ever opened, the families ended by logout, reuse or suspension, and the rotated tokens. */
  datatype State = State(tokens: Table, clock: int, used: set<string>, owner: map<string, string>,
                         ended: set<string>, rotated: map<string, Rotation>)

  datatype Step =
    | DoLogin(userId: string, hash: string, familyId: string, now: int, ttl: int)
    | DoRefresh(hash: string, newHash: string, userActive: bool, now: int, ttl: int)
    | DoLogout(hash: string, now: int)
    | DoPurge(now: int)

  /** Time does not run backwards; new tokens and families are random and never repeat. */
  predicate Enabled(s: State, step: Step) {
    && step.now >= s.clock
    && match step
       case DoLogin(_, hash, familyId, _, _) => hash !in s.used && familyId !in s.owner
       case DoRefresh(_, newHash, _, _, _) => newHash !in s.used
       case _ => true
  }

  function Do(s: State, step: Step): State
    requires Enabled(s, step)
  {
    match step
    case DoLogin(userId, hash, familyId, now, ttl) =>
      s.(tokens := s.tokens[hash := Token(userId, familyId, now + ttl, false, None)], clock := now,
         used := s.used + {hash}, owner := s.owner[familyId := userId])
    case DoRefresh(hash, newHash, active, now, ttl) =>
      var (t, error) := Refresh(s.tokens, hash, newHash, active, now, ttl);
      State(t, now, s.used + {newHash}, s.owner,
            if error == Some(TokenReused) || error == Some(AccountInactive)
            then s.ended + {s.tokens[hash].familyId} else s.ended,
            if error.None?
            then s.rotated[hash := Rotation(s.tokens[hash].familyId, now, s.tokens[hash].expiresAt)] else s.rotated)
    case DoLogout(hash, now) =>
      if hash in s.tokens
      then s.(tokens := RevokeFamily(s.tokens, s.tokens[hash].familyId, now), clock := now,
              ended := s.ended + {s.tokens[hash].familyId})
      else s.(clock := now)
    case DoPurge(now) => s.(tokens := Purge(s.tokens, now), clock := now)
  }

  predicate Live(t: Table, h: string) {
    h in t && !t[h].isRevoked
  }

  ghost predicate NoneLive(t: Table, familyId: string) {
    forall h | Live(t, h) :: t[h].familyId != familyId
  }

  /** A rotated token is stored, revoked since its rotation, until it may be purged. */
  ghost predicate RotationOk(s: State, h: string)
    requires h in s.rotated
  {
    var r := s.rotated[h];
    && h in s.used
    && (h in s.tokens ==> s.tokens[h].familyId == r.familyId && s.tokens[h].isRevoked
                          && s.tokens[h].revokedAt == Some(r.at) && s.tokens[h].expiresAt == r.expiresAt)
    && (h !in s.tokens ==> r.expiresAt < s.clock || r.at < s.clock - WEEK_MS)
  }

  ghost predicate Inv(s: State) {
    && (forall h | h in s.tokens :: h in s.used && s.tokens[h].familyId in s.owner
                                    && s.tokens[h].userId == s.owner[s.tokens[h].familyId])
    && (forall g, h | Live(s.tokens, g) && Live(s.tokens, h) && s.tokens[g].familyId == s.tokens[h].familyId :: g == h)
    && (forall f | f in s.ended :: f in s.owner && NoneLive(s.tokens, f))
    && (forall h | h in s.rotated :: RotationOk(s, h))
  }

  lemma TokensAfter(s: State, step: Step, h: string)
    requires Inv(s) && Enabled(s, step) && h in Do(s, step).tokens
    ensures var t := Do(s, step).tokens;
            && (h in s.tokens ==> t[h].familyId == s.tokens[h].familyId && t[h].userId == s.tokens[h].userId
                                  && t[h].expiresAt == s.tokens[h].expiresAt
                                  && (s.tokens[h].isRevoked ==> t[h] == s.tokens[h]))
            && (h !in s.tokens ==>
                  && h !in s.used
                  && (|| (step.DoLogin? && h == step.hash && t[h].familyId == step.familyId)
                      || (step.DoRefresh? && h == step.newHash && Live(s.tokens, step.hash) && !Live(t, step.hash)
                          && t[h].familyId == s.tokens[step.hash].familyId
                          && t[h].userId == s.tokens[step.hash].userId)))
  {
  }

  lemma StepKeepsOwners(s: State, step: Step)
    requires Inv(s) && Enabled(s, step)
    ensures var s' := Do(s, step);
            && (forall h | h in s'.tokens :: h in s'.used && s'.tokens[h].familyId in s'.owner
                                             && s'.tokens[h].userId == s'.owner[s'.tokens[h].familyId])
            && (forall g, h | Live(s'.tokens, g) && Live(s'.tokens, h)
                              && s'.tokens[g].familyId == s'.tokens[h].familyId :: g == h)
  {
    var s' := Do(s, step);
    forall h | h in s'.tokens
      ensures h in s'.used && s'.tokens[h].familyId in s'.owner
      ensures s'.tokens[h].userId == s'.owner[s'.tokens[h].familyId]
    {
      TokensAfter(s, step, h);
    }
    forall g, h | Live(s'.tokens, g) && Live(s'.tokens, h) && s'.tokens[g].familyId == s'.tokens[h].familyId
      ensures g == h
    {
      TokensAfter(s, step, g);
      TokensAfter(s, step, h);
    }
  }

  lemma StepKeepsEnded(s: State, step: Step, f: string)
    requires Inv(s) && Enabled(s, step) && f in Do(s, step).ended
    ensures f in Do(s, step).owner && NoneLive(Do(s, step).tokens, f)
  {
  }

  lemma StepKeepsRotations(s: State, step: Step, h: string)
    requires Inv(s) && Enabled(s, step) && h in Do(s, step).rotated
    ensures RotationOk(Do(s, step), h)
  {
  }

  lemma StepKeepsInv(s: State, step: Step)
    requires Inv(s) && Enabled(s, step)
    ensures Inv(Do(s, step))
    ensures s.ended <= Do(s, step).ended
  {
    StepKeepsOwners(s, step);
    forall f | f in Do(s, step).ended ensures f in Do(s, step).owner && NoneLive(Do(s, step).tokens, f) {
      StepKeepsEnded(s, step, f);
    }
    forall h | h in Do(s, step).rotated ensures RotationOk(Do(s, step), h) {
      StepKeepsRotations(s, step, h);
    }
  }

  predicate Valid(s: State, steps: seq<Step>)
    decreases |steps|
  {
    steps == [] || (Enabled(s, steps[0]) && Valid(Do(s, steps[0]), steps[1..]))
  }

  function Run(s: State, steps: seq<Step>): State
    requires Valid(s, steps)
    decreases |steps|
  {
    if steps == [] then s else Run(Do(s, steps[0]), steps[1..])
  }

  const Start := State(map[], 0, {}, map[], {}, map[])

  lemma {:induction false} RunKeepsInv(s: State, steps: seq<Step>)
    requires Inv(s) && Valid(s, steps)
    ensures Inv(Run(s, steps)) && s.ended <= Run(s, steps).ended
    decreases |steps|
  {
    if steps != [] {
      StepKeepsInv(s, steps[0]);
      RunKeepsInv(Do(s, steps[0]), steps[1..]);
    }
  }

  /** In every run a family has at most one unrevoked token and all its tokens have one owner. */
  lemma OneLiveTokenPerFamily(steps: seq<Step>, g: string, h: string)
    requires Valid(Start, steps)
    requires var t := Run(Start, steps).tokens; g in t && h in t && t[g].familyId == t[h].familyId
    ensures var t := Run(Start, steps).tokens;
            t[g].userId == t[h].userId && (Live(t, g) && Live(t, h) ==> g == h)
  {
    RunKeepsInv(Start, steps);
  }

  /** A refresh hands out a token exactly for the live, unexpired token of an active account, and then
      the new token is the only live one of its family. A refused refresh adds no live token. */
  lemma RefreshAcceptedExactly(steps: seq<Step>, h: string, newHash: string, active: bool, now: int, ttl: int)
    requires Valid(Start, steps) && newHash !in Run(Start, steps).used
    ensures var t := Run(Start, steps).tokens;
            var (t', error) := Refresh(t, h, newHash, active, now, ttl);
            && (error.None? <==> Live(t, h) && t[h].expiresAt >= now && active)
            && (error.None? ==>
                  && t' == t[h := t[h].(isRevoked := true, revokedAt := Some(now))]
                            [newHash := Token(t[h].userId, t[h].familyId, now + ttl, false, None)]
                  && forall g | g in t' && t'[g].familyId == t[h].familyId :: Live(t', g) <==> g == newHash)
            && (error.Some? ==> forall g | Live(t', g) :: Live(t, g) && t'[g] == t[g])
  {
    RunKeepsInv(Start, steps);
  }

  /** A login opens a family with one live token of its user, which can be exchanged, while the account is
      active, exactly until its lifetime is over. */
  lemma LoginLastsExactly(s: State, userId: string, hash: string, familyId: string, now: int, ttl: int,
                          newHash: string, later: int, moreTtl: int)
    requires Inv(s) && Enabled(s, DoLogin(userId, hash, familyId, now, ttl))
    requires newHash != hash && newHash !in s.used
    ensures var t := Do(s, DoLogin(userId, hash, familyId, now, ttl)).tokens;
            && t == s.tokens[hash := Token(userId, familyId, now + ttl, false, None)]
            && (Refresh(t, hash, newHash, true, later, moreTtl).1 == None <==> later <= now + ttl)
  {
  }

  /** What ends a family: a logout with a stored token of it, or a refresh with a revoked token of it, or
      with a live, unexpired one of an inactive account. Whatever ends it leaves no live token. */
  lemma EndsExactly(s: State, step: Step, f: string)
    requires Inv(s) && Enabled(s, step)
    ensures f in Do(s, step).ended <==>
            || f in s.ended
            || (step.DoLogout? && step.hash in s.tokens && s.tokens[step.hash].familyId == f)
            || (step.DoRefresh? && step.hash in s.tokens && s.tokens[step.hash].familyId == f
                && (s.tokens[step.hash].isRevoked
                    || (s.tokens[step.hash].expiresAt >= step.now && !step.userActive)))
    ensures f in Do(s, step).ended ==> NoneLive(Do(s, step).tokens, f)
    ensures step.DoLogout? && step.hash !in s.tokens ==> Do(s, step).tokens == s.tokens
  {
    StepKeepsInv(s, step);
  }

  /** A family ended by logout, reuse or suspension never holds an unrevoked token again, however the
      run goes on. */
  lemma EndedFamiliesStayEnded(before: seq<Step>, after: seq<Step>, f: string)
    requires Valid(Start, before) && Valid(Run(Start, before), after) && f in Run(Start, before).ended
    ensures NoneLive(Run(Run(Start, before), after).tokens, f)
  {
    RunKeepsInv(Start, before);
    RunKeepsInv(Run(Start, before), after);
  }

  /** Presenting a rotated token again ends its family exactly when its row is still stored (or the
      family has no live token anyway). */
  lemma ReplayEndsFamilyExactly(steps: seq<Step>, h: string, newHash: string, active: bool, now: int, ttl: int)
    requires Valid(Start, steps) && h in Run(Start, steps).rotated
    ensures var s := Run(Start, steps);
            var f := s.rotated[h].familyId;
            NoneLive(Refresh(s.tokens, h, newHash, active, now, ttl).0, f) <==> h in s.tokens || NoneLive(s.tokens, f)
  {
    RunKeepsInv(Start, steps);
    var s := Run(Start, steps);
    assert RotationOk(s, h);
    var t := Refresh(s.tokens, h, newHash, active, now, ttl).0;
    assert h in s.tokens ==> forall g | Live(t, g) :: t[g].familyId != s.rotated[h].familyId;
  }

  /** A rotated token presented again before it expires and within a week of its rotation is always
      caught: it is still stored, the call is refused as a reuse and the family ends. */
  lemma ReplayWithinAWeekIsCaught(steps: seq<Step>, h: string, newHash: string, active: bool, now: int, ttl: int)
    requires Valid(Start, steps) && h in Run(Start, steps).rotated && now >= Run(Start, steps).clock
    requires now <= Run(Start, steps).rotated[h].expiresAt
    requires now <= Run(Start, steps).rotated[h].at + 7 * 24 * 60 * 60 * 1000
    ensures var s := Run(Start, steps);
            var (t, error) := Refresh(s.tokens, h, newHash, active, now, ttl);
            error == Some(TokenReused) && NoneLive(t, s.rotated[h].familyId)
  {
    RunKeepsInv(Start, steps);
    assert RotationOk(Run(Start, steps), h);
    ReplayEndsFamilyExactly(steps, h, newHash, active, now, ttl);
  }

  /** Such a miss: token "a" expires and is purged soon after its rotation, and when it is presented again
      the family keeps its live token "b". */
  lemma ReplayCanBeMissed()
    ensures var steps := [DoLogin("u", "a", "f", 0, 10), DoRefresh("a", "b", true, 5, 100), DoPurge(11)];
            && Valid(Start, steps)
            && var s := Run(Start, steps);
               && "a" in s.rotated && "a" !in s.tokens && Live(s.tokens, "b")
               && Refresh(s.tokens, "a", "c", true, 11, 100) == (s.tokens, Some(InvalidToken))
               && !NoneLive(s.tokens, s.rotated["a"].familyId)
  {
    var s1 := Do(Start, DoLogin("u", "a", "f", 0, 10));
    var s2 := Do(s1, DoRefresh("a", "b", true, 5, 100));
    var s3 := Do(s2, DoPurge(11));
    assert Valid(s2, [DoPurge(11)]) && Run(s2, [DoPurge(11)]) == s3;
    var two := [DoRefresh("a", "b", true, 5, 100), DoPurge(11)];
    assert two[1..] == [DoPurge(11)] && Valid(s1, two) && Run(s1, two) == s3;
    assert [DoLogin("u", "a", "f", 0, 10), DoRefresh("a", "b", true, 5, 100), DoPurge(11)][1..] == two;
    assert Live(s3.tokens, "b") && s3.tokens["b"].familyId == "f";
  }
}
