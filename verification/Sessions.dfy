/**
 The session table behind the access and refresh tokens. Signing and parsing of tokens is outside: `parses` gives the
 user that a token string names, if it is a valid JWT at an instant. Each operation is one atomic step.
 */
module Sessions {
  import opened Basics

  type Token = string
  type UserId = nat

  /** 32 random bytes in hexadecimal, which sort as the number they spell. */
  type SessionId = nat

  datatype Session = Session(user: UserId, token: Token, refreshToken: Token, expiresAt: int, isActive: bool)

  type Table = map<SessionId, Session>

  const ACCESS_LIFETIME: nat := 15 * MINUTE

  type Parser = (Token, int) -> Option<UserId>

  /** A new session's id and tokens are the ones the operation draws. */
  datatype Op =
    | Login(user: UserId, id: SessionId, token: Token, refreshToken: Token, at: int)
    | Refresh(presented: Token, userExists: bool, id: SessionId, token: Token, refreshToken: Token, at: int)
    | Invalidate(target: Token, at: int)
    | InvalidateAll(owner: UserId, at: int)

  // ---- The program ----------------------------------------------------------------------------------

  function DeleteInactive(t: Table, user: UserId): Table {
    map id | id in t && !(t[id].user == user && !t[id].isActive) :: t[id]
  }

  function Deactivate(t: Table, hit: Session -> bool): Table {
    map id | id in t :: if hit(t[id]) then t[id].(isActive := false) else t[id]
  }

  function NewSession(user: UserId, token: Token, refreshToken: Token, at: int): Session {
    Session(user, token, refreshToken, at + ACCESS_LIFETIME, true)
  }

  /** GenerateToken's table work; `purge` is false for the variant of the program that deletes nothing. */
  function Insert(t: Table, purge: bool, id: SessionId, s: Session): Table {
    (if purge then DeleteInactive(t, s.user) else t)[id := s]
  }

  /** First on a query: of the rows found, the one with the least primary key. */
  function First(rows: set<SessionId>): (row: Option<SessionId>)
    ensures row.None? <==> rows == {}
    ensures row.Some? ==> row.value in rows && forall id :: id in rows ==> row.value <= id
  {
    if rows == {} then None else Some(Least(rows))
  }

  function ActiveWith(t: Table, hit: Session -> bool): set<SessionId> {
    set id | id in t && t[id].isActive && hit(t[id])
  }

  function HasToken(token: Token): Session -> bool {
    (s: Session) => s.token == token
  }

  function HasRefreshToken(token: Token): Session -> bool {
    (s: Session) => s.refreshToken == token
  }

  /** The looked-up row exists and is not past its expiry, which is the access token's in either case. */
  predicate Finds(t: Table, hit: Session -> bool, at: int) {
    var row := First(ActiveWith(t, hit));
    row.Some? && at <= t[row.value].expiresAt
  }

  predicate Exchanges(t: Table, parses: Parser, op: Op) {
    op.Refresh? && Finds(t, HasRefreshToken(op.presented), op.at) && parses(op.presented, op.at).Some? && op.userExists
  }

  function Step(t: Table, parses: Parser, purge: bool, op: Op): Table {
    match op
    case Login(user, id, token, refreshToken, at) => Insert(t, purge, id, NewSession(user, token, refreshToken, at))
    case Refresh(presented, _, id, token, refreshToken, at) =>
      if !Exchanges(t, parses, op) then t
      else
        var spent := Deactivate(t, HasRefreshToken(presented));
        Insert(spent, purge, id, NewSession(parses(presented, at).value, token, refreshToken, at))
    case Invalidate(target, _) => Deactivate(t, HasToken(target))
    case InvalidateAll(user, _) => Deactivate(t, (s: Session) => s.user == user)
  }

  /** Whether ValidateToken answers with the token's claims. */
  predicate Accepts(t: Table, parses: Parser, token: Token, at: int) {
    parses(token, at).Some? && Finds(t, HasToken(token), at)
  }

  function Run(parses: Parser, purge: bool, h: seq<Op>): Table {
    if h == [] then map[] else Step(Run(parses, purge, h[..|h|-1]), parses, purge, h[|h|-1])
  }

  class JwtService {
    var sessions: Table
    const parses: Parser

    constructor (parses: Parser)
      ensures this.parses == parses && sessions == Run(parses, true, [])
    {
      this.parses := parses;
      sessions := map[];
    }

    method GenerateToken(user: UserId, id: SessionId, token: Token, refreshToken: Token, at: int)
      modifies this
      ensures sessions == Insert(old(sessions), true, id, NewSession(user, token, refreshToken, at))
      ensures id in sessions && sessions[id] == Session(user, token, refreshToken, at + 15 * 60 * 1_000_000_000, true)
      ensures forall other :: other != id ==>
                && (other in sessions <==> other in old(sessions) && (old(sessions)[other].user == user ==> old(sessions)[other].isActive))
                && (other in sessions ==> sessions[other] == old(sessions)[other])
    {
      sessions := map other | other in sessions && !(sessions[other].user == user && !sessions[other].isActive) :: sessions[other];
      sessions := sessions[id := Session(user, token, refreshToken, at + ACCESS_LIFETIME, true)];
    }

    method ValidateToken(token: Token, at: int) returns (claims: Option<UserId>)
      ensures claims == if Accepts(sessions, parses, token, at) then parses(token, at) else None
    {
      if parses(token, at).None? {
        return None;
      }
      var rows := set id | id in sessions && sessions[id].token == token && sessions[id].isActive;
      assert rows == ActiveWith(sessions, HasToken(token));
      var session := First(rows);
      if session.None? || at > sessions[session.value].expiresAt {
        return None;
      }
      return parses(token, at);
    }

    method RefreshToken(presented: Token, userExists: bool, id: SessionId, token: Token, refreshToken: Token, at: int)
        returns (ok: bool)
      modifies this
      ensures sessions == Step(old(sessions), parses, true, Refresh(presented, userExists, id, token, refreshToken, at))
      ensures ok == Exchanges(old(sessions), parses, Refresh(presented, userExists, id, token, refreshToken, at))
    {
      var rows := set other | other in sessions && sessions[other].refreshToken == presented && sessions[other].isActive;
      assert rows == ActiveWith(sessions, HasRefreshToken(presented));
      var session := First(rows);
      if session.None? || at > sessions[session.value].expiresAt {
        return false;
      }
      var claims := parses(presented, at);
      if claims.None? || !userExists {
        return false;
      }
      sessions := Deactivate(sessions, HasRefreshToken(presented));
      GenerateToken(claims.value, id, token, refreshToken, at);
      return true;
    }

    method InvalidateSession(token: Token)
      modifies this
      ensures forall at :: sessions == Step(old(sessions), parses, true, Invalidate(token, at))
      ensures sessions.Keys == old(sessions).Keys
      ensures forall id :: id in sessions ==>
                sessions[id] == old(sessions)[id].(isActive := old(sessions)[id].isActive && old(sessions)[id].token != token)
    {
      sessions := Deactivate(sessions, HasToken(token));
    }

    method InvalidateAllUserSessions(user: UserId)
      modifies this
      ensures forall at :: sessions == Step(old(sessions), parses, true, InvalidateAll(user, at))
      ensures sessions.Keys == old(sessions).Keys
      ensures forall id :: id in sessions ==>
                sessions[id] == old(sessions)[id].(isActive := old(sessions)[id].isActive && old(sessions)[id].user != user)
    {
      sessions := Deactivate(sessions, (s: Session) => s.user == user);
    }
  }

  // ---- Only active rows matter ------------------------------------------------------------------------

  function Live(t: Table, id: SessionId): Option<Session> {
    if id in t && t[id].isActive then Some(t[id]) else None
  }

  lemma LiveAfterDeactivate(t: Table, hit: Session -> bool, id: SessionId)
    ensures var live := Live(t, id);
            Live(Deactivate(t, hit), id) == if live.Some? && hit(live.value) then None else live
  {}

  lemma LiveAfterInsert(t: Table, purge: bool, newId: SessionId, s: Session, id: SessionId)
    requires s.isActive
    ensures Live(Insert(t, purge, newId, s), id) == if id == newId then Some(s) else Live(t, id)
  {}

  /** The session an operation creates. */
  function Creates(t: Table, parses: Parser, op: Op): Option<Session> {
    match op
    case Login(user, _, token, refreshToken, at) => Some(NewSession(user, token, refreshToken, at))
    case Refresh(presented, _, _, token, refreshToken, at) =>
      if Exchanges(t, parses, op) then Some(NewSession(parses(presented, at).value, token, refreshToken, at)) else None
    case _ => None
  }

  /** The operation ends the session. */
  predicate Revokes(t: Table, parses: Parser, op: Op, s: Session) {
    match op
    case Login(_, _, _, _, _) => false
    case Refresh(presented, _, _, _, _, _) => Exchanges(t, parses, op) && s.refreshToken == presented
    case Invalidate(target, _) => s.token == target
    case InvalidateAll(owner, _) => s.user == owner
  }

  /** One step on the active rows, whether or not inactive ones are deleted. */
  lemma LiveAfterStep(t: Table, parses: Parser, purge: bool, op: Op, id: SessionId)
    ensures var created, live := Creates(t, parses, op), Live(t, id);
            Live(Step(t, parses, purge, op), id) ==
            if created.Some? && op.id == id then created
            else if live.Some? && Revokes(t, parses, op, live.value) then None
            else live
  {
    match op
    case Login(user, newId, token, refreshToken, at) =>
      LiveAfterInsert(t, purge, newId, NewSession(user, token, refreshToken, at), id);
    case Refresh(presented, _, newId, token, refreshToken, at) =>
      if Exchanges(t, parses, op) {
        var hit := HasRefreshToken(presented);
        LiveAfterDeactivate(t, hit, id);
        LiveAfterInsert(Deactivate(t, hit), purge, newId, Creates(t, parses, op).value, id);
      }
    case Invalidate(target, _) => LiveAfterDeactivate(t, HasToken(target), id);
    case InvalidateAll(owner, _) => LiveAfterDeactivate(t, (s: Session) => s.user == owner, id);
  }

  /** Deleting inactive sessions changes no answer: a program that never deletes accepts the same tokens and makes the
      same exchanges after every history. */
  lemma {:induction false} DeletionIsUnobservable(parses: Parser, h: seq<Op>)
    ensures forall id :: Live(Run(parses, true, h), id) == Live(Run(parses, false, h), id)
    ensures forall token, at :: Accepts(Run(parses, true, h), parses, token, at) <==> Accepts(Run(parses, false, h), parses, token, at)
    ensures forall op :: Exchanges(Run(parses, true, h), parses, op) <==> Exchanges(Run(parses, false, h), parses, op)
  {
    if h != [] {
      var before, op := h[..|h|-1], h[|h|-1];
      DeletionIsUnobservable(parses, before);
      var t, t' := Run(parses, true, before), Run(parses, false, before);
      forall id ensures Live(Run(parses, true, h), id) == Live(Run(parses, false, h), id) {
        LiveAfterStep(t, parses, true, op, id);
        LiveAfterStep(t', parses, false, op, id);
      }
    }
    SameAnswers(Run(parses, true, h), Run(parses, false, h), parses);
  }

  lemma SameAnswers(t: Table, t': Table, parses: Parser)
    requires forall id :: Live(t, id) == Live(t', id)
    ensures forall token, at :: Accepts(t, parses, token, at) <==> Accepts(t', parses, token, at)
    ensures forall op :: Exchanges(t, parses, op) <==> Exchanges(t', parses, op)
  {
    forall hit, at ensures Finds(t, hit, at) <==> Finds(t', hit, at) {
      SameFinds(t, t', hit, at);
    }
  }

  lemma SameFinds(t: Table, t': Table, hit: Session -> bool, at: int)
    requires forall id :: Live(t, id) == Live(t', id)
    ensures Finds(t, hit, at) <==> Finds(t', hit, at)
  {
    forall id ensures id in ActiveWith(t, hit) <==> id in ActiveWith(t', hit) {
      assert Live(t, id) == Live(t', id);
    }
    assert ActiveWith(t, hit) == ActiveWith(t', hit);
    var row := First(ActiveWith(t, hit));
    assert row.Some? ==> Live(t, row.value) == Live(t', row.value);
  }

  // ---- Answers in terms of the history ----------------------------------------------------------------

  function NewId(op: Op): Option<SessionId> {
    if op.Login? || op.Refresh? then Some(op.id) else None
  }

  /** The 32 random bytes of a session id are never drawn twice. */
  ghost predicate FreshIds(h: seq<Op>) {
    forall i, j :: 0 <= i < j < |h| && NewId(h[i]).Some? ==> NewId(h[i]) != NewId(h[j])
  }

  function CreatedAt(parses: Parser, h: seq<Op>, i: nat): Option<Session>
    requires i < |h|
  {
    Creates(Run(parses, true, h[..i]), parses, h[i])
  }

  /** The session created by the i-th operation was not ended by a later one. */
  ghost predicate NotRevoked(parses: Parser, h: seq<Op>, i: nat)
    requires i < |h| && CreatedAt(parses, h, i).Some?
  {
    forall j :: i < j < |h| ==> !Revokes(Run(parses, true, h[..j]), parses, h[j], CreatedAt(parses, h, i).value)
  }

  ghost predicate Stands(parses: Parser, h: seq<Op>, i: nat) {
    i < |h| && CreatedAt(parses, h, i).Some? && NotRevoked(parses, h, i)
  }

  lemma StandsStep(parses: Parser, h: seq<Op>, op: Op, i: nat)
    requires i < |h|
    ensures CreatedAt(parses, h + [op], i) == CreatedAt(parses, h, i)
    ensures Stands(parses, h + [op], i) <==>
            Stands(parses, h, i) && !Revokes(Run(parses, true, h), parses, op, CreatedAt(parses, h, i).value)
  {
    var longer := h + [op];
    assert forall j :: 0 <= j <= |h| ==> longer[..j] == h[..j];
    assert h[..|h|] == h;
  }

  lemma StandsNew(parses: Parser, h: seq<Op>, op: Op)
    ensures CreatedAt(parses, h + [op], |h|) == Creates(Run(parses, true, h), parses, op)
    ensures Stands(parses, h + [op], |h|) <==> Creates(Run(parses, true, h), parses, op).Some?
  {
    assert (h + [op])[..|h|] == h;
  }

  /** An active row is a session created and not revoked since. */
  lemma {:induction false} LiveWasCreated(parses: Parser, h: seq<Op>, id: SessionId) returns (i: nat)
    requires Live(Run(parses, true, h), id).Some?
    ensures Stands(parses, h, i) && NewId(h[i]) == Some(id) && CreatedAt(parses, h, i) == Live(Run(parses, true, h), id)
  {
    var before, op := h[..|h|-1], h[|h|-1];
    assert h == before + [op];
    LiveAfterStep(Run(parses, true, before), parses, true, op, id);
    if Creates(Run(parses, true, before), parses, op).Some? && op.id == id {
      i := |before|;
      StandsNew(parses, before, op);
    } else {
      i := LiveWasCreated(parses, before, id);
      StandsStep(parses, before, op, i);
    }
  }

  lemma FreshPrefix(h: seq<Op>, op: Op)
    requires FreshIds(h + [op])
    ensures FreshIds(h)
    ensures forall i :: 0 <= i < |h| && NewId(h[i]).Some? ==> NewId(h[i]) != NewId(op)
  {
    assert forall i :: 0 <= i < |h| ==> (h + [op])[i] == h[i];
    assert (h + [op])[|h|] == op;
  }

  lemma StaysLive(parses: Parser, before: seq<Op>, op: Op, i: nat)
    requires FreshIds(before + [op]) && i < |before| && Stands(parses, before + [op], i)
    requires Live(Run(parses, true, before), before[i].id) == CreatedAt(parses, before, i)
    ensures Live(Step(Run(parses, true, before), parses, true, op), before[i].id) == CreatedAt(parses, before, i)
  {
    FreshPrefix(before, op);
    StandsStep(parses, before, op, i);
    LiveAfterStep(Run(parses, true, before), parses, true, op, before[i].id);
  }

  lemma {:induction false} CreatedIsLive(parses: Parser, h: seq<Op>, i: nat)
    requires FreshIds(h) && Stands(parses, h, i)
    ensures Live(Run(parses, true, h), h[i].id) == CreatedAt(parses, h, i)
  {
    var before, op := h[..|h|-1], h[|h|-1];
    assert h == before + [op];
    if i == |before| {
      LiveAfterStep(Run(parses, true, before), parses, true, op, op.id);
    } else {
      FreshPrefix(before, op);
      StandsStep(parses, before, op, i);
      CreatedIsLive(parses, before, i);
      StaysLive(parses, before, op, i);
    }
  }

  /** Of the sessions with the property that stand, the i-th operation's has the least id. */
  ghost predicate FirstStanding(parses: Parser, h: seq<Op>, hit: Session -> bool, i: nat) {
    && Stands(parses, h, i) && hit(CreatedAt(parses, h, i).value)
    && forall k: nat :: Stands(parses, h, k) && hit(CreatedAt(parses, h, k).value) ==> h[i].id <= h[k].id
  }

  lemma StandingIsActive(parses: Parser, h: seq<Op>, hit: Session -> bool, i: nat)
    requires FreshIds(h) && Stands(parses, h, i) && hit(CreatedAt(parses, h, i).value)
    ensures h[i].id in ActiveWith(Run(parses, true, h), hit)
  {
    CreatedIsLive(parses, h, i);
  }

  lemma {:induction false} LookupFindsFirst(parses: Parser, h: seq<Op>, hit: Session -> bool) returns (i: nat)
    requires FreshIds(h) && First(ActiveWith(Run(parses, true, h), hit)).Some?
    ensures FirstStanding(parses, h, hit, i)
    ensures var row := First(ActiveWith(Run(parses, true, h), hit)).value;
            h[i].id == row && Run(parses, true, h)[row].expiresAt == h[i].at + ACCESS_LIFETIME
  {
    i := LiveWasCreated(parses, h, First(ActiveWith(Run(parses, true, h), hit)).value);
    forall k: nat | Stands(parses, h, k) && hit(CreatedAt(parses, h, k).value) ensures h[i].id <= h[k].id {
      StandingIsActive(parses, h, hit, k);
    }
  }

  /** A lookup finds a row in time exactly when the first standing session is at most fifteen minutes old. */
  lemma {:induction false} FindsExactlyTheStanding(parses: Parser, h: seq<Op>, hit: Session -> bool, at: int)
    requires FreshIds(h)
    ensures Finds(Run(parses, true, h), hit, at)
            <==> exists i: nat :: FirstStanding(parses, h, hit, i) && at <= h[i].at + ACCESS_LIFETIME
  {
    if First(ActiveWith(Run(parses, true, h), hit)).Some? {
      var i := LookupFindsFirst(parses, h, hit);
      forall j: nat | FirstStanding(parses, h, hit, j) ensures j == i {
        assert h[i].id == h[j].id;
      }
    } else {
      forall i: nat | FirstStanding(parses, h, hit, i) ensures false {
        StandingIsActive(parses, h, hit, i);
      }
    }
  }

  /** A token is accepted exactly when it parses, was issued at most fifteen minutes ago, and its session has been
      neither invalidated nor exchanged since. Should several standing sessions share the token, the one with the
      least id decides. */
  lemma {:induction false} AcceptedExactlyWhileStanding(parses: Parser, h: seq<Op>, token: Token, at: int)
    requires FreshIds(h)
    ensures Accepts(Run(parses, true, h), parses, token, at) <==>
            parses(token, at).Some? &&
            exists i: nat :: FirstStanding(parses, h, HasToken(token), i) && at <= h[i].at + ACCESS_LIFETIME
  {
    FindsExactlyTheStanding(parses, h, HasToken(token), at);
  }

  /** A refresh token is exchanged exactly when it parses, its user exists, and its session stands and was created at
      most fifteen minutes ago: the expiry consulted is the access token's, not the seven days of the refresh token. */
  lemma {:induction false} RefreshedExactlyWithinAccessLifetime(parses: Parser, h: seq<Op>, op: Op)
    requires FreshIds(h) && op.Refresh?
    ensures Exchanges(Run(parses, true, h), parses, op) <==>
            && parses(op.presented, op.at).Some? && op.userExists
            && exists i: nat :: FirstStanding(parses, h, HasRefreshToken(op.presented), i) && op.at <= h[i].at + ACCESS_LIFETIME
  {
    FindsExactlyTheStanding(parses, h, HasRefreshToken(op.presented), op.at);
  }

  /** With distinct tokens, no other standing session can come first. */
  lemma {:induction false} OnlyHolderIsFirst(parses: Parser, h: seq<Op>, i: nat)
    requires forall k, j :: 0 <= k < j < |h| && NewId(h[k]).Some? && NewId(h[j]).Some? ==> h[k].token != h[j].token
    requires Stands(parses, h, i)
    ensures FirstStanding(parses, h, HasToken(h[i].token), i)
  {
    var hit := HasToken(h[i].token);
    forall k: nat | Stands(parses, h, k) && hit(CreatedAt(parses, h, k).value) ensures k == i {
      assert NewId(h[k]).Some? && h[k].token == h[i].token;
    }
  }

  /** The operation exchanges the refresh token. */
  predicate ExchangesAt(parses: Parser, h: seq<Op>, i: nat, presented: Token)
    requires i < |h|
  {
    h[i].Refresh? && h[i].presented == presented && Exchanges(Run(parses, true, h[..i]), parses, h[i])
  }

  /** The operation creates a session with the refresh token. */
  predicate Issues(parses: Parser, h: seq<Op>, k: nat, refreshToken: Token)
    requires k < |h|
  {
    NewId(h[k]).Some? && h[k].refreshToken == refreshToken && CreatedAt(parses, h, k).Some?
  }

  /** A session that stands after a token of its kind was exchanged was created by that exchange or later. */
  lemma StandsSinceExchange(parses: Parser, h: seq<Op>, i: nat, k: nat, presented: Token)
    requires i < |h| && k < |h| && ExchangesAt(parses, h, i, presented)
    requires Stands(parses, h, k) && CreatedAt(parses, h, k).value.refreshToken == presented
    ensures i <= k
  {
    if k < i {
      assert Revokes(Run(parses, true, h[..i]), parses, h[i], CreatedAt(parses, h, k).value);
    }
  }

  /** An exchanged token was issued to a session that still stood then. */
  lemma {:induction false} ExchangedWasIssued(parses: Parser, h: seq<Op>, j: nat, presented: Token) returns (k: nat)
    requires j < |h| && ExchangesAt(parses, h, j, presented)
    ensures k < j && Issues(parses, h, k, presented) && Stands(parses, h[..j], k)
  {
    var before := h[..j];
    k := LiveWasCreated(parses, before, First(ActiveWith(Run(parses, true, before), HasRefreshToken(presented))).value);
    assert before[..k] == h[..k] && before[k] == h[k];
  }

  /** If a refresh token is exchanged twice, then the first exchange or an operation between the two issued the same
      string again. */
  lemma {:induction false} ExchangedAgainOnlyIfReissued(parses: Parser, h: seq<Op>, i: nat, j: nat, presented: Token)
      returns (k: nat)
    requires i < j < |h| && ExchangesAt(parses, h, i, presented) && ExchangesAt(parses, h, j, presented)
    ensures i <= k < j && Issues(parses, h, k, presented)
  {
    k := ExchangedWasIssued(parses, h, j, presented);
    var before := h[..j];
    assert before[..i] == h[..i] && before[i] == h[i];
    assert before[..k] == h[..k] && before[k] == h[k];
    StandsSinceExchange(parses, before, i, k, presented);
  }

  /** After a refresh token has been exchanged, presenting it again succeeds exactly when it parses, its user exists, and
      the session found was issued under the same string by that exchange or later, at most fifteen minutes ago. */
  lemma {:induction false} ExchangedAgainExactlyIfReissued(parses: Parser, h: seq<Op>, i: nat, op: Op)
    requires FreshIds(h) && i < |h| && op.Refresh? && ExchangesAt(parses, h, i, op.presented)
    ensures Exchanges(Run(parses, true, h), parses, op) <==>
            && parses(op.presented, op.at).Some? && op.userExists
            && exists k: nat :: i <= k && FirstStanding(parses, h, HasRefreshToken(op.presented), k)
                          && op.at <= h[k].at + ACCESS_LIFETIME
  {
    RefreshedExactlyWithinAccessLifetime(parses, h, op);
    forall k: nat | FirstStanding(parses, h, HasRefreshToken(op.presented), k) ensures i <= k {
      StandsSinceExchange(parses, h, i, k, op.presented);
    }
  }

  /** Issued refresh tokens are pairwise distinct. */
  ghost predicate DistinctRefreshTokens(h: seq<Op>) {
    forall i, j :: 0 <= i < j < |h| && NewId(h[i]).Some? && NewId(h[j]).Some? ==> h[i].refreshToken != h[j].refreshToken
  }

  /** With distinct refresh tokens, none is exchanged twice. */
  lemma ExchangedAtMostOnce(parses: Parser, h: seq<Op>, i: nat, j: nat)
    requires DistinctRefreshTokens(h) && i < j < |h|
    requires Exchanges(Run(parses, true, h[..i]), parses, h[i])
    requires Exchanges(Run(parses, true, h[..j]), parses, h[j])
    ensures h[i].presented != h[j].presented
  {
    if h[i].presented == h[j].presented {
      var m := ExchangedWasIssued(parses, h, i, h[i].presented);
      var k := ExchangedAgainOnlyIfReissued(parses, h, i, j, h[i].presented);
    }
  }

  /** Token times are whole seconds and nothing else tells two tokens of one user apart, so a refresh in the second of
      the login issues the presented token again. */
  function SameSecond(user: UserId, token: Token, refreshToken: Token, at: int): seq<Op> {
    [Login(user, 10, token, refreshToken, at),
     Refresh(refreshToken, true, 11, token, refreshToken, at),
     Refresh(refreshToken, true, 12, token, refreshToken, at)]
  }

  lemma SoleRowIsFound(id: SessionId, s: Session, at: int)
    requires s.isActive && at <= s.expiresAt
    ensures Finds(map[id := s], HasRefreshToken(s.refreshToken), at)
  {
    assert id in ActiveWith(map[id := s], HasRefreshToken(s.refreshToken));
  }

  /** The failing schedule: there the same refresh token is exchanged twice. */
  lemma ExchangedTwiceInOneSecond(parses: Parser, user: UserId, token: Token, refreshToken: Token, at: int)
    requires parses(refreshToken, at) == Some(user)
    ensures var h := SameSecond(user, token, refreshToken, at);
            FreshIds(h) && ExchangesAt(parses, h, 1, refreshToken) && ExchangesAt(parses, h, 2, refreshToken)
  {
    var h, s := SameSecond(user, token, refreshToken, at), NewSession(user, token, refreshToken, at);
    assert h[..1] == [h[0]] && h[..2] == [h[0], h[1]] && h[..2][..1] == h[..1] && h[..1][..0] == [];
    assert Run(parses, true, h[..1]) == map[10 := s];
    SoleRowIsFound(10, s, at);
    assert Run(parses, true, h[..2]) == map[11 := s];
    SoleRowIsFound(11, s, at);
  }

  // ---- Ended sessions, from the operations alone ----------------------------------------------------------

  /** Whom a session was created for: the user who logged in, or the one a refresh token names. */
  function UserOf(parses: Parser, op: Op): Option<UserId> {
    match op
    case Login(user, _, _, _, _) => Some(user)
    case Refresh(presented, _, _, _, _, at) => parses(presented, at)
    case _ => None
  }

  /** A created session carries what its operation drew and was made for, and ends fifteen minutes after it. */
  lemma CreatedFor(parses: Parser, h: seq<Op>, i: nat)
    requires i < |h| && CreatedAt(parses, h, i).Some?
    ensures NewId(h[i]).Some? && UserOf(parses, h[i]).Some?
    ensures CreatedAt(parses, h, i).value
            == Session(UserOf(parses, h[i]).value, h[i].token, h[i].refreshToken, h[i].at + 15 * 60 * 1_000_000_000, true)
  {}

  /** The operation ends the session that the i-th one created: it names its token, or its user, or exchanges its refresh
      token. */
  predicate Ends(parses: Parser, h: seq<Op>, j: nat, i: nat)
    requires i < j < |h| && NewId(h[i]).Some?
  {
    match h[j]
    case Login(_, _, _, _, _) => false
    case Refresh(_, _, _, _, _, _) => ExchangesAt(parses, h, j, h[i].refreshToken)
    case Invalidate(target, _) => target == h[i].token
    case InvalidateAll(owner, _) => Some(owner) == UserOf(parses, h[i])
  }

  /** A session stands exactly if none of these has happened to it. */
  lemma {:induction false} StandsUntilEnded(parses: Parser, h: seq<Op>, i: nat)
    requires i < |h| && CreatedAt(parses, h, i).Some?
    ensures NewId(h[i]).Some? && (Stands(parses, h, i) <==> forall j :: i < j < |h| ==> !Ends(parses, h, j, i))
  {
    CreatedFor(parses, h, i);
    forall j | i < j < |h|
      ensures Ends(parses, h, j, i) <==> Revokes(Run(parses, true, h[..j]), parses, h[j], CreatedAt(parses, h, i).value)
    {}
  }

  lemma EndedFalls(parses: Parser, h: seq<Op>, j: nat, i: nat)
    requires i < j < |h| && CreatedAt(parses, h, i).Some? && NewId(h[i]).Some? && Ends(parses, h, j, i)
    ensures !Stands(parses, h, i)
  {
    StandsUntilEnded(parses, h, i);
  }

  /** After a token is invalidated it is refused, on every continuation and at any time, until it is issued again. */
  lemma {:induction false} InvalidatedIsRefused(parses: Parser, h: seq<Op>, j: nat, token: Token, at: int)
    requires FreshIds(h) && j < |h| && h[j].Invalidate? && h[j].target == token
    requires forall k :: j < k < |h| && NewId(h[k]).Some? ==> h[k].token != token
    ensures !Accepts(Run(parses, true, h), parses, token, at)
  {
    AcceptedExactlyWhileStanding(parses, h, token, at);
    forall i: nat ensures !FirstStanding(parses, h, HasToken(token), i) {
      if i < |h| && CreatedAt(parses, h, i).Some? {
        CreatedFor(parses, h, i);
        if i < j && h[i].token == token {
          EndedFalls(parses, h, j, i);
        }
      }
    }
  }

  /** After all of a user's sessions are invalidated, every token issued to the user before is refused until it is issued
      again. */
  lemma {:induction false} InvalidatedUserIsRefused(parses: Parser, h: seq<Op>, j: nat, owner: UserId, token: Token, at: int)
    requires FreshIds(h) && j < |h| && h[j].InvalidateAll? && h[j].owner == owner
    requires forall k :: 0 <= k < j && NewId(h[k]).Some? && h[k].token == token ==> UserOf(parses, h[k]) == Some(owner)
    requires forall k :: j < k < |h| && NewId(h[k]).Some? ==> h[k].token != token
    ensures !Accepts(Run(parses, true, h), parses, token, at)
  {
    AcceptedExactlyWhileStanding(parses, h, token, at);
    forall i: nat ensures !FirstStanding(parses, h, HasToken(token), i) {
      if i < |h| && CreatedAt(parses, h, i).Some? {
        CreatedFor(parses, h, i);
        if i < j && h[i].token == token {
          EndedFalls(parses, h, j, i);
        }
      }
    }
  }
}
