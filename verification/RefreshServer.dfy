/**
  The server's side of a session refresh: `refresh` in `apps/api/src/modules/auth/auth.service.ts`.
  Refresh tokens rotate; the one just rotated out is remembered, and presenting it again later than
  the grace period revokes the session.
 */
module RefreshServer {
  import opened Wrappers

  /** Random tokens, identified with their hashes; a next token is one never issued before. */
  type Token = nat

  datatype Revocation = LoggedOut | Banned | ReuseDetected

  datatype Session = Session(current: Token, previous: Option<Token>, rotatedAt: int, expiresAt: int,
                             revoked: Option<Revocation>)

  datatype Server = Server(sessions: seq<Session>, issued: set<Token>, now: int)

  const REUSE_GRACE_MS: int := 15 * 1000

  datatype Outcome = Rotated(next: Token) | Rejected

  ghost predicate IsCurrent(sv: Server, t: Token) {
    exists i | 0 <= i < |sv.sessions| :: sv.sessions[i].current == t
  }

  /** The first session in `sessions[from..]` whose current token is `t`, or the length. */
  function FindCurrent(sessions: seq<Session>, t: Token, from: nat): (i: nat)
    requires from <= |sessions|
    ensures from <= i <= |sessions|
    ensures i < |sessions| ==> sessions[i].current == t
    ensures forall j | from <= j < i :: sessions[j].current != t
    decreases |sessions| - from
  {
    if from == |sessions| || sessions[from].current == t then from else FindCurrent(sessions, t, from + 1)
  }

  /** The first unrevoked session that rotated `t` out, or the length. */
  function FindRotatedOut(sessions: seq<Session>, t: Token, from: nat): (i: nat)
    requires from <= |sessions|
    ensures from <= i <= |sessions|
    ensures i < |sessions| ==> sessions[i].previous == Some(t) && sessions[i].revoked == None
    ensures forall j | from <= j < i :: !(sessions[j].previous == Some(t) && sessions[j].revoked == None)
    decreases |sessions| - from
  {
    if from == |sessions| || (sessions[from].previous == Some(t) && sessions[from].revoked == None) then from
    else FindRotatedOut(sessions, t, from + 1)
  }

  function WithSession(sv: Server, i: nat, session: Session): Server
    requires i < |sv.sessions|
  {
    sv.(sessions := sv.sessions[i := session])
  }

  /** `refresh(token)`: `nextToken` is the random next one, `banned` what the user row says. */
  function Refresh(sv: Server, t: Token, nextToken: Token, banned: bool): (Server, Outcome) {
    var i := FindCurrent(sv.sessions, t, 0);
    if i < |sv.sessions| then
      var session := sv.sessions[i];
      if session.revoked != None || session.expiresAt <= sv.now then (sv, Rejected)
      else if banned then (WithSession(sv, i, session.(revoked := Some(Banned))), Rejected)
      else
        var rotated := session.(current := nextToken, previous := Some(t), rotatedAt := sv.now);
        (WithSession(sv, i, rotated).(issued := sv.issued + {nextToken}), Rotated(nextToken))
    else
      var j := FindRotatedOut(sv.sessions, t, 0);
      if j == |sv.sessions| then (sv, Rejected)
      else if sv.now - sv.sessions[j].rotatedAt <= REUSE_GRACE_MS then (sv, Rejected)
      else (WithSession(sv, j, sv.sessions[j].(revoked := Some(ReuseDetected))), Rejected)
  }

  /** A new login: one more session, with a token never issued. */
  function Login(sv: Server, nextToken: Token, expiresAt: int): Server {
    sv.(sessions := sv.sessions + [Session(nextToken, None, 0, expiresAt, None)], issued := sv.issued + {nextToken})
  }

  function Logout(sv: Server, i: nat): Server
    requires i < |sv.sessions|
  {
    if sv.sessions[i].revoked != None then sv
    else WithSession(sv, i, sv.sessions[i].(revoked := Some(LoggedOut)))
  }

  /** What the sessions hold: issued tokens, no two alike among the current ones and the rotated-out ones. */
  ghost predicate Books(sv: Server) {
    && (forall i | 0 <= i < |sv.sessions| :: sv.sessions[i].current in sv.issued)
    && (forall i | 0 <= i < |sv.sessions| && sv.sessions[i].previous.Some? ::
          sv.sessions[i].previous.value in sv.issued)
    && (forall i, j | 0 <= i < j < |sv.sessions| :: sv.sessions[i].current != sv.sessions[j].current)
    && (forall i, j | 0 <= i < j < |sv.sessions| && sv.sessions[i].previous.Some? ::
          sv.sessions[i].previous != sv.sessions[j].previous)
    && (forall i, j | 0 <= i < |sv.sessions| && 0 <= j < |sv.sessions| ::
          sv.sessions[i].previous != Some(sv.sessions[j].current))
  }

  lemma RevokeKeepsBooks(sv: Server, i: nat, revocation: Revocation)
    requires Books(sv) && i < |sv.sessions|
    ensures Books(WithSession(sv, i, sv.sessions[i].(revoked := Some(revocation))))
  {
  }

  lemma RotateKeepsBooks(sv: Server, i: nat, session: Session)
    requires Books(sv) && i < |sv.sessions|
    requires session.previous == Some(sv.sessions[i].current) && session.current !in sv.issued
    ensures Books(WithSession(sv, i, session).(issued := sv.issued + {session.current}))
  {
  }

  lemma RefreshKeepsBooks(sv: Server, t: Token, nextToken: Token, banned: bool)
    requires Books(sv) && nextToken !in sv.issued
    ensures Books(Refresh(sv, t, nextToken, banned).0)
  {
    hide Books;
    var i, j := FindCurrent(sv.sessions, t, 0), FindRotatedOut(sv.sessions, t, 0);
    if i < |sv.sessions| {
      RevokeKeepsBooks(sv, i, Banned);
      RotateKeepsBooks(sv, i, sv.sessions[i].(current := nextToken, previous := Some(t), rotatedAt := sv.now));
    } else if j < |sv.sessions| {
      RevokeKeepsBooks(sv, j, ReuseDetected);
    }
  }

  lemma LoginKeepsBooks(sv: Server, nextToken: Token, expiresAt: int)
    requires Books(sv) && nextToken !in sv.issued
    ensures Books(Login(sv, nextToken, expiresAt))
  {
  }

  lemma LogoutKeepsBooks(sv: Server, i: nat)
    requires Books(sv) && i < |sv.sessions|
    ensures Books(Logout(sv, i))
  {
    RevokeKeepsBooks(sv, i, LoggedOut);
  }

  /** Every issued token that was not spent is a current one, and rotated-out ones are spent. */
  ghost predicate ServerInv(sv: Server, spent: set<Token>) {
    && spent <= sv.issued
    && (forall t | t in sv.issued && t !in spent :: IsCurrent(sv, t))
    && (forall i | 0 <= i < |sv.sessions| :: sv.sessions[i].current in sv.issued)
    && (forall i | 0 <= i < |sv.sessions| && sv.sessions[i].previous.Some? :: sv.sessions[i].previous.value in spent)
  }

  /** Spending a token keeps the server's books, and a token never spent before is a current one. */
  lemma RefreshKeepsServer(sv: Server, spent: set<Token>, t: Token, nextToken: Token, banned: bool)
    requires ServerInv(sv, spent) && t in sv.issued && nextToken !in sv.issued
    ensures var (sv', out) := Refresh(sv, t, nextToken, banned);
            && ServerInv(sv', spent + {t})
            && sv.issued <= sv'.issued
            && (out.Rotated? ==> out.next == nextToken && nextToken in sv'.issued)
  {
    var (sv', out) := Refresh(sv, t, nextToken, banned);
    forall u | u in sv'.issued && u !in spent + {t} ensures IsCurrent(sv', u) {
      if u == nextToken {
        var i := FindCurrent(sv.sessions, t, 0);
        assert sv'.sessions[i].current == u;
      } else {
        var k :| 0 <= k < |sv.sessions| && sv.sessions[k].current == u;
        assert sv'.sessions[k].current == u;
      }
    }
  }

  /** Only a spent token can revoke its session for reuse, and then it is the one rotated out. */
  lemma ReuseNeedsSpentToken(sv: Server, spent: set<Token>, t: Token, nextToken: Token, banned: bool, i: nat)
    requires ServerInv(sv, spent) && t in sv.issued && i < |sv.sessions|
    requires sv.sessions[i].revoked != Some(ReuseDetected)
    requires Refresh(sv, t, nextToken, banned).0.sessions[i].revoked == Some(ReuseDetected)
    ensures t in spent && sv.sessions[i].previous == Some(t) && !IsCurrent(sv, t)
    ensures sv.now - sv.sessions[i].rotatedAt > REUSE_GRACE_MS
  {
  }

  /** Presenting a rotated-out token is refused, and revokes its session exactly after the grace period. */
  lemma RotatedOutTokenIsRefused(sv: Server, t: Token, nextToken: Token, banned: bool, i: nat)
    requires Books(sv) && i < |sv.sessions| && sv.sessions[i].previous == Some(t)
    ensures var session := sv.sessions[i];
            var (sv', out) := Refresh(sv, t, nextToken, banned);
            && out == Rejected
            && sv' == if session.revoked == None && sv.now - session.rotatedAt > 15_000
                      then WithSession(sv, i, session.(revoked := Some(ReuseDetected)))
                      else sv
  {
    assert FindCurrent(sv.sessions, t, 0) == |sv.sessions|;
    var j := FindRotatedOut(sv.sessions, t, 0);
    assert j < |sv.sessions| ==> j == i;
  }

  /** Session `i` holds `t` as its current token and may be refreshed. */
  predicate Refreshable(sv: Server, t: Token, i: nat) {
    && i < |sv.sessions| && sv.sessions[i].current == t
    && sv.sessions[i].revoked == None && sv.now < sv.sessions[i].expiresAt
  }

  /** A new token is given out exactly for the current one of a live session of a member in good standing. */
  lemma RotatesExactly(sv: Server, t: Token, nextToken: Token, banned: bool)
    requires Books(sv)
    ensures Refresh(sv, t, nextToken, banned).1.Rotated? <==> !banned && exists i: nat :: Refreshable(sv, t, i)
  {
    var i := FindCurrent(sv.sessions, t, 0);
    assert i < |sv.sessions| && sv.sessions[i].revoked == None && sv.now < sv.sessions[i].expiresAt ==>
      Refreshable(sv, t, i);
  }

  /** The session becomes: rotated, or revoked with the member banned, or nothing new. */
  lemma CurrentTokenOutcome(sv: Server, t: Token, nextToken: Token, banned: bool, i: nat)
    requires Books(sv) && i < |sv.sessions| && sv.sessions[i].current == t
    ensures
      var before, (sv', out) := sv.sessions[i], Refresh(sv, t, nextToken, banned);
      && |sv'.sessions| == |sv.sessions| && sv'.now == sv.now
      && var after := sv'.sessions[i];
      if !Refreshable(sv, t, i) then sv' == sv && out == Rejected
      else if banned then sv'.issued == sv.issued && after == before.(revoked := Some(Banned)) && out == Rejected
      else
        && sv'.issued == sv.issued + {nextToken} && out == Rotated(nextToken)
        && after == before.(current := nextToken, previous := Some(t), rotatedAt := sv.now)
  {
    assert FindCurrent(sv.sessions, t, 0) == i;
  }

  /** Sessions that do not hold the token, as their current or their rotated-out one, stay as they are. */
  lemma OtherSessionsStay(sv: Server, t: Token, nextToken: Token, banned: bool, j: nat)
    requires j < |sv.sessions| && sv.sessions[j].current != t && sv.sessions[j].previous != Some(t)
    ensures
      var (sv', _) := Refresh(sv, t, nextToken, banned);
      |sv'.sessions| == |sv.sessions| && sv'.sessions[j] == sv.sessions[j]
  {
  }

  /** A revoked session stays as it is, whatever is presented. */
  lemma RevokedSessionStays(sv: Server, t: Token, nextToken: Token, banned: bool, i: nat)
    requires i < |sv.sessions| && sv.sessions[i].revoked != None
    ensures
      var (sv', _) := Refresh(sv, t, nextToken, banned);
      |sv'.sessions| == |sv.sessions| && sv'.sessions[i] == sv.sessions[i]
  {
  }

  predicate RevokedForReuse(sv: Server, i: nat) {
    i < |sv.sessions| && sv.sessions[i].revoked == Some(ReuseDetected)
  }

  /** Session `i` is live, rotated `t` out, and the grace period for it is over. */
  predicate Reuses(sv: Server, t: Token, i: nat) {
    && i < |sv.sessions| && sv.sessions[i].previous == Some(t) && sv.sessions[i].revoked == None
    && sv.now - sv.sessions[i].rotatedAt > 15_000
  }

  /** A presented token revokes for reuse exactly the session that it reuses. */
  lemma RefreshRevokesReused(sv: Server, t: Token, nextToken: Token, banned: bool, i: nat)
    requires Books(sv)
    ensures RevokedForReuse(Refresh(sv, t, nextToken, banned).0, i) <==> RevokedForReuse(sv, i) || Reuses(sv, t, i)
  {
    if i < |sv.sessions| && sv.sessions[i].previous == Some(t) {
      RotatedOutTokenIsRefused(sv, t, nextToken, banned, i);
    }
  }
}
