/** Refresh sessions of the local account manager: login, rotation with a reuse trap, logout. */
module Sessions {
  import opened Values

  type Hash = string

  type Token = string

  datatype Session = Session(uid: string, ctxUid: string, refreshHash: Hash, prevHash: Option<Hash>, expiresAt: int)

  /** The session collection, by session id. */
  type Table = map<string, Session>

  datatype Deny = Gone | ReuseRevoked

  /** What the surroundings answer during a refresh: the user document, and proof binding with signing. */
  datatype World = World(userExists: bool, signs: bool)

  predicate Expired(s: Session, now: int) { s.expiresAt <= now }

  predicate HasRefresh(t: Table, sid: string, h: Hash) { sid in t && t[sid].refreshHash == h }

  predicate HasPrev(t: Table, sid: string, h: Hash) { sid in t && t[sid].prevHash == Some(h) }

  predicate IsCurrent(t: Table, h: Hash) { exists sid :: sid in t && HasRefresh(t, sid, h) }

  predicate IsPrevious(t: Table, h: Hash) { exists sid :: sid in t && HasPrev(t, sid, h) }

  /** No hash is recorded twice. */
  ghost predicate Distinct(t: Table) {
    && (forall a, b, h :: HasRefresh(t, a, h) && HasRefresh(t, b, h) ==> a == b)
    && (forall a, b, h :: HasPrev(t, a, h) && HasPrev(t, b, h) ==> a == b)
    && forall a, b, h :: HasRefresh(t, a, h) ==> !HasPrev(t, b, h)
  }

  ghost predicate Unused(t: Table, h: Hash) {
    forall sid :: !HasRefresh(t, sid, h) && !HasPrev(t, sid, h)
  }

  function Rotated(s: Session, newHash: Hash): Session {
    s.(refreshHash := newHash, prevHash := Some(s.refreshHash))
  }

  function WithoutUser(t: Table, uid: string): Table {
    map sid | sid in t && t[sid].uid != uid :: t[sid]
  }

  datatype Verdict = Accepted(ctxUid: string) | Denied(why: Deny)

  /** A refresh: a current token rotates its session (or ends it when expired), a just-replaced one
      ends every session of its user, any other token does nothing. */
  ghost predicate Refreshes(t: Table, h: Hash, newHash: Hash, now: int, w: World, t': Table, v: Verdict) {
    if IsCurrent(t, h) then
      exists sid :: HasRefresh(t, sid, h) &&
        if Expired(t[sid], now) then t' == t - {sid} && v == Denied(Gone)
        else t' == t[sid := Rotated(t[sid], newHash)]
             && v == if w.userExists && w.signs then Accepted(t[sid].ctxUid) else Denied(Gone)
    else if IsPrevious(t, h) then
      exists sid :: HasPrev(t, sid, h) && t' == WithoutUser(t, t[sid].uid) && v == Denied(ReuseRevoked)
    else t' == t && v == Denied(Gone)
  }

  class LocalAuth {
    const sha: Token -> Hash
    const refreshTtl: int
    var sessions: Table

    constructor (sha: Token -> Hash, refreshTtl: int)
      ensures this.sha == sha && this.refreshTtl == refreshTtl && sessions == map[]
    {
      this.sha := sha;
      this.refreshTtl := refreshTtl;
      sessions := map[];
    }

    /** A new session; an id already in use is refused by the store. */
    method Mint(uid: string, ctxUid: string, sid: string, token: Token, now: int) returns (ok: bool)
      modifies this
      ensures ok <==> sid !in old(sessions)
      ensures sessions == if ok then old(sessions)[sid := Session(uid, ctxUid, sha(token), None, now + refreshTtl)]
                          else old(sessions)
    {
      if sid in sessions {
        return false;
      }
      sessions := sessions[sid := Session(uid, ctxUid, sha(token), None, now + refreshTtl)];
      return true;
    }

    /** Some session with this refresh hash. */
    method SessionByRefresh(h: Hash) returns (sid: Option<string>)
      ensures if IsCurrent(sessions, h) then sid.Some? && HasRefresh(sessions, sid.value, h) else sid == None
    {
      if exists s :: s in sessions && HasRefresh(sessions, s, h) {
        var s :| s in sessions && HasRefresh(sessions, s, h);
        return Some(s);
      }
      return None;
    }

    /** Some session whose replaced token has this hash. */
    method SessionByPrev(h: Hash) returns (sid: Option<string>)
      ensures if IsPrevious(sessions, h) then sid.Some? && HasPrev(sessions, sid.value, h) else sid == None
    {
      if exists s :: s in sessions && HasPrev(sessions, s, h) {
        var s :| s in sessions && HasPrev(sessions, s, h);
        return Some(s);
      }
      return None;
    }

    /** Ends the user's sessions one by one. */
    method RevokeUser(uid: string)
      modifies this
      ensures sessions == WithoutUser(old(sessions), uid)
      ensures forall sid :: sid in sessions <==> sid in old(sessions) && old(sessions)[sid].uid != uid
      ensures forall sid :: sid in sessions ==> sessions[sid] == old(sessions)[sid]
    {
      var todo := set sid | sid in sessions && sessions[sid].uid == uid;
      while todo != {}
        invariant forall sid :: sid in old(sessions) && old(sessions)[sid].uid != uid ==> sid in sessions
        invariant forall sid :: sid in sessions ==>
                    && sid in old(sessions) && sessions[sid] == old(sessions)[sid]
                    && (sessions[sid].uid == uid ==> sid in todo)
      {
        var sid :| sid in todo;
        sessions := sessions - {sid};
        todo := todo - {sid};
      }
    }

    method RefreshClassified(presented: Token, newToken: Token, now: int, w: World)
      returns (r: Result<string, Deny>)
      modifies this
      ensures Refreshes(old(sessions), sha(presented), sha(newToken), now, w, sessions,
                        if r.Ok? then Accepted(r.value) else Denied(r.error))
    {
      var h := sha(presented);
      var found := SessionByRefresh(h);
      if found.Some? {
        var sid := found.value;
        var sess := sessions[sid];
        if Expired(sess, now) {
          sessions := sessions - {sid};
          return Err(Gone);
        }
        sessions := sessions[sid := sess.(prevHash := Some(h), refreshHash := sha(newToken))];
        if !w.userExists || !w.signs {
          return Err(Gone);
        }
        return Ok(sess.ctxUid);
      }
      var replaced := SessionByPrev(h);
      if replaced.Some? {
        RevokeUser(sessions[replaced.value].uid);
        return Err(ReuseRevoked);
      }
      return Err(Gone);
    }

    method Logout(presented: Token)
      modifies this
      ensures LogsOut(old(sessions), sha(presented), sessions)
    {
      var found := SessionByRefresh(sha(presented));
      if found.Some? {
        sessions := sessions - {found.value};
      }
    }
  }

  ghost predicate LogsOut(t: Table, h: Hash, t': Table) {
    if IsCurrent(t, h) then exists sid :: HasRefresh(t, sid, h) && t' == t - {sid} else t' == t
  }

  // ---------- Runs ----------

  datatype Action =
    | Login(uid: string, ctxUid: string, sid: string, token: Token, expiresAt: int)
    | Refresh(presented: Token, newToken: Token, now: int, world: World, verdict: Verdict)
    | Logout(presented: Token)

  /** The session table with what a run has handed out and accepted. */
  datatype System = System(table: Table, owner: map<Token, string>, accepted: seq<Token>)

  ghost predicate Injective(sha: Token -> Hash) {
    forall a, b :: sha(a) == sha(b) ==> a == b
  }

  /** Tokens and session ids are fresh when made. */
  ghost predicate Step(sha: Token -> Hash, s: System, a: Action, s': System) {
    match a
    case Login(uid, ctxUid, sid, token, expiresAt) =>
      && sid !in s.table && token !in s.owner
      && s' == s.(table := s.table[sid := Session(uid, ctxUid, sha(token), None, expiresAt)],
                  owner := s.owner[token := uid])
    case Refresh(presented, newToken, now, w, v) =>
      && newToken !in s.owner
      && Refreshes(s.table, sha(presented), sha(newToken), now, w, s'.table, v)
      && s'.owner == (if IsCurrent(s'.table, sha(newToken))
                      then s.owner[newToken := UserOf(s'.table, sha(newToken))] else s.owner)
      && s'.accepted == if v.Accepted? then s.accepted + [presented] else s.accepted
    case Logout(presented) =>
      LogsOut(s.table, sha(presented), s'.table) && s' == s.(table := s'.table)
  }

  ghost function UserOf(t: Table, h: Hash): string
    requires IsCurrent(t, h)
  {
    var sid :| HasRefresh(t, sid, h);
    t[sid].uid
  }

  /** The hash belongs to a token handed to that user. */
  ghost predicate HandedTo(sha: Token -> Hash, owner: map<Token, string>, h: Hash, uid: string) {
    exists t :: t in owner && sha(t) == h && owner[t] == uid
  }

  /** What every run keeps: recorded hashes are distinct and belong to tokens handed to that user, and an
      accepted token is no session's current one and was accepted once. */
  ghost predicate Kept(sha: Token -> Hash, s: System) {
    && Distinct(s.table)
    && (forall sid :: sid in s.table ==> HandedTo(sha, s.owner, s.table[sid].refreshHash, s.table[sid].uid))
    && (forall sid :: sid in s.table && s.table[sid].prevHash.Some? ==>
          HandedTo(sha, s.owner, s.table[sid].prevHash.value, s.table[sid].uid))
    && (forall t :: t in s.accepted ==> t in s.owner && !IsCurrent(s.table, sha(t)))
    && (forall i, j :: 0 <= i < j < |s.accepted| ==> s.accepted[i] != s.accepted[j])
  }

  lemma FreshIsUnused(sha: Token -> Hash, s: System, token: Token)
    requires Injective(sha) && Kept(sha, s) && token !in s.owner
    ensures Unused(s.table, sha(token)) && !IsCurrent(s.table, sha(token))
  {
    forall sid | sid in s.table ensures s.table[sid].refreshHash != sha(token) {
      assert HandedTo(sha, s.owner, s.table[sid].refreshHash, s.table[sid].uid);
      var t :| t in s.owner && sha(t) == s.table[sid].refreshHash;
      assert t != token;
    }
    forall sid | sid in s.table && s.table[sid].prevHash.Some? ensures s.table[sid].prevHash.value != sha(token) {
      assert HandedTo(sha, s.owner, s.table[sid].prevHash.value, s.table[sid].uid);
      var t :| t in s.owner && sha(t) == s.table[sid].prevHash.value;
      assert t != token;
    }
  }

  /** `t'` is `t` with sessions removed. */
  ghost predicate Thinned(t: Table, t': Table) {
    forall sid :: sid in t' ==> sid in t && t'[sid] == t[sid]
  }

  lemma ThinnedKeeps(sha: Token -> Hash, s: System, t': Table)
    requires Kept(sha, s) && Thinned(s.table, t')
    ensures Kept(sha, s.(table := t'))
    ensures forall h :: IsCurrent(t', h) ==> IsCurrent(s.table, h)
  {
    forall a, h ensures HasRefresh(t', a, h) ==> HasRefresh(s.table, a, h) {}
    forall a, h ensures HasPrev(t', a, h) ==> HasPrev(s.table, a, h) {}
  }

  /** Putting a session under an id whose old hashes it keeps or drops, with a fresh refresh hash. */
  lemma PutKeepsDistinct(t: Table, sid: string, x: Session)
    requires Distinct(t) && Unused(t, x.refreshHash) && x.prevHash != Some(x.refreshHash)
    requires x.prevHash.Some? ==> HasRefresh(t, sid, x.prevHash.value)
    ensures Distinct(t[sid := x])
    ensures forall h :: IsCurrent(t[sid := x], h) ==>
              h == x.refreshHash || (IsCurrent(t, h) && !HasRefresh(t, sid, h))
  {
    var t' := t[sid := x];
    forall a, h | HasRefresh(t', a, h) ensures if a == sid then h == x.refreshHash else HasRefresh(t, a, h) {}
    forall a, h | HasPrev(t', a, h) ensures if a == sid then x.prevHash == Some(h) else HasPrev(t, a, h) {}
  }

  lemma RotationKeeps(sha: Token -> Hash, s: System, sid: string, presented: Token, newToken: Token, ok: bool)
    requires Injective(sha) && Kept(sha, s) && newToken !in s.owner && HasRefresh(s.table, sid, sha(presented))
    ensures var x := Rotated(s.table[sid], sha(newToken));
            var t' := s.table[sid := x];
            && Kept(sha, System(t', s.owner[newToken := x.uid], if ok then s.accepted + [presented] else s.accepted))
            && forall h :: IsCurrent(t', h) ==> h == sha(newToken) || (IsCurrent(s.table, h) && h != sha(presented))
  {
    var x := Rotated(s.table[sid], sha(newToken));
    var t', owner' := s.table[sid := x], s.owner[newToken := x.uid];
    FreshIsUnused(sha, s, newToken);
    assert HandedTo(sha, s.owner, s.table[sid].refreshHash, s.table[sid].uid);
    PutKeepsDistinct(s.table, sid, x);
    forall h, uid | HandedTo(sha, s.owner, h, uid) ensures HandedTo(sha, owner', h, uid) {
      var t :| t in s.owner && sha(t) == h && s.owner[t] == uid;
      assert t in owner' && owner'[t] == uid;
    }
    assert newToken in owner' && HandedTo(sha, owner', x.refreshHash, x.uid);
    var holder: Token :|
      holder in s.owner && sha(holder) == s.table[sid].refreshHash && s.owner[holder] == s.table[sid].uid;
    assert holder == presented;
    assert IsCurrent(s.table, sha(presented));
    assert !IsCurrent(t', sha(presented));
    assert presented !in s.accepted;
    var accepted' := if ok then s.accepted + [presented] else s.accepted;
    forall t | t in accepted' ensures t in owner' && !IsCurrent(t', sha(t)) {
      assert t == presented || t in s.accepted;
    }
  }

  lemma LoginKeeps(sha: Token -> Hash, s: System, sid: string, token: Token, x: Session)
    requires Injective(sha) && Kept(sha, s) && token !in s.owner && sid !in s.table
    requires x.refreshHash == sha(token) && x.prevHash == None
    ensures Kept(sha, s.(table := s.table[sid := x], owner := s.owner[token := x.uid]))
    ensures forall h :: IsCurrent(s.table[sid := x], h) ==> h == sha(token) || IsCurrent(s.table, h)
  {
    var t', owner' := s.table[sid := x], s.owner[token := x.uid];
    FreshIsUnused(sha, s, token);
    PutKeepsDistinct(s.table, sid, x);
    forall h, uid | HandedTo(sha, s.owner, h, uid) ensures HandedTo(sha, owner', h, uid) {
      var t :| t in s.owner && sha(t) == h && s.owner[t] == uid;
      assert t in owner' && owner'[t] == uid;
    }
    assert token in owner' && HandedTo(sha, owner', x.refreshHash, x.uid);
  }

  /** Only a token made in this step can become current. */
  ghost predicate NoRevival(sha: Token -> Hash, s: System, s': System) {
    forall t :: t in s.owner ==> t in s'.owner && (IsCurrent(s'.table, sha(t)) ==> IsCurrent(s.table, sha(t)))
  }

  lemma StepKeeps(sha: Token -> Hash, s: System, a: Action, s': System)
    requires Injective(sha) && Kept(sha, s) && Step(sha, s, a, s')
    ensures Kept(sha, s') && NoRevival(sha, s, s')
  {
    match a
    case Login(uid, ctxUid, sid, token, expiresAt) =>
      LoginKeeps(sha, s, sid, token, Session(uid, ctxUid, sha(token), None, expiresAt));
    case Logout(presented) =>
      ThinnedKeeps(sha, s, s'.table);
    case Refresh(presented, newToken, now, w, v) =>
      RefreshKeeps(sha, s, presented, newToken, now, w, v, s');
  }

  lemma RefreshKeeps(sha: Token -> Hash, s: System, presented: Token, newToken: Token, now: int, w: World, v: Verdict,
      s': System)
    requires Injective(sha) && Kept(sha, s) && Step(sha, s, Refresh(presented, newToken, now, w, v), s')
    ensures Kept(sha, s') && NoRevival(sha, s, s')
  {
    var h := sha(presented);
    FreshIsUnused(sha, s, newToken);
    if IsCurrent(s.table, h) {
      var sid :| HasRefresh(s.table, sid, h) &&
        if Expired(s.table[sid], now) then s'.table == s.table - {sid} && v == Denied(Gone)
        else s'.table == s.table[sid := Rotated(s.table[sid], sha(newToken))]
             && v == if w.userExists && w.signs then Accepted(s.table[sid].ctxUid) else Denied(Gone);
      if Expired(s.table[sid], now) {
        ThinnedKeeps(sha, s, s'.table);
      } else {
        RotationKeeps(sha, s, sid, presented, newToken, v.Accepted?);
        assert HasRefresh(s'.table, sid, sha(newToken));
        assert UserOf(s'.table, sha(newToken)) == s.table[sid].uid;
        assert s' == System(s'.table, s.owner[newToken := s.table[sid].uid],
                            if v.Accepted? then s.accepted + [presented] else s.accepted);
      }
    } else {
      ThinnedKeeps(sha, s, s'.table);
    }
  }

  const START := System(map[], map[], [])

  /** `states` is a run of `actions`. */
  ghost predicate Run(sha: Token -> Hash, states: seq<System>, actions: seq<Action>) {
    && |states| == |actions| + 1 && states[0] == START
    && forall i :: 0 <= i < |actions| ==> Step(sha, states[i], actions[i], states[i + 1])
  }

  lemma {:induction false} RunKeeps(sha: Token -> Hash, states: seq<System>, actions: seq<Action>, n: nat)
    requires Injective(sha) && Run(sha, states, actions) && n < |states|
    ensures Kept(sha, states[n])
  {
    if n > 0 {
      RunKeeps(sha, states, actions, n - 1);
      StepKeeps(sha, states[n - 1], actions[n - 1], states[n]);
    }
  }

  /** Over a whole run no refresh token is accepted twice. */
  lemma AcceptedAtMostOnce(sha: Token -> Hash, states: seq<System>, actions: seq<Action>, i: nat, j: nat)
    requires Injective(sha) && Run(sha, states, actions) && i < j < |actions|
    requires actions[i].Refresh? && actions[i].verdict.Accepted? && actions[j].Refresh? && actions[j].verdict.Accepted?
    ensures actions[i].presented != actions[j].presented
  {
    var t := actions[i].presented;
    RunKeeps(sha, states, actions, i + 1);
    assert t in states[i + 1].accepted;
    DeadStaysDead(sha, states, actions, i + 1, j, t);
    AcceptedWasCurrent(sha, states[j], actions[j], states[j + 1]);
  }

  /** A token handed out that no session holds as current never becomes current again. */
  lemma {:induction false} DeadStaysDead(sha: Token -> Hash, states: seq<System>, actions: seq<Action>, i: nat,
      j: nat, t: Token)
    requires Injective(sha) && Run(sha, states, actions) && i <= j < |states|
    requires t in states[i].owner && !IsCurrent(states[i].table, sha(t))
    ensures t in states[j].owner && !IsCurrent(states[j].table, sha(t))
    decreases j
  {
    if i < j {
      DeadStaysDead(sha, states, actions, i, j - 1, t);
      RunKeeps(sha, states, actions, j - 1);
      StepKeeps(sha, states[j - 1], actions[j - 1], states[j]);
    }
  }

  lemma AcceptedWasCurrent(sha: Token -> Hash, s: System, a: Action, s': System)
    requires a.Refresh? && a.verdict.Accepted? && Step(sha, s, a, s')
    ensures IsCurrent(s.table, sha(a.presented))
  {}

  /** A token is accepted exactly when it is the current one of an unexpired session and the surroundings agree;
      the session then goes on under the new token, for the same user and until the same time. The current token of
      an expired session ends that session and no other. */
  lemma AcceptedIff(sha: Token -> Hash, s: System, a: Action, s': System)
    requires Distinct(s.table) && a.Refresh? && Step(sha, s, a, s')
    ensures a.verdict.Accepted? <==>
              a.world.userExists && a.world.signs
              && exists sid :: HasRefresh(s.table, sid, sha(a.presented)) && a.now < s.table[sid].expiresAt
    ensures forall sid :: HasRefresh(s.table, sid, sha(a.presented)) && a.now < s.table[sid].expiresAt ==>
              && HasRefresh(s'.table, sid, sha(a.newToken)) && HasPrev(s'.table, sid, sha(a.presented))
              && s'.table[sid].uid == s.table[sid].uid && s'.table[sid].expiresAt == s.table[sid].expiresAt
              && s'.table[sid].ctxUid == s.table[sid].ctxUid && s'.table - {sid} == s.table - {sid}
              && (a.verdict.Accepted? ==> a.verdict.ctxUid == s.table[sid].ctxUid)
    ensures forall sid :: HasRefresh(s.table, sid, sha(a.presented)) && a.now >= s.table[sid].expiresAt ==>
              s'.table == s.table - {sid} && a.verdict == Denied(Gone)
  {
    var h := sha(a.presented);
    if IsCurrent(s.table, h) {
      var sid :| HasRefresh(s.table, sid, h) &&
        if Expired(s.table[sid], a.now) then s'.table == s.table - {sid} && a.verdict == Denied(Gone)
        else s'.table == s.table[sid := Rotated(s.table[sid], sha(a.newToken))]
             && a.verdict ==
                if a.world.userExists && a.world.signs then Accepted(s.table[sid].ctxUid) else Denied(Gone);
    } else {
      forall sid ensures !HasRefresh(s.table, sid, h) {}
    }
  }

  /** A token that is neither current nor just replaced changes nothing. */
  lemma UnknownIsRefused(sha: Token -> Hash, s: System, a: Action, s': System)
    requires a.Refresh? && Step(sha, s, a, s')
    requires forall sid :: sid in s.table ==>
               s.table[sid].refreshHash != sha(a.presented) && s.table[sid].prevHash != Some(sha(a.presented))
    ensures s'.table == s.table && a.verdict == Denied(Gone)
  {}

  /** Presenting the just-replaced token of a live session ends every session of that user and no other. */
  lemma ReuseEndsUser(sha: Token -> Hash, s: System, a: Action, s': System, sid: string)
    requires Injective(sha) && Kept(sha, s) && a.Refresh? && Step(sha, s, a, s')
    requires HasPrev(s.table, sid, sha(a.presented))
    ensures a.verdict == Denied(ReuseRevoked) && s'.table == WithoutUser(s.table, s.table[sid].uid)
    ensures forall at :: at in s'.table <==> at in s.table && s.table[at].uid != s.table[sid].uid
    ensures forall at :: at in s'.table ==> s'.table[at] == s.table[at]
    ensures forall t :: t in s'.owner && s'.owner[t] == s.table[sid].uid ==> !IsCurrent(s'.table, sha(t))
  {
    assert IsPrevious(s.table, sha(a.presented));
    StepKeeps(sha, s, a, s');
    forall t, at | t in s'.owner && s'.owner[t] == s.table[sid].uid && at in s'.table
      ensures !HasRefresh(s'.table, at, sha(t))
    {
      assert HandedTo(sha, s'.owner, s'.table[at].refreshHash, s'.table[at].uid);
      var holder :|
        holder in s'.owner && sha(holder) == s'.table[at].refreshHash && s'.owner[holder] == s'.table[at].uid;
      assert holder != t;
    }
  }

  /** After such a reuse, no token the user had been handed by then is ever accepted again. */
  lemma ReuseIsFinal(sha: Token -> Hash, states: seq<System>, actions: seq<Action>, i: nat, j: nat, sid: string)
    requires Injective(sha) && Run(sha, states, actions) && i < j < |actions|
    requires actions[i].Refresh? && HasPrev(states[i].table, sid, sha(actions[i].presented))
    requires actions[j].Refresh? && actions[j].verdict.Accepted?
    ensures actions[j].presented in states[i + 1].owner ==>
              states[i + 1].owner[actions[j].presented] != states[i].table[sid].uid
  {
    var t := actions[j].presented;
    RunKeeps(sha, states, actions, i);
    ReuseEndsUser(sha, states[i], actions[i], states[i + 1], sid);
    AcceptedWasCurrent(sha, states[j], actions[j], states[j + 1]);
    if t in states[i + 1].owner && states[i + 1].owner[t] == states[i].table[sid].uid {
      DeadStaysDead(sha, states, actions, i + 1, j, t);
    }
  }

  /** Over every run, a reuse leaves current every token that is current for another user. */
  lemma ReuseSparesOthers(sha: Token -> Hash, states: seq<System>, actions: seq<Action>, i: nat, sid: string, t: Token)
    requires Injective(sha) && Run(sha, states, actions) && i < |actions|
    requires actions[i].Refresh? && HasPrev(states[i].table, sid, sha(actions[i].presented))
    requires t in states[i].owner && states[i].owner[t] != states[i].table[sid].uid
    requires IsCurrent(states[i].table, sha(t))
    ensures IsCurrent(states[i + 1].table, sha(t))
  {
    RunKeeps(sha, states, actions, i);
    ReuseEndsUser(sha, states[i], actions[i], states[i + 1], sid);
    var at :| HasRefresh(states[i].table, at, sha(t));
    assert HandedTo(sha, states[i].owner, states[i].table[at].refreshHash, states[i].table[at].uid);
    assert HasRefresh(states[i + 1].table, at, sha(t));
  }

  lemma LogoutEnds(t: Table, h: Hash, t': Table)
    requires Distinct(t) && LogsOut(t, h, t')
    ensures !IsCurrent(t', h) && forall sid :: sid in t' <==> sid in t && !HasRefresh(t, sid, h)
  {
    if IsCurrent(t, h) {
      var ended :| HasRefresh(t, ended, h) && t' == t - {ended};
      forall sid | sid in t ensures HasRefresh(t, sid, h) <==> sid == ended {}
      forall sid | sid in t' ensures !HasRefresh(t', sid, h) {
        assert t'[sid] == t[sid];
      }
    } else {
      forall sid ensures !HasRefresh(t, sid, h) {}
    }
  }

  /** Logging out ends the session that holds the token as current, and no other; the token is dead from then on. */
  lemma LogoutIsFinal(sha: Token -> Hash, states: seq<System>, actions: seq<Action>, i: nat, j: nat)
    requires Injective(sha) && Run(sha, states, actions) && i < j < |actions|
    requires actions[i].Logout? && actions[i].presented in states[i].owner
    ensures forall sid :: sid in states[i + 1].table <==>
              sid in states[i].table && !HasRefresh(states[i].table, sid, sha(actions[i].presented))
    ensures forall sid :: sid in states[i + 1].table ==> states[i + 1].table[sid] == states[i].table[sid]
    ensures actions[j].Refresh? && actions[j].verdict.Accepted? ==> actions[j].presented != actions[i].presented
  {
    var t, h := actions[i].presented, sha(actions[i].presented);
    RunKeeps(sha, states, actions, i);
    assert Step(sha, states[i], actions[i], states[i + 1]);
    LogoutEnds(states[i].table, h, states[i + 1].table);
    DeadStaysDead(sha, states, actions, i + 1, j, t);
    if actions[j].Refresh? && actions[j].verdict.Accepted? {
      AcceptedWasCurrent(sha, states[j], actions[j], states[j + 1]);
    }
  }

  /** A refresh that replaces the token it was given: some unexpired session holds it as current. The store has
      rotated by then, whatever becomes of the answer. */
  ghost predicate Replaces(sha: Token -> Hash, t: Table, a: Action) {
    a.Refresh? && exists sid :: HasRefresh(t, sid, sha(a.presented)) && !Expired(t[sid], a.now)
  }

  lemma AcceptedReplaces(sha: Token -> Hash, s: System, a: Action, s': System)
    requires a.Refresh? && a.verdict.Accepted? && Step(sha, s, a, s')
    ensures Replaces(sha, s.table, a)
  {
    var sid :| HasRefresh(s.table, sid, sha(a.presented)) && !Expired(s.table[sid], a.now);
  }

  lemma Rotates(sha: Token -> Hash, s: System, a: Action, s': System) returns (sid: string)
    requires Injective(sha) && Kept(sha, s) && Replaces(sha, s.table, a) && Step(sha, s, a, s')
    ensures HasRefresh(s.table, sid, sha(a.presented))
    ensures s'.table == s.table[sid := Rotated(s.table[sid], sha(a.newToken))]
    ensures s'.owner == s.owner[a.newToken := s.table[sid].uid]
    ensures a.presented in s.owner && s.owner[a.presented] == s.table[sid].uid
    ensures !IsCurrent(s'.table, sha(a.presented))
  {
    sid :| HasRefresh(s.table, sid, sha(a.presented)) && !Expired(s.table[sid], a.now);
    assert IsCurrent(s.table, sha(a.presented));
    assert HandedTo(sha, s.owner, s.table[sid].refreshHash, s.table[sid].uid);
    assert HasRefresh(s'.table, sid, sha(a.newToken));
    StepKeeps(sha, s, a, s');
    RotationKeeps(sha, s, sid, a.presented, a.newToken, a.verdict.Accepted?);
  }

  /** The reuse trap of `t` is set in exactly the session that its successor `n` is current in. */
  ghost predicate Trapped(sha: Token -> Hash, t: Table, replaced: Token, next: Token) {
    forall sid :: HasPrev(t, sid, sha(replaced)) <==> HasRefresh(t, sid, sha(next))
  }

  lemma RotationSetsTrap(sha: Token -> Hash, s: System, a: Action, s': System)
    requires Injective(sha) && Kept(sha, s) && Replaces(sha, s.table, a) && Step(sha, s, a, s')
    ensures GaveWay(sha, s', a.presented, a.newToken) && IsCurrent(s'.table, sha(a.newToken))
  {
    FreshIsUnused(sha, s, a.newToken);
    var sid := Rotates(sha, s, a, s');
    var replaced, next := sha(a.presented), sha(a.newToken);
    assert HasRefresh(s'.table, sid, next);
    forall at ensures HasPrev(s'.table, at, replaced) <==> HasRefresh(s'.table, at, next) {
      if at != sid {
        assert !HasPrev(s.table, at, replaced) && !HasRefresh(s.table, at, next);
      }
    }
  }

  /** A session put under `sid` for a login or a rotation moves the trap only with the successor. */
  lemma PutKeepsTrap(sha: Token -> Hash, t: Table, sid: string, x: Session, replaced: Token, next: Token)
    requires Trapped(sha, t, replaced, next) && Distinct(t) && x.refreshHash != sha(next)
    requires x.prevHash.Some? ==> HasRefresh(t, sid, x.prevHash.value)
    requires !IsCurrent(t, sha(replaced)) && (x.prevHash == None ==> sid !in t)
    ensures Trapped(sha, t[sid := x], replaced, next)
  {
    var t' := t[sid := x];
    forall at ensures HasPrev(t', at, sha(replaced)) <==> HasRefresh(t', at, sha(next)) {
      if at == sid {
        assert x.prevHash != Some(sha(replaced));
      } else {
        assert HasPrev(t', at, sha(replaced)) <==> HasPrev(t, at, sha(replaced));
        assert HasRefresh(t', at, sha(next)) <==> HasRefresh(t, at, sha(next));
      }
    }
  }

  lemma ThinnedKeepsTrap(sha: Token -> Hash, t: Table, t': Table, replaced: Token, next: Token)
    requires Trapped(sha, t, replaced, next) && Thinned(t, t')
    ensures Trapped(sha, t', replaced, next)
  {
    forall at ensures HasPrev(t', at, sha(replaced)) <==> HasRefresh(t', at, sha(next)) {
      if at in t' {
        assert HasPrev(t, at, sha(replaced)) <==> HasRefresh(t, at, sha(next));
      }
    }
  }

  lemma StepKeepsTrap(sha: Token -> Hash, s: System, a: Action, s': System, replaced: Token, next: Token)
    requires Injective(sha) && Kept(sha, s) && Step(sha, s, a, s') && Trapped(sha, s.table, replaced, next)
    requires next in s.owner && !IsCurrent(s.table, sha(replaced))
    ensures Trapped(sha, s'.table, replaced, next)
  {
    match a
    case Login(uid, ctxUid, sid, token, expiresAt) =>
      PutKeepsTrap(sha, s.table, sid, Session(uid, ctxUid, sha(token), None, expiresAt), replaced, next);
    case Logout(_) => ThinnedKeepsTrap(sha, s.table, s'.table, replaced, next);
    case Refresh(presented, newToken, now, w, v) =>
      if IsCurrent(s.table, sha(presented)) {
        var sid :| HasRefresh(s.table, sid, sha(presented)) &&
          if Expired(s.table[sid], now) then s'.table == s.table - {sid} && v == Denied(Gone)
          else s'.table == s.table[sid := Rotated(s.table[sid], sha(newToken))]
               && v == if w.userExists && w.signs then Accepted(s.table[sid].ctxUid) else Denied(Gone);
        if Expired(s.table[sid], now) {
          ThinnedKeepsTrap(sha, s.table, s'.table, replaced, next);
        } else {
          PutKeepsTrap(sha, s.table, sid, Rotated(s.table[sid], sha(newToken)), replaced, next);
        }
      } else {
        ThinnedKeepsTrap(sha, s.table, s'.table, replaced, next);
      }
  }

  /** `replaced` has given way to `next`: it is dead, and its trap follows its successor. */
  ghost predicate GaveWay(sha: Token -> Hash, s: System, replaced: Token, next: Token) {
    && Trapped(sha, s.table, replaced, next) && !IsCurrent(s.table, sha(replaced))
    && replaced in s.owner && next in s.owner
  }

  lemma StaysGivenWay(sha: Token -> Hash, s: System, a: Action, s': System, replaced: Token, next: Token)
    requires Injective(sha) && Kept(sha, s) && Step(sha, s, a, s') && GaveWay(sha, s, replaced, next)
    ensures GaveWay(sha, s', replaced, next)
  {
    StepKeeps(sha, s, a, s');
    StepKeepsTrap(sha, s, a, s', replaced, next);
  }

  lemma {:induction false} TrapStays(sha: Token -> Hash, states: seq<System>, actions: seq<Action>, i: nat, j: nat,
                                     replaced: Token, next: Token)
    requires Injective(sha) && Run(sha, states, actions) && i <= j < |states| && GaveWay(sha, states[i], replaced, next)
    ensures GaveWay(sha, states[j], replaced, next)
    decreases j
  {
    if i < j {
      TrapStays(sha, states, actions, i, j - 1, replaced, next);
      RunKeeps(sha, states, actions, j - 1);
      StaysGivenWay(sha, states[j - 1], actions[j - 1], states[j], replaced, next);
    }
  }

  lemma ReplacedGivesWay(sha: Token -> Hash, states: seq<System>, actions: seq<Action>, i: nat, j: nat)
    requires Injective(sha) && Run(sha, states, actions) && i < j < |states| && i < |actions|
    requires Replaces(sha, states[i].table, actions[i])
    ensures GaveWay(sha, states[j], actions[i].presented, actions[i].newToken)
    ensures j == i + 1 ==> IsCurrent(states[j].table, sha(actions[i].newToken))
  {
    RunKeeps(sha, states, actions, i);
    RotationSetsTrap(sha, states[i], actions[i], states[i + 1]);
    TrapStays(sha, states, actions, i + 1, j, actions[i].presented, actions[i].newToken);
  }

  /** Over every run, a token presented again after it was replaced, whether or not that refresh was then denied, is
      caught as reuse exactly while the token that replaced it is current, so always right after; otherwise it is just
      refused and nothing changes. */
  lemma CaughtIff(sha: Token -> Hash, states: seq<System>, actions: seq<Action>, i: nat, j: nat)
    requires Injective(sha) && Run(sha, states, actions) && i < j < |actions|
    requires Replaces(sha, states[i].table, actions[i])
    requires actions[j].Refresh? && actions[j].presented == actions[i].presented
    ensures actions[j].verdict == Denied(ReuseRevoked) <==> IsCurrent(states[j].table, sha(actions[i].newToken))
    ensures actions[j].verdict != Denied(ReuseRevoked) ==>
              actions[j].verdict == Denied(Gone) && states[j + 1].table == states[j].table
    ensures j == i + 1 ==> actions[j].verdict == Denied(ReuseRevoked)
  {
    ReplacedGivesWay(sha, states, actions, i, j);
    var t, h := states[j].table, sha(actions[i].presented);
    assert Step(sha, states[j], actions[j], states[j + 1]);
    assert IsPrevious(t, h) <==> IsCurrent(t, sha(actions[i].newToken)) by {
      forall sid ensures HasPrev(t, sid, h) <==> HasRefresh(t, sid, sha(actions[i].newToken)) {}
    }
  }

  /** In particular after it was accepted. */
  lemma AcceptedCaughtIff(sha: Token -> Hash, states: seq<System>, actions: seq<Action>, i: nat, j: nat)
    requires Injective(sha) && Run(sha, states, actions) && i < j < |actions|
    requires actions[i].Refresh? && actions[i].verdict.Accepted?
    requires actions[j].Refresh? && actions[j].presented == actions[i].presented
    ensures actions[j].verdict == Denied(ReuseRevoked) <==> IsCurrent(states[j].table, sha(actions[i].newToken))
  {
    AcceptedReplaces(sha, states[i], actions[i], states[i + 1]);
    CaughtIff(sha, states, actions, i, j);
  }

  /** A refresh that is denied for its user or its binding has replaced the token all the same, so presenting the token
      again ends every session of the user. */
  lemma DeniedRetryRevokes(sha: Token -> Hash, states: seq<System>, actions: seq<Action>, i: nat)
    requires Injective(sha) && Run(sha, states, actions) && i + 1 < |actions|
    requires Replaces(sha, states[i].table, actions[i]) && actions[i].verdict.Denied?
    requires actions[i + 1].Refresh? && actions[i + 1].presented == actions[i].presented
    ensures actions[i].verdict == Denied(Gone) && !(actions[i].world.userExists && actions[i].world.signs)
    ensures actions[i].presented in states[i].owner && actions[i + 1].verdict == Denied(ReuseRevoked)
    ensures states[i + 2].table == WithoutUser(states[i + 1].table, states[i].owner[actions[i].presented])
  {
    RunKeeps(sha, states, actions, i);
    RunKeeps(sha, states, actions, i + 1);
    AcceptedIff(sha, states[i], actions[i], states[i + 1]);
    var sid := Rotates(sha, states[i], actions[i], states[i + 1]);
    ReuseEndsUser(sha, states[i + 1], actions[i + 1], states[i + 2], sid);
  }

  /** So a token replaced two or more rotations ago is forgotten: presenting it, however much later, is refused and
      revokes nothing. */
  lemma OlderTokenIsForgotten(sha: Token -> Hash, states: seq<System>, actions: seq<Action>, i: nat, m: nat, j: nat)
    requires Injective(sha) && Run(sha, states, actions) && i < m < j < |actions|
    requires Replaces(sha, states[i].table, actions[i])
    requires Replaces(sha, states[m].table, actions[m]) && actions[m].presented == actions[i].newToken
    requires actions[j].Refresh? && actions[j].presented == actions[i].presented
    ensures actions[j].verdict == Denied(Gone) && states[j + 1].table == states[j].table
  {
    CaughtIff(sha, states, actions, i, j);
    ReplacedGivesWay(sha, states, actions, m, j);
  }

  /** Such a run: a login, two rotations, and the first token once more. */
  lemma ForgottenTokenExists(sha: Token -> Hash) returns (states: seq<System>, actions: seq<Action>)
    requires Injective(sha)
    ensures Run(sha, states, actions) && |actions| == 4
    ensures forall n :: 1 <= n <= 3 ==> actions[n].Refresh?
    ensures actions[1].verdict.Accepted? && actions[2].verdict.Accepted? && actions[2].presented == actions[1].newToken
    ensures actions[3].presented == actions[1].presented && actions[3].verdict == Denied(Gone)
    ensures states[4].table == states[3].table && states[3].table != map[]
  {
    var w := World(true, true);
    var login := Login("u", "c", "s", "a", 9);
    var first := Refresh("a", "b", 0, w, Accepted("c"));
    var second := Refresh("b", "d", 0, w, Accepted("c"));
    var again := Refresh("a", "e", 0, w, Denied(Gone));
    Differ(sha);
    var x0 := Session("u", "c", sha("a"), None, 9);
    var x1 := Rotated(x0, sha("b"));
    var x2 := Rotated(x1, sha("d"));
    var s1 := System(map["s" := x0], map["a" := "u"], []);
    var s2 := System(map["s" := x1], map["a" := "u", "b" := "u"], ["a"]);
    var s3 := System(map["s" := x2], map["a" := "u", "b" := "u", "d" := "u"], ["a", "b"]);
    OneSession(s1.table, "s", x0);
    OneSession(s2.table, "s", x1);
    OneSession(s3.table, "s", x2);
    assert Step(sha, START, login, s1);
    assert HasRefresh(s1.table, "s", sha("a")) && HasRefresh(s2.table, "s", sha("b"));
    assert HasRefresh(s3.table, "s", sha("d"));
    assert s2.table == s1.table["s" := x1] && s3.table == s2.table["s" := x2];
    assert UserOf(s2.table, sha("b")) == "u" && UserOf(s3.table, sha("d")) == "u";
    assert [] + ["a"] == ["a"] && ["a"] + ["b"] == ["a", "b"];
    assert Step(sha, s1, first, s2);
    assert Step(sha, s2, second, s3);
    assert Step(sha, s3, again, s3);
    states, actions := [START, s1, s2, s3, s3], [login, first, second, again];
  }

  /** A table of one session. */
  lemma OneSession(t: Table, sid: string, x: Session)
    requires t == map[sid := x]
    ensures forall h :: IsCurrent(t, h) <==> h == x.refreshHash
    ensures forall h :: IsPrevious(t, h) <==> x.prevHash == Some(h)
    ensures IsCurrent(t, x.refreshHash) && UserOf(t, x.refreshHash) == x.uid
  {
    assert sid in t && HasRefresh(t, sid, x.refreshHash);
    forall h ensures IsPrevious(t, h) <==> x.prevHash == Some(h) {
      assert HasPrev(t, sid, h) <==> x.prevHash == Some(h);
    }
    forall h ensures IsCurrent(t, h) <==> h == x.refreshHash {
      assert HasRefresh(t, sid, h) <==> x.refreshHash == h;
    }
  }

  lemma Differ(sha: Token -> Hash)
    requires Injective(sha)
    ensures sha("a") != sha("b") && sha("b") != sha("d") && sha("a") != sha("d")
    ensures sha("e") != sha("a") && sha("e") != sha("b") && sha("e") != sha("d")
  {
    assert "a"[0] != "b"[0] && "b"[0] != "d"[0] && "a"[0] != "d"[0];
    assert "e"[0] != "a"[0] && "e"[0] != "b"[0] && "e"[0] != "d"[0];
  }
}
