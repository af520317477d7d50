/** The in-memory session store, the session service and the coordinator, in place. */
module SessionStore {
  import opened Wrappers
  import opened SessionModel
  import opened SessionHistory

  class Store {
    var sessions: Sessions

    constructor ()
      ensures sessions == map[]
    {
      sessions := map[];
    }

    method CreateWithKind(token: Id, publicId: Id, user: Id, expiresAt: int, kind: Kind, pair: Option<Id>)
      modifies this
      ensures sessions == old(sessions)[token := Stored(Session(user, expiresAt, kind, pair, []), publicId)]
    {
      sessions := sessions[token := Stored(Session(user, expiresAt, kind, pair, []), publicId)];
    }

    method Revoke(token: Id)
      modifies this
      ensures sessions == old(sessions) - {token}
    {
      sessions := sessions - {token};
    }

    method RevokePair(pair: Id, exceptToken: Id)
      modifies this
      ensures sessions == WithoutPair(old(sessions), pair, exceptToken)
    {
      var left := sessions.Keys;
      ghost var was := sessions;
      while left != {}
        invariant left <= was.Keys
        invariant forall t :: t in sessions <==>
                    t in was && (t in left || !(was[t].session.pair == Some(pair) && t != exceptToken))
        invariant forall t :: t in sessions ==> sessions[t] == was[t]
        decreases left
      {
        var t :| t in left;
        left := left - {t};
        if sessions[t].session.pair == Some(pair) && t != exceptToken {
          sessions := sessions - {t};
        }
      }
    }

    /** Removes one session the user owns under that public id; as public ids are unique in
        every reachable store, that is the one meant. */
    method RevokeById(user: Id, publicId: Id, now: int) returns (r: Result<(), SessionError>)
      modifies this
      ensures r.Ok? <==> exists t :: t in old(sessions) && OwnsId(old(sessions)[t], user, publicId, now)
      ensures r.Ok? ==> exists t :: t in old(sessions) && OwnsId(old(sessions)[t], user, publicId, now)
                                    && sessions == old(sessions) - {t}
      ensures r.Err? ==> r.error == Forbidden && sessions == old(sessions)
      ensures UniqueIds(old(sessions)) ==> sessions == WithoutId(old(sessions), user, publicId, now)
    {
      var owned := set t | t in sessions && OwnsId(sessions[t], user, publicId, now);
      if owned == {} {
        assert forall t :: t in sessions ==> t !in owned;
        return Err(Forbidden);
      }
      var token :| token in owned;
      assert UniqueIds(sessions) ==>
          forall t :: t in sessions && OwnsId(sessions[t], user, publicId, now) ==> t == token;
      sessions := sessions - {token};
      return Ok(());
    }

    /** The loop over `values_mut` that every membership change goes through. */
    method MutateMemberships(e: MembershipEvent)
      modifies this
      ensures sessions == Synchronize(old(sessions), e)
    {
      var left := sessions.Keys;
      ghost var was := sessions;
      while left != {}
        invariant left <= was.Keys && sessions.Keys == was.Keys
        invariant forall t :: t in was ==> sessions[t] == if t in left then was[t] else Update(was[t], e)
        decreases left
      {
        var t :| t in left;
        left := left - {t};
        if sessions[t].session.user == e.user {
          var list := ApplyToList(sessions[t].session.memberships, e);
          sessions := sessions[t := sessions[t].(session := sessions[t].session.(memberships := list))];
        }
      }
    }
  }

  class Service {
    const config: Config
    const store: Store

    constructor (config: Config, store: Store)
      ensures this.config == config && this.store == store
    {
      this.config, this.store := config, store;
    }

    method IssueSession(token: Id, publicId: Id, user: Id, kind: Kind, pair: Option<Id>, now: int)
      returns (expiresAt: int)
      modifies store
      ensures expiresAt == now + Duration(config, kind)
      ensures store.sessions == Apply(old(store.sessions), Call(now, Issue(token, publicId, user, kind, pair)), config)
    {
      var duration := match kind
        case Access => config.accessSeconds
        case LongLived => config.longSeconds
        case Refresh => config.refreshSeconds;
      expiresAt := now + duration;
      store.CreateWithKind(token, publicId, user, expiresAt, kind, pair);
    }

    method Validate(token: Id, now: int) returns (r: Result<Session, SessionError>)
      ensures r == match FindValid(store.sessions, token, now) case Some(s) => Ok(s) case None => Err(InvalidToken)
    {
      if token !in store.sessions || Expired(store.sessions[token].session, now) {
        return Err(InvalidToken);
      }
      return Ok(store.sessions[token].session);
    }

    method CheckAccess(token: Id, now: int) returns (r: Result<Session, SessionError>)
      ensures r == ValidateAccess(store.sessions, token, now)
    {
      r := Validate(token, now);
      if r.Ok? && !IsAccess(r.value.kind) {
        r := Err(InvalidToken);
      }
    }

    method Invalidate(token: Id)
      modifies store
      ensures forall now :: store.sessions == Apply(old(store.sessions), Call(now, Revoke(token)), config)
    {
      store.Revoke(token);
    }

    method InvalidateWithPair(token: Id, now: int) returns (r: Result<(), SessionError>)
      modifies store
      ensures store.sessions == Apply(old(store.sessions), Call(now, InvalidateBoth(token)), config)
      ensures r == if FindValid(old(store.sessions), token, now).Some? then Ok(()) else Err(InvalidToken)
    {
      var session := Validate(token, now);
      if session.Err? {
        return Err(session.error);
      }
      store.Revoke(token);
      if session.value.pair.Some? {
        store.RevokePair(session.value.pair.value, token);
      }
      return Ok(());
    }

    /** The coordinator's event handler. */
    method HandleMembershipEvent(e: MembershipEvent)
      modifies store
      ensures forall now :: store.sessions == Apply(old(store.sessions), Call(now, Member(e)), config)
    {
      if !config.syncEnabled {
        return;
      }
      store.MutateMemberships(e);
    }
  }
}
