/**
 * Plain in-memory sessions (`SessionAuth`): a map from session id to user
 * id that `create_session` adds to, `user_id_for_session_id` reads and
 * `destroy_session` deletes from. The functions below give each operation
 * as a transition of the map; the class `SessionAuth` performs them in
 * place and is proved to agree with them.
 */
module Sessions {
  import opened Types
  import opened AuthPolicy

  /** `user_id_by_session_id`: session id to user id. */
  type SessionMap = map<string, string>

  /** `user_id_for_session_id`: the stored user id for a string id, else `None`. */
  function Lookup(sessions: SessionMap, sessionId: Arg): (u: Option<string>)
    ensures u.Some? <==> sessionId.Str? && sessionId.s in sessions
    ensures u.Some? ==> u.value == sessions[sessionId.s]
  {
    if sessionId.Str? && sessionId.s in sessions then Some(sessions[sessionId.s]) else None
  }

  /** What `create_session` returns, and the map it leaves. */
  datatype Created = Created(sessionId: Option<string>, sessions: SessionMap)

  /**
   * `create_session(userId)`, where `freshId` is the id `uuid4` draws. A
   * non-string user id is refused; otherwise exactly the new id is bound.
   */
  function Create(sessions: SessionMap, userId: Arg, freshId: string): (c: Created)
    ensures !userId.Str? ==> c == Created(None, sessions)
    ensures userId.Str? ==> c.sessionId == Some(freshId) && Lookup(c.sessions, Str(freshId)) == Some(userId.s)
    ensures userId.Str? ==> c.sessions.Keys == sessions.Keys + {freshId}
    ensures forall k :: k != freshId ==> Lookup(c.sessions, Str(k)) == Lookup(sessions, Str(k))
  {
    if userId.Str? then Created(Some(freshId), sessions[freshId := userId.s])
    else Created(None, sessions)
  }

  /** What `destroy_session` returns, and the map it leaves. */
  datatype Destroyed = Destroyed(ok: bool, sessions: SessionMap)

  /**
   * `destroy_session(request)`: the session named by the request's cookie
   * is deleted when it resolves to a user; otherwise nothing changes and
   * the answer is `False`.
   */
  function Destroy(sessions: SessionMap, request: Option<Request>, sessionName: Option<string>): (d: Destroyed)
    ensures var cookie := SessionCookie(request, sessionName);
      d.ok <==> cookie.Some? && cookie.value in sessions
    ensures !d.ok ==> d.sessions == sessions
    ensures d.ok ==> var id := SessionCookie(request, sessionName).value;
      && d.sessions.Keys == sessions.Keys - {id}
      && Lookup(d.sessions, Str(id)) == None
      && forall k :: k != id ==> Lookup(d.sessions, Str(k)) == Lookup(sessions, Str(k))
  {
    var sessionId := SessionCookie(request, sessionName);
    var userId := Lookup(sessions, ArgOf(sessionId));
    if request.None? || sessionId.None? || userId.None? then Destroyed(false, sessions)
    else Destroyed(true, if sessionId.value in sessions then sessions - {sessionId.value} else sessions)
  }

  /** Looking up the id `create_session` returns gives back the user id. */
  lemma CreateThenLookup(sessions: SessionMap, userId: string, freshId: string)
    ensures var c := Create(sessions, Str(userId), freshId);
      c.sessionId.Some? && Lookup(c.sessions, ArgOf(c.sessionId)) == Some(userId)
  {
  }

  /**
   * Two sessions for one user: with fresh ids, the two calls return
   * distinct ids and both resolve to the user.
   */
  lemma TwoSessionsForOneUser(sessions: SessionMap, userId: string, id1: string, id2: string)
    requires id1 !in sessions
    requires id2 !in Create(sessions, Str(userId), id1).sessions
    ensures var c1 := Create(sessions, Str(userId), id1);
      var c2 := Create(c1.sessions, Str(userId), id2);
      && c1.sessionId != c2.sessionId
      && Lookup(c2.sessions, ArgOf(c1.sessionId)) == Some(userId)
      && Lookup(c2.sessions, ArgOf(c2.sessionId)) == Some(userId)
  {
  }

  /** Destroying a freshly created session gives back the map as it was. */
  lemma DestroyUndoesCreate(sessions: SessionMap, userId: string, freshId: string,
                            request: Option<Request>, sessionName: Option<string>)
    requires freshId !in sessions
    requires SessionCookie(request, sessionName) == Some(freshId)
    ensures var c := Create(sessions, Str(userId), freshId);
      Destroy(c.sessions, request, sessionName) == Destroyed(true, sessions)
  {
    var c := Create(sessions, Str(userId), freshId);
    assert c.sessions - {freshId} == sessions;
  }

  /** A destroyed session cannot be destroyed again: the second call fails and changes nothing. */
  lemma DestroyTwice(sessions: SessionMap, request: Option<Request>, sessionName: Option<string>)
    ensures var d := Destroy(sessions, request, sessionName);
      Destroy(d.sessions, request, sessionName) == Destroyed(false, d.sessions)
  {
  }

  /** `SessionAuth`, with its map updated in place. */
  class SessionAuth {
    var userIdBySessionId: SessionMap

    constructor ()
      ensures userIdBySessionId == map[]
    {
      userIdBySessionId := map[];
    }

    /** `create_session`; `freshId` is the `uuid4` draw, never already a key. */
    method CreateSession(userId: Arg, freshId: string) returns (sessionId: Option<string>)
      requires freshId !in userIdBySessionId
      modifies this
      ensures Created(sessionId, userIdBySessionId) == Create(old(userIdBySessionId), userId, freshId)
    {
      sessionId := None;
      if userId.Str? {
        userIdBySessionId := userIdBySessionId[freshId := userId.s];
        sessionId := Some(freshId);
      }
    }

    /**
     * `user_id_for_session_id`: reads the map, never changes it. What a
     * lookup answers is stated on `Lookup`.
     */
    function UserIdForSessionId(sessionId: Arg): (u: Option<string>)
      reads this
      ensures u == Lookup(userIdBySessionId, sessionId)
    {
      Lookup(userIdBySessionId, sessionId)
    }

    /** `destroy_session`; `sessionName` is the value of `SESSION_NAME`. */
    method DestroySession(request: Option<Request>, sessionName: Option<string>) returns (ok: bool)
      modifies this
      ensures Destroyed(ok, userIdBySessionId) == Destroy(old(userIdBySessionId), request, sessionName)
    {
      var sessionId := SessionCookie(request, sessionName);
      var userId := UserIdForSessionId(ArgOf(sessionId));
      if request.None? || sessionId.None? || userId.None? {
        return false;
      }
      if sessionId.value in userIdBySessionId {
        userIdBySessionId := userIdBySessionId - {sessionId.value};
      }
      return true;
    }
  }
}
