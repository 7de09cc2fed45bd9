/**
 * Expiring sessions kept in storage (`SessionDBAuth`). `create_session`
 * still writes the in-memory record of the expiring layer, and also saves a
 * `UserSession` record; lookups and destruction consult only the stored
 * records, always taking the first one that matches.
 *
 * The storage collaborator is a sequence of records in storage order:
 * `save()` appends, `search()` filters in order and may raise, `remove()`
 * deletes the record it is called on. A raising search is the parameter
 * `searchRaises`; the layer turns it into `None` or `False`.
 */
module PersistentSessions {
  import opened Types
  import opened AuthPolicy
  import ExpiringSessions

  /** A stored `UserSession`: its `created_at` is the instant it was saved. */
  datatype UserSession = UserSession(userId: string, sessionId: string, createdAt: int)

  /** `UserSession.search({'session_id': sessionId})`: the matching records, in storage order. */
  function Search(storage: seq<UserSession>, sessionId: Arg): (found: seq<UserSession>)
    ensures |found| <= |storage|
  {
    if storage == [] then []
    else (if sessionId == Str(storage[0].sessionId) then [storage[0]] else []) + Search(storage[1..], sessionId)
  }

  /** The search finds exactly the stored records carrying the id. */
  lemma {:induction false} SearchFinds(storage: seq<UserSession>, sessionId: Arg)
    ensures forall r :: r in Search(storage, sessionId) <==> r in storage && sessionId == Str(r.sessionId)
  {
    if storage != [] {
      SearchFinds(storage[1..], sessionId);
      assert storage == [storage[0]] + storage[1..];
    }
  }

  /** Searching two stretches of storage finds the first stretch's matches first. */
  lemma {:induction false} SearchAppend(a: seq<UserSession>, b: seq<UserSession>, sessionId: Arg)
    ensures Search(a + b, sessionId) == Search(a, sessionId) + Search(b, sessionId)
  {
    if a != [] {
      var ab := a + b;
      assert ab != [] && ab[0] == a[0] && ab[1..] == a[1..] + b;
      SearchAppend(a[1..], b, sessionId);
      var first := if sessionId == Str(a[0].sessionId) then [a[0]] else [];
      calc {
        Search(ab, sessionId);
        first + Search(a[1..] + b, sessionId);
        first + (Search(a[1..], sessionId) + Search(b, sessionId));
        (first + Search(a[1..], sessionId)) + Search(b, sessionId);
      }
    } else {
      assert a + b == b;
    }
  }

  /** `sessions[0].remove()`: deletes the first stored record with this session id. */
  function RemoveFirst(storage: seq<UserSession>, sessionId: string): (rest: seq<UserSession>)
    ensures Search(storage, Str(sessionId)) == [] ==> rest == storage
    ensures Search(storage, Str(sessionId)) != [] ==> |rest| == |storage| - 1
  {
    if storage == [] then []
    else if storage[0].sessionId == sessionId then storage[1..]
    else [storage[0]] + RemoveFirst(storage[1..], sessionId)
  }

  /** Removing the first match leaves the later matches, in order. */
  lemma {:induction false} RemoveFirstKeepsLaterMatches(storage: seq<UserSession>, sessionId: string)
    requires Search(storage, Str(sessionId)) != []
    ensures Search(RemoveFirst(storage, sessionId), Str(sessionId)) == Search(storage, Str(sessionId))[1..]
  {
    var head, tail := storage[0], storage[1..];
    assert storage == [head] + tail;
    if head.sessionId != sessionId {
      RemoveFirstKeepsLaterMatches(tail, sessionId);
      SearchAppend([head], RemoveFirst(tail, sessionId), Str(sessionId));
    }
  }

  /** Removing the records of one id changes no search for another id. */
  lemma {:induction false} RemoveFirstKeepsOthers(storage: seq<UserSession>, sessionId: string, other: Arg)
    requires other != Str(sessionId)
    ensures Search(RemoveFirst(storage, sessionId), other) == Search(storage, other)
  {
    if storage != [] {
      var head, tail := storage[0], storage[1..];
      assert storage == [head] + tail;
      if head.sessionId != sessionId {
        RemoveFirstKeepsOthers(tail, sessionId, other);
        SearchAppend([head], RemoveFirst(tail, sessionId), other);
      }
    }
  }

  /** Removing the first match deletes exactly one record, that match. */
  lemma {:induction false} RemoveFirstDeletesOne(storage: seq<UserSession>, sessionId: string)
    requires Search(storage, Str(sessionId)) != []
    ensures multiset(RemoveFirst(storage, sessionId)) + multiset{Search(storage, Str(sessionId))[0]}
         == multiset(storage)
  {
    var head, tail := storage[0], storage[1..];
    assert storage == [head] + tail;
    if head.sessionId != sessionId {
      RemoveFirstDeletesOne(tail, sessionId);
    }
  }

  /** `user_id_for_session_id` at instant `now`, branch by branch as written. */
  function Lookup(storage: seq<UserSession>, duration: int, sessionId: Arg, now: int, searchRaises: bool)
    : (u: Option<string>)
    ensures var found := Search(storage, sessionId);
      u.Some? <==> !searchRaises && found != [] &&
                   now <= found[0].createdAt + duration * ExpiringSessions.MicrosPerSecond
    ensures u.Some? ==> u.value == Search(storage, sessionId)[0].userId
  {
    if searchRaises then None
    else
      var found := Search(storage, sessionId);
      if |found| <= 0 then None
      else
        var expiresAt := found[0].createdAt + duration * ExpiringSessions.MicrosPerSecond;
        if expiresAt < now then None
        else Some(found[0].userId)
  }

  /** What `create_session` returns, the in-memory map and the storage it leaves. */
  datatype Saved = Saved(sessionId: Option<string>, sessions: ExpiringSessions.SessionMap,
                         storage: seq<UserSession>)

  /**
   * `create_session(userId)` at instant `now`: the expiring layer's create,
   * then one stored record for the new session.
   */
  function Create(sessions: ExpiringSessions.SessionMap, storage: seq<UserSession>, userId: Arg,
                  freshId: string, now: int): (s: Saved)
    ensures !userId.Str? ==> s == Saved(None, sessions, storage)
    ensures userId.Str? ==>
      && s.sessionId == Some(freshId)
      && s.storage == storage + [UserSession(userId.s, freshId, now)]
      && s.sessions == sessions[freshId := ExpiringSessions.SessionDict(userId.s, Some(now))]
  {
    var c := ExpiringSessions.Create(sessions, userId, freshId, now);
    if c.sessionId.Some? then Saved(c.sessionId, c.sessions, storage + [UserSession(userId.s, freshId, now)])
    else Saved(None, c.sessions, storage)
  }

  /** What `destroy_session` returns, and the storage it leaves. */
  datatype Removed = Removed(ok: bool, storage: seq<UserSession>)

  /**
   * `destroy_session(request)`: removes the first stored record for the
   * request's cookie, whether or not it has expired.
   */
  function Destroy(storage: seq<UserSession>, request: Option<Request>, sessionName: Option<string>,
                   searchRaises: bool): (d: Removed)
    ensures var cookie := SessionCookie(request, sessionName);
      d.ok <==> !searchRaises && Search(storage, ArgOf(cookie)) != []
    ensures !d.ok ==> d.storage == storage
    ensures d.ok ==> SessionCookie(request, sessionName).Some?
    ensures d.ok ==> d.storage == RemoveFirst(storage, SessionCookie(request, sessionName).value)
  {
    var sessionId := SessionCookie(request, sessionName);
    if searchRaises then Removed(false, storage)
    else
      var found := Search(storage, ArgOf(sessionId));
      if |found| <= 0 then Removed(false, storage)
      else
        SearchFinds(storage, ArgOf(sessionId));
        assert found[0] in found;
        Removed(true, RemoveFirst(storage, found[0].sessionId))
  }

  /**
   * A session saved at `t` under an id no earlier record carries resolves
   * at `now` exactly when `now <= t + D`. There is no never-expires case:
   * with D = 0 the session is gone as soon as `now > t`, and with D < 0 it
   * never resolves, not even at `t`.
   */
  lemma CreateThenLookup(sessions: ExpiringSessions.SessionMap, storage: seq<UserSession>, duration: int,
                         userId: string, freshId: string, t: int, now: int)
    requires Search(storage, Str(freshId)) == []
    ensures var s := Create(sessions, storage, Str(userId), freshId, t);
      && s.sessionId == Some(freshId)
      && (Lookup(s.storage, duration, Str(freshId), now, false) == Some(userId)
          <==> now <= t + duration * ExpiringSessions.MicrosPerSecond)
      && (duration < 0 ==> Lookup(s.storage, duration, Str(freshId), t, false) == None)
  {
    var r := UserSession(userId, freshId, t);
    SearchAppend(storage, [r], Str(freshId));
    assert Search([r], Str(freshId)) == [r];
  }

  /** Only the first matching record counts: a later record for the same id is never consulted. */
  lemma FirstMatchDecides(storage: seq<UserSession>, later: seq<UserSession>, duration: int,
                          sessionId: Arg, now: int)
    requires Search(storage, sessionId) != []
    ensures Lookup(storage + later, duration, sessionId, now, false)
         == Lookup(storage, duration, sessionId, now, false)
  {
    SearchAppend(storage, later, sessionId);
  }

  /**
   * Destroying a stored session the cookie names: `True`, and afterwards the
   * id resolves through the next record with that id, if any; when it had
   * only one record it no longer resolves.
   */
  lemma DestroyThenLookup(storage: seq<UserSession>, request: Option<Request>, sessionName: Option<string>,
                          duration: int, now: int)
    requires var cookie := SessionCookie(request, sessionName);
      cookie.Some? && Search(storage, Str(cookie.value)) != []
    ensures var id := SessionCookie(request, sessionName).value;
      var d := Destroy(storage, request, sessionName, false);
      && d.ok
      && Search(d.storage, Str(id)) == Search(storage, Str(id))[1..]
      && (|Search(storage, Str(id))| == 1 ==> Lookup(d.storage, duration, Str(id), now, false) == None)
  {
    var id := SessionCookie(request, sessionName).value;
    RemoveFirstKeepsLaterMatches(storage, id);
  }

  /** `SessionDBAuth`: the in-memory map, the duration, and the storage it saves to. */
  class SessionDBAuth {
    var userIdBySessionId: ExpiringSessions.SessionMap
    var sessionDuration: int
    var storage: seq<UserSession>

    /** The inherited `__init__`; `records` is what storage already holds. */
    constructor (durationEnv: Option<string>, records: seq<UserSession>)
      ensures sessionDuration == ExpiringSessions.SessionDuration(durationEnv)
      ensures userIdBySessionId == map[] && storage == records
    {
      userIdBySessionId := map[];
      var duration := ExpiringSessions.ReadDuration(durationEnv);
      sessionDuration := duration;
      storage := records;
    }

    /**
     * `create_session` at instant `now`; `freshId` is the `uuid4` draw,
     * unknown both to the map and to storage.
     */
    method CreateSession(userId: Arg, freshId: string, now: int) returns (sessionId: Option<string>)
      requires freshId !in userIdBySessionId && Search(storage, Str(freshId)) == []
      modifies this`userIdBySessionId, this`storage
      ensures Saved(sessionId, userIdBySessionId, storage)
           == Create(old(userIdBySessionId), old(storage), userId, freshId, now)
    {
      if !userId.Str? {
        return None;
      }
      userIdBySessionId := userIdBySessionId[freshId := ExpiringSessions.SessionDict(userId.s, Some(now))];
      storage := storage + [UserSession(userId.s, freshId, now)];
      return Some(freshId);
    }

    /**
     * `user_id_for_session_id` at instant `now`: reads storage, never
     * changes it. What a lookup answers is stated on `Lookup`.
     */
    function UserIdForSessionId(sessionId: Arg, now: int, searchRaises: bool): (u: Option<string>)
      reads this
      ensures u == Lookup(storage, sessionDuration, sessionId, now, searchRaises)
    {
      Lookup(storage, sessionDuration, sessionId, now, searchRaises)
    }

    /** `destroy_session`: changes storage only, never the in-memory map. */
    method DestroySession(request: Option<Request>, sessionName: Option<string>, searchRaises: bool)
      returns (ok: bool)
      modifies this`storage
      ensures Removed(ok, storage) == Destroy(old(storage), request, sessionName, searchRaises)
      ensures userIdBySessionId == old(userIdBySessionId)
    {
      var sessionId := SessionCookie(request, sessionName);
      if searchRaises {
        return false;
      }
      var found := Search(storage, ArgOf(sessionId));
      if |found| <= 0 {
        return false;
      }
      SearchFinds(storage, ArgOf(sessionId));
      assert found[0] in found;
      storage := RemoveFirst(storage, found[0].sessionId);
      return true;
    }
  }
}
