/**
 * Expiring in-memory sessions (`SessionExpAuth`). Each session id now maps
 * to a record of the user id and the creation instant, and a lookup treats
 * a record as gone once the configured duration has passed. Expiry is lazy:
 * lookups never delete anything.
 *
 * Instants are integers counting microseconds, the resolution of Python's
 * `datetime`; the duration is in seconds, as `timedelta(seconds=...)` reads it.
 */
module ExpiringSessions {
  import opened Types
  import opened Text
  import opened AuthPolicy

  const MicrosPerSecond: int := 1_000_000

  /** The dictionary `{'user_id': ..., 'created_at': ...}`; `created_at` may be missing. */
  datatype SessionDict = SessionDict(userId: string, createdAt: Option<int>)

  type SessionMap = map<string, SessionDict>

  /**
   * `session_duration` as `__init__` sets it from `SESSION_DURATION`
   * (`'0'` when unset): the parsed integer, or 0 when `int()` fails.
   */
  function SessionDuration(env: Option<string>): (d: int)
    ensures env.None? ==> d == 0
    ensures env.Some? && ParseInt(env.value).None? ==> d == 0
    ensures env.Some? && ParseInt(env.value).Some? ==> d == ParseInt(env.value).value
  {
    ParseIntOfDecimal(0);
    assert Decimal(0) == "0";
    match ParseInt(if env.None? then "0" else env.value)
    case Some(v) => v
    case None => 0
  }

  /**
   * The `try`/`except` of `__init__`: parse `SESSION_DURATION`, falling
   * back to 0 when `int()` raises. Both store classes run it on construction.
   */
  method ReadDuration(env: Option<string>) returns (d: int)
    ensures d == SessionDuration(env)
  {
    var parsed := ParseInt(if env.None? then "0" else env.value);
    if parsed.Some? {
      d := parsed.value;
    } else {
      d := 0;
    }
  }

  /** A value starting with an information separator does not parse, so the duration is 0. */
  lemma SeparatorDurationIsZero(c: char, rest: string)
    requires 0x1C <= c as int <= 0x1F
    ensures SessionDuration(Some([c] + rest)) == 0
  {
    LeadingSeparatorRejected(c, rest);
  }

  /** A duration written in decimal with whitespace around it, as in `" 60\n"`, is read exactly. */
  lemma PaddedDuration(w1: string, n: int, w2: string)
    requires IntBlank(w1) && IntBlank(w2)
    ensures SessionDuration(Some(w1 + Decimal(n) + w2)) == n
  {
    ParseIntPadded(w1, n, w2);
  }

  /** A duration written out in decimal is read back exactly. */
  lemma DurationOfDecimal(n: int)
    ensures SessionDuration(Some(Decimal(n))) == n
  {
    ParseIntOfDecimal(n);
  }

  /**
   * The reference rule for a live record: a non-positive duration never
   * expires; otherwise the record needs a creation instant, and stays live
   * up to and including creation plus the duration.
   */
  predicate Live(entry: SessionDict, duration: int, now: int) {
    duration <= 0 ||
    (entry.createdAt.Some? && now <= entry.createdAt.value + duration * MicrosPerSecond)
  }

  /** `user_id_for_session_id` at instant `now`, branch by branch as written. */
  function Lookup(sessions: SessionMap, duration: int, sessionId: Arg, now: int): (u: Option<string>)
    ensures u.Some? <==> sessionId.Str? && sessionId.s in sessions && Live(sessions[sessionId.s], duration, now)
    ensures u.Some? ==> u.value == sessions[sessionId.s].userId
  {
    if sessionId.Str? && sessionId.s in sessions then
      var entry := sessions[sessionId.s];
      if duration <= 0 then Some(entry.userId)
      else if entry.createdAt.None? then None
      else
        var expiresAt := entry.createdAt.value + duration * MicrosPerSecond;
        if expiresAt < now then None
        else Some(entry.userId)
    else None
  }

  /** What `create_session` returns, and the map it leaves. */
  datatype Created = Created(sessionId: Option<string>, sessions: SessionMap)

  /**
   * `create_session(userId)` at instant `now`. The base class first binds
   * the fresh id to the bare user id; that binding is overwritten at once by
   * the record, so only the record is modelled.
   */
  function Create(sessions: SessionMap, userId: Arg, freshId: string, now: int): (c: Created)
    ensures !userId.Str? ==> c == Created(None, sessions)
    ensures userId.Str? ==> c.sessionId == Some(freshId) && c.sessions.Keys == sessions.Keys + {freshId}
    ensures userId.Str? ==> c.sessions[freshId] == SessionDict(userId.s, Some(now))
    ensures forall k :: k in sessions && k != freshId ==> c.sessions[k] == sessions[k]
  {
    if userId.Str? then Created(Some(freshId), sessions[freshId := SessionDict(userId.s, Some(now))])
    else Created(None, sessions)
  }

  /** What `destroy_session` returns, and the map it leaves. */
  datatype Destroyed = Destroyed(ok: bool, sessions: SessionMap)

  /**
   * The inherited `destroy_session`, which resolves the cookie through the
   * expiring lookup: only a live session is deleted.
   */
  function Destroy(sessions: SessionMap, duration: int, request: Option<Request>,
                   sessionName: Option<string>, now: int): (d: Destroyed)
    ensures var cookie := SessionCookie(request, sessionName);
      d.ok <==> cookie.Some? && cookie.value in sessions && Live(sessions[cookie.value], duration, now)
    ensures !d.ok ==> d.sessions == sessions
    ensures d.ok ==> d.sessions == sessions - {SessionCookie(request, sessionName).value}
  {
    var sessionId := SessionCookie(request, sessionName);
    var userId := Lookup(sessions, duration, ArgOf(sessionId), now);
    if request.None? || sessionId.None? || userId.None? then Destroyed(false, sessions)
    else Destroyed(true, if sessionId.value in sessions then sessions - {sessionId.value} else sessions)
  }

  /** With a non-positive duration a known session resolves at every instant. */
  lemma NeverExpires(sessions: SessionMap, duration: int, id: string, now: int)
    requires duration <= 0 && id in sessions
    ensures Lookup(sessions, duration, Str(id), now) == Some(sessions[id].userId)
  {
  }

  /**
   * With a positive duration D a record created at `t` resolves exactly up
   * to and including `t + D` seconds, and to `None` from the next microsecond on.
   */
  lemma ExpiryBoundary(sessions: SessionMap, duration: int, id: string, now: int)
    requires duration > 0 && id in sessions && sessions[id].createdAt.Some?
    ensures var t := sessions[id].createdAt.value;
      && (Lookup(sessions, duration, Str(id), now) == Some(sessions[id].userId)
          <==> now <= t + duration * MicrosPerSecond)
      && (Lookup(sessions, duration, Str(id), now) == None
          <==> now > t + duration * MicrosPerSecond)
      && Lookup(sessions, duration, Str(id), t + duration * MicrosPerSecond) == Some(sessions[id].userId)
      && Lookup(sessions, duration, Str(id), t + duration * MicrosPerSecond + 1) == None
  {
  }

  /** With a positive duration a record without a creation instant never resolves. */
  lemma MissingCreatedAt(sessions: SessionMap, duration: int, id: string, now: int)
    requires duration > 0 && id in sessions && sessions[id].createdAt.None?
    ensures Lookup(sessions, duration, Str(id), now) == None
  {
  }

  /** Once a lookup fails it fails at every later instant: time does not revive a session. */
  lemma ExpiryIsFinal(sessions: SessionMap, duration: int, sessionId: Arg, now: int, later: int)
    requires now <= later
    requires Lookup(sessions, duration, sessionId, now) == None
    ensures Lookup(sessions, duration, sessionId, later) == None
  {
  }

  /** A session created at `t` resolves at `now` iff the duration is non-positive or `now <= t + D`. */
  lemma CreateThenLookup(sessions: SessionMap, duration: int, userId: string, freshId: string, t: int, now: int)
    ensures var c := Create(sessions, Str(userId), freshId, t);
      && c.sessionId == Some(freshId)
      && (Lookup(c.sessions, duration, Str(freshId), now) == Some(userId)
          <==> duration <= 0 || now <= t + duration * MicrosPerSecond)
  {
  }

  /**
   * An expired session cannot be destroyed: `destroy_session` answers
   * `False` and its record stays in the map, where no lookup removes it.
   */
  lemma ExpiredStays(sessions: SessionMap, duration: int, request: Option<Request>,
                     sessionName: Option<string>, now: int)
    requires var cookie := SessionCookie(request, sessionName);
      cookie.Some? && cookie.value in sessions && Lookup(sessions, duration, Str(cookie.value), now) == None
    ensures var cookie := SessionCookie(request, sessionName).value;
      var d := Destroy(sessions, duration, request, sessionName, now);
      !d.ok && cookie in d.sessions && d.sessions[cookie] == sessions[cookie]
  {
  }

  /** `SessionExpAuth`, with its map updated in place. */
  class SessionExpAuth {
    var userIdBySessionId: SessionMap
    var sessionDuration: int

    /** `__init__`; `durationEnv` is the value of `SESSION_DURATION`, if set. */
    constructor (durationEnv: Option<string>)
      ensures sessionDuration == SessionDuration(durationEnv)
      ensures userIdBySessionId == map[]
    {
      userIdBySessionId := map[];
      var duration := ReadDuration(durationEnv);
      sessionDuration := duration;
    }

    /** `create_session` at instant `now`; `freshId` is the `uuid4` draw. */
    method CreateSession(userId: Arg, freshId: string, now: int) returns (sessionId: Option<string>)
      requires freshId !in userIdBySessionId
      modifies this`userIdBySessionId
      ensures Created(sessionId, userIdBySessionId) == Create(old(userIdBySessionId), userId, freshId, now)
    {
      if !userId.Str? {
        return None;
      }
      userIdBySessionId := userIdBySessionId[freshId := SessionDict(userId.s, Some(now))];
      return Some(freshId);
    }

    /**
     * `user_id_for_session_id` at instant `now`: reads the map, never
     * changes it. What a lookup answers is stated on `Lookup`.
     */
    function UserIdForSessionId(sessionId: Arg, now: int): (u: Option<string>)
      reads this
      ensures u == Lookup(userIdBySessionId, sessionDuration, sessionId, now)
    {
      Lookup(userIdBySessionId, sessionDuration, sessionId, now)
    }

    /** The inherited `destroy_session`, resolving the cookie at instant `now`. */
    method DestroySession(request: Option<Request>, sessionName: Option<string>, now: int) returns (ok: bool)
      modifies this`userIdBySessionId
      ensures Destroyed(ok, userIdBySessionId)
           == Destroy(old(userIdBySessionId), sessionDuration, request, sessionName, now)
    {
      var sessionId := SessionCookie(request, sessionName);
      var userId := UserIdForSessionId(ArgOf(sessionId), now);
      if request.None? || sessionId.None? || userId.None? {
        return false;
      }
      if sessionId.value in userIdBySessionId {
        userIdBySessionId := userIdBySessionId - {sessionId.value};
      }
      return true;
    }
  }
}
