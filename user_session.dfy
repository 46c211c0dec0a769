/**
 * The per-user session record kept in the user-session cache, and the
 * accessor that finds, creates and updates these records by e-mail.
 *
 * A record maps a request's remote address to the session id issued there,
 * and keeps the last four login times in an array sorted oldest first; a
 * fifth login attempt within one minute counts as a repeated attempt.
 */
module UserSessions {
  import opened Common

  /** Instant.MIN (-1000000000-01-01T00:00:00Z) in nanoseconds since the epoch. */
  const InstantMin: int := -31_557_014_167_219_200_000_000_000

  /** A point on the time-line, in nanoseconds since the epoch. */
  type Instant = t: int | InstantMin <= t witness InstantMin

  const OneMinute: int := 60 * 1_000_000_000

  // ---------------------------------------------------------------------
  // The login times as a value

  ghost predicate Ascending(s: seq<Instant>)
  {
    forall i, j :: 0 <= i < j < |s| ==> s[i] <= s[j]
  }

  /** The login times of a new record: four times Instant.MIN. */
  function InitialTimes(): (s: seq<Instant>)
    ensures |s| == 4 && Ascending(s)
  {
    [InstantMin, InstantMin, InstantMin, InstantMin]
  }

  /** `t` put in its place in the ascending sequence `s`. */
  function Insert(t: Instant, s: seq<Instant>): (r: seq<Instant>)
    ensures |r| == |s| + 1
    ensures r[0] == if s == [] || t <= s[0] then t else s[0]
  {
    if s == [] || t <= s[0] then [t] + s
    else [s[0]] + Insert(t, s[1..])
  }

  /** Inserting adds `t` and loses nothing. */
  lemma {:induction false} InsertMultiset(t: Instant, s: seq<Instant>)
    ensures multiset(Insert(t, s)) == multiset(s) + multiset{t}
  {
    if s != [] && t > s[0] {
      InsertMultiset(t, s[1..]);
      assert s == [s[0]] + s[1..];
    }
  }

  /** Inserting into an ascending sequence keeps it ascending. */
  lemma {:induction false} InsertAscending(t: Instant, s: seq<Instant>)
    requires Ascending(s)
    ensures Ascending(Insert(t, s))
  {
    if s != [] && t > s[0] {
      InsertAscending(t, s[1..]);
    }
  }

  /** The times after the oldest, s[0], is overwritten with `t` and the
      array is sorted again. */
  function ReplaceOldest(s: seq<Instant>, t: Instant): (r: seq<Instant>)
    requires |s| > 0
  {
    Insert(t, s[1..])
  }

  /** Overwriting the oldest time keeps four ascending times and changes the
      multiset of times by one: the old minimum out, `t` in. */
  lemma ReplaceOldestResorts(s: seq<Instant>, t: Instant)
    requires |s| == 4 && Ascending(s)
    ensures |ReplaceOldest(s, t)| == 4 && Ascending(ReplaceOldest(s, t))
    ensures forall x :: x in s ==> s[0] <= x
    ensures multiset(ReplaceOldest(s, t)) == multiset(s) - multiset{s[0]} + multiset{t}
  {
    assert s == [s[0]] + s[1..];
    InsertAscending(t, s[1..]);
    InsertMultiset(t, s[1..]);
  }

  /** Insertion at a known position: everything before position i is earlier
      than `t`, the element at i (if any) is not. */
  lemma {:induction false} InsertAt(t: Instant, s: seq<Instant>, i: nat)
    requires i <= |s|
    requires forall j :: 0 <= j < i ==> s[j] < t
    requires i < |s| ==> t <= s[i]
    ensures Insert(t, s) == s[..i] + [t] + s[i..]
    decreases i
  {
    if i == 0 {
      assert s[..0] + [t] + s[0..] == [t] + s;
    } else {
      var tail := s[1..];
      assert forall j :: 0 <= j < i - 1 ==> tail[j] < t by {
        forall j | 0 <= j < i - 1 ensures tail[j] < t { assert tail[j] == s[j + 1]; }
      }
      InsertAt(t, tail, i - 1);
      assert Insert(t, s) == [s[0]] + Insert(t, tail);
      assert s[..i] == [s[0]] + tail[..i - 1];
      assert s[i..] == tail[i - 1..];
      assert [s[0]] + (tail[..i - 1] + [t] + tail[i - 1..]) == ([s[0]] + tail[..i - 1]) + [t] + tail[i - 1..];
    }
  }

  /** The times the sorting step leaves: the earlier ones, then `t`, then
      the later ones. */
  lemma MovedIsInserted(r: seq<Instant>, s: seq<Instant>, t: Instant, i: nat)
    requires |r| == |s| + 1 && i <= |s|
    requires forall j :: 0 <= j < i ==> s[j] < t
    requires i < |s| ==> t <= s[i]
    requires forall j :: 0 <= j < i ==> r[j] == s[j]
    requires r[i] == t
    requires forall j :: i < j < |r| ==> r[j] == s[j - 1]
    ensures r == Insert(t, s)
  {
    InsertAt(t, s, i);
    assert r == s[..i] + [t] + s[i..];
  }

  /** Inserting a time no earlier than any of `s` appends it. */
  lemma {:induction false} InsertLatest(t: Instant, s: seq<Instant>)
    requires Ascending(s)
    requires forall j :: 0 <= j < |s| ==> s[j] <= t
    ensures Insert(t, s) == s + [t]
    decreases |s|
  {
    if s != [] {
      if t <= s[0] {
        assert forall j :: 0 <= j < |s| ==> s[j] == t by {
          forall j | 0 <= j < |s| ensures s[j] == t { assert s[0] <= s[j]; }
        }
        assert [t] + s == s + [t];
      } else {
        var tail := s[1..];
        assert forall j :: 0 <= j < |tail| ==> tail[j] <= t by {
          forall j | 0 <= j < |tail| ensures tail[j] <= t { assert tail[j] == s[j + 1]; }
        }
        InsertLatest(t, tail);
        assert s == [s[0]] + tail;
      }
    }
  }

  /** The times of a record after the login attempts `ts`, in order, each
      overwriting the oldest. */
  function Replay(ts: seq<Instant>): (r: seq<Instant>)
    ensures |r| == 4
    decreases |ts|
  {
    if ts == [] then InitialTimes()
    else ReplaceOldest(Replay(ts[..|ts| - 1]), ts[|ts| - 1])
  }

  /** The last four of `ts`, padded in front with Instant.MIN. */
  function LastFour(ts: seq<Instant>): (r: seq<Instant>)
    ensures |r| == 4
  {
    if |ts| >= 4 then ts[|ts| - 4..]
    else InitialTimes()[..4 - |ts|] + ts
  }

  /** The replayed times are always four ascending times. */
  lemma {:induction false} ReplayAscending(ts: seq<Instant>)
    ensures Ascending(Replay(ts))
    decreases |ts|
  {
    if ts != [] {
      var prev := Replay(ts[..|ts| - 1]);
      ReplayAscending(ts[..|ts| - 1]);
      InsertAscending(ts[|ts| - 1], prev[1..]);
    }
  }

  /** The last four after one more time `t`: the oldest drops out. */
  lemma LastFourStep(p: seq<Instant>, t: Instant)
    ensures LastFour(p + [t]) == LastFour(p)[1..] + [t]
  {
    var ts := p + [t];
    if |p| >= 4 {
      assert LastFour(p)[1..] == ts[|ts| - 4..|ts| - 1];
    } else {
      assert LastFour(p)[1..] + [t] == InitialTimes()[..4 - |ts|] + ts;
    }
  }

  /** When no time of `p` is later than `t`, neither is any of its last four. */
  lemma LastFourBefore(p: seq<Instant>, t: Instant)
    requires forall i :: 0 <= i < |p| ==> p[i] <= t
    ensures forall k :: 0 <= k < |LastFour(p)| ==> LastFour(p)[k] <= t
  {
    forall k | 0 <= k < 4 ensures LastFour(p)[k] <= t {
      if |p| >= 4 {
        assert LastFour(p)[k] == p[|p| - 4 + k];
      } else if k >= 4 - |p| {
        assert LastFour(p)[k] == p[k - (4 - |p|)];
      }
    }
  }

  /** With non-decreasing login times the array holds exactly the last four
      of them (Instant.MIN where there were fewer than four). */
  lemma {:induction false} ReplayKeepsLastFour(ts: seq<Instant>)
    requires forall i, j :: 0 <= i < j < |ts| ==> ts[i] <= ts[j]
    ensures Replay(ts) == LastFour(ts)
    decreases |ts|
  {
    if ts != [] {
      var p, t := ts[..|ts| - 1], ts[|ts| - 1];
      assert forall i, j :: 0 <= i < j < |p| ==> p[i] <= p[j] by {
        forall i, j | 0 <= i < j < |p| ensures p[i] <= p[j] { assert p[i] == ts[i] && p[j] == ts[j]; }
      }
      assert forall i :: 0 <= i < |p| ==> p[i] <= t by {
        forall i | 0 <= i < |p| ensures p[i] <= t { assert p[i] == ts[i]; }
      }
      calc {
        Replay(ts);
        ReplaceOldest(Replay(p), t);
        { ReplayKeepsLastFour(p); }
        ReplaceOldest(LastFour(p), t);
        { LastFourShift(p, t); }
        LastFour(p + [t]);
        { assert ts == p + [t]; }
        LastFour(ts);
      }
    }
  }

  /** One more login time, no earlier than the ones before it, moves the
      window of the last four on by one. */
  lemma LastFourShift(p: seq<Instant>, t: Instant)
    requires Ascending(p)
    requires forall i :: 0 <= i < |p| ==> p[i] <= t
    ensures ReplaceOldest(LastFour(p), t) == LastFour(p + [t])
  {
    LastFourAscending(p);
    var tail := LastFour(p)[1..];
    assert forall j :: 0 <= j < |tail| ==> tail[j] <= t by {
      LastFourBefore(p, t);
      forall j | 0 <= j < |tail| ensures tail[j] <= t { assert tail[j] == LastFour(p)[j + 1]; }
    }
    InsertLatest(t, tail);
    LastFourStep(p, t);
  }

  /** The last four of ascending times, padded in front with Instant.MIN,
      are ascending. */
  lemma LastFourAscending(p: seq<Instant>)
    requires Ascending(p)
    ensures Ascending(LastFour(p))
  {
    var r := LastFour(p);
    var pad := 4 - |p|;
    forall i, j | 0 <= i < j < 4 ensures r[i] <= r[j] {
      if |p| >= 4 {
        assert r[i] == p[|p| - 4 + i] && r[j] == p[|p| - 4 + j];
      } else if i >= pad {
        assert r[i] == p[i - pad] && r[j] == p[j - pad];
      } else {
        assert r[i] == InstantMin;
      }
    }
  }

  /** Every stored login time is later than Instant.MIN (the slot holds a
      real attempt) and lies within the minute before `now`: this is what
      makes a login attempt repeated. */
  ghost predicate FourWithinAMinute(times: seq<Instant>, now: Instant)
  {
    forall i :: 0 <= i < |times| ==> times[i] != InstantMin && now < times[i] + OneMinute
  }

  /** After the non-decreasing login attempts `ts`, the next attempt at `now`
      counts as repeated exactly when there were at least four attempts and
      the fourth-last of them lies within the minute before `now`. */
  lemma {:induction false} RepeatedIffFourthLastRecent(ts: seq<Instant>, now: Instant)
    requires forall i, j :: 0 <= i < j < |ts| ==> ts[i] <= ts[j]
    requires forall i :: 0 <= i < |ts| ==> ts[i] != InstantMin
    ensures FourWithinAMinute(Replay(ts), now) <==> |ts| >= 4 && now < ts[|ts| - 4] + OneMinute
  {
    ReplayKeepsLastFour(ts);
    var r := Replay(ts);
    if |ts| >= 4 {
      assert forall k :: 0 <= k < 4 ==> r[k] == ts[|ts| - 4 + k];
    } else {
      assert r[0] == InstantMin;
    }
  }

  // ---------------------------------------------------------------------
  // The record

  class UserSession {
    const email: string
    /** remote address -> session id */
    var sessionIds: map<string, string>
    /** the last four login times, oldest first */
    const loginTimes: array<Instant>

    ghost predicate Valid()
      reads this, loginTimes
    {
      loginTimes.Length == 4 && Ascending(loginTimes[..])
    }

    constructor (email: string)
      ensures Valid() && fresh(loginTimes)
      ensures this.email == email && sessionIds == map[]
      ensures loginTimes[..] == InitialTimes()
    {
      this.email := email;
      sessionIds := map[];
      loginTimes := new Instant[4](_ => InstantMin);
      new;
      assert loginTimes[..] == InitialTimes();
    }

    /** The session id issued to `remoteAddress`, or null. */
    function GetSessionId(remoteAddress: string): (id: Option<string>)
      reads this
      ensures id.Some? <==> remoteAddress in sessionIds
      ensures id.Some? ==> id.value == sessionIds[remoteAddress]
    {
      if remoteAddress in sessionIds then Some(sessionIds[remoteAddress]) else None
    }

    method AddSessionId(remoteAddress: string, sessionId: string)
      modifies this`sessionIds
      ensures GetSessionId(remoteAddress) == Some(sessionId)
      ensures forall a :: a != remoteAddress ==> GetSessionId(a) == old(GetSessionId(a))
      ensures sessionIds == old(sessionIds)[remoteAddress := sessionId]
    {
      sessionIds := sessionIds[remoteAddress := sessionId];
    }

    /** Removes the session id of `remoteAddress` and returns the one there
        was, or null. */
    method RemoveSessionId(remoteAddress: string) returns (previous: Option<string>)
      modifies this`sessionIds
      ensures previous == old(GetSessionId(remoteAddress))
      ensures GetSessionId(remoteAddress) == None
      ensures sessionIds == old(sessionIds) - {remoteAddress}
    {
      previous := GetSessionId(remoteAddress);
      sessionIds := sessionIds - {remoteAddress};
    }

    /** The oldest of the four stored login times. */
    function GetOldestLoginTime(): (t: Instant)
      reads this, loginTimes
      requires Valid()
      ensures t in loginTimes[..]
      ensures forall i :: 0 <= i < loginTimes.Length ==> t <= loginTimes[i]
    {
      loginTimes[0]
    }

    /**
     * Overwrites the oldest time with `loginTime` and sorts the array again.
     * Since the three other times are already ascending, sorting amounts to
     * moving the new time right past every earlier one.
     */
    method OverwriteOldestLoginTime(loginTime: Instant)
      requires Valid()
      modifies loginTimes
      ensures Valid()
      ensures loginTimes[..] == ReplaceOldest(old(loginTimes[..]), loginTime)
    {
      ghost var rest := loginTimes[1..];
      loginTimes[0] := loginTime;
      var i := 0;
      while i < 3 && loginTimes[i] > loginTimes[i + 1]
        invariant 0 <= i <= 3
        invariant loginTimes[i] == loginTime
        invariant forall j :: 0 <= j < i ==> loginTimes[j] == rest[j]
        invariant forall j :: i < j < 4 ==> loginTimes[j] == rest[j - 1]
        invariant forall j :: 0 <= j < i ==> rest[j] < loginTime
      {
        loginTimes[i], loginTimes[i + 1] := loginTimes[i + 1], loginTimes[i];
        i := i + 1;
      }
      MovedIsInserted(loginTimes[..], rest, loginTime, i);
      ReplaceOldestResorts(old(loginTimes[..]), loginTime);
    }
  }

  // ---------------------------------------------------------------------
  // The cache accessor

  /** What the cache holds for one e-mail: the session ids and the login times. */
  datatype SessionView = SessionView(sessionIds: map<string, string>, loginTimes: seq<Instant>)

  /** What a record created on demand holds. */
  function NewSessionView(): SessionView
  {
    SessionView(map[], InitialTimes())
  }

  class UserSessionCacheAccessor {
    /** The user-session cache: lower-cased e-mail -> record. */
    var cache: map<string, UserSession>
    ghost var Repr: set<object>

    ghost predicate Valid()
      reads this, Repr
    {
      && (forall e :: e in cache ==>
            && cache[e] in Repr && cache[e].loginTimes in Repr
            && cache[e].email == e && cache[e].Valid())
      && (forall e1, e2 :: e1 in cache && e2 in cache && e1 != e2 ==>
            cache[e1].loginTimes != cache[e2].loginTimes)
    }

    /** What the cache holds for `key`, or what a record created for it would
        hold. */
    ghost function SessionOf(key: string): SessionView
      reads this, if key in cache then {cache[key], cache[key].loginTimes} else {}
    {
      if key in cache then SessionView(cache[key].sessionIds, cache[key].loginTimes[..])
      else NewSessionView()
    }

    constructor ()
      ensures Valid() && cache == map[]
    {
      cache := map[];
      Repr := {};
    }

    /** The session id of the user `email` at `remoteAddress`, or null when
        there is none or no record; never creates a record. */
    function GetUserSessionId(email: string, remoteAddress: string): (id: Option<string>)
      reads this, Repr
      requires Valid()
      ensures id.Some? <==> remoteAddress in SessionOf(ToLower(email)).sessionIds
      ensures id.Some? ==> id.value == SessionOf(ToLower(email)).sessionIds[remoteAddress]
    {
      var key := ToLower(email);
      if key in cache then cache[key].GetSessionId(remoteAddress) else None
    }

    /** E-mails that differ only in case reach the same record. */
    lemma SessionIdIgnoresCase(email1: string, email2: string, remoteAddress: string)
      requires Valid()
      requires EqualsIgnoreCase(email1, email2)
      ensures GetUserSessionId(email1, remoteAddress) == GetUserSessionId(email2, remoteAddress)
    {
      ToLowerSameKey(email1, email2);
    }

    /** The record of the lower-cased `email`, created and cached if missing;
        what any e-mail reaches stays as it was. */
    method FindOrCreateByEmail(email: string) returns (session: UserSession)
      requires Valid()
      modifies this
      ensures Valid() && fresh(Repr - old(Repr))
      ensures cache.Keys == old(cache.Keys) + {ToLower(email)}
      ensures session == cache[ToLower(email)]
      ensures forall e :: e in old(cache) ==> cache[e] == old(cache[e])
      ensures forall e :: SessionOf(e) == old(SessionOf(e))
    {
      var key := ToLower(email);
      if key in cache {
        session := cache[key];
      } else {
        session := AddNewSession(key);
      }
    }

    /** Caches a new record for a key that has none. */
    method AddNewSession(key: string) returns (session: UserSession)
      requires Valid() && key !in cache
      modifies this
      ensures Valid() && Repr == old(Repr) + {session, session.loginTimes}
      ensures fresh(session) && fresh(session.loginTimes)
      ensures cache == old(cache)[key := session]
      ensures session.sessionIds == map[] && session.loginTimes[..] == InitialTimes()
    {
      session := new UserSession(key);
      cache := cache[key := session];
      Repr := Repr + {session, session.loginTimes};
    }

    /** Stores `sessionId` for `remoteAddress` in the record of `email`,
        creating the record if needed. */
    method SetUserSessionId(email: string, remoteAddress: string, sessionId: string)
      requires Valid()
      modifies this, Repr
      ensures Valid() && fresh(Repr - old(Repr))
      ensures cache.Keys == old(cache.Keys) + {ToLower(email)}
      ensures GetUserSessionId(email, remoteAddress) == Some(sessionId)
      ensures forall e :: e != ToLower(email) ==> SessionOf(e) == old(SessionOf(e))
      ensures var was := old(SessionOf(ToLower(email)));
        SessionOf(ToLower(email)) == was.(sessionIds := was.sessionIds[remoteAddress := sessionId])
    {
      var key := ToLower(email);
      ToLowerIdempotent(email);
      var session := FindOrCreateByEmail(key);
      StoreSessionId(key, remoteAddress, sessionId);
    }

    /** Stores `sessionId` in the cached record of `key`. */
    method StoreSessionId(key: string, remoteAddress: string, sessionId: string)
      requires Valid() && key in cache
      modifies cache[key]
      ensures Valid()
      ensures forall e :: e != key ==> SessionOf(e) == old(SessionOf(e))
      ensures var was := old(SessionOf(key));
        SessionOf(key) == was.(sessionIds := was.sessionIds[remoteAddress := sessionId])
    {
      cache[key].AddSessionId(remoteAddress, sessionId);
    }

    /** Removes the session id at `remoteAddress`; true iff there was one.
        The record itself stays in the cache, and none is created. */
    method RemoveUserSessionId(email: string, remoteAddress: string) returns (removed: bool)
      requires Valid()
      modifies Repr
      ensures Valid() && Repr == old(Repr) && cache == old(cache)
      ensures removed <==> old(GetUserSessionId(email, remoteAddress)).Some?
      ensures GetUserSessionId(email, remoteAddress) == None
      ensures forall e :: e != ToLower(email) ==> SessionOf(e) == old(SessionOf(e))
      ensures var was := old(SessionOf(ToLower(email)));
        SessionOf(ToLower(email)) == was.(sessionIds := was.sessionIds - {remoteAddress})
    {
      var key := ToLower(email);
      if key in cache {
        var previous := cache[key].RemoveSessionId(remoteAddress);
        removed := previous.Some?;
      } else {
        removed := false;
      }
    }

    /** True iff the record's four stored login times all lie within the
        minute before `now`; creates the record when it is missing. The
        clock reading Instant.now() is the parameter `now`. */
    method IsRepeatedLoginAttempt(email: string, now: Instant) returns (repeated: bool)
      requires Valid()
      modifies this
      ensures Valid() && fresh(Repr - old(Repr))
      ensures cache.Keys == old(cache.Keys) + {ToLower(email)}
      ensures forall e :: SessionOf(e) == old(SessionOf(e))
      ensures repeated <==> FourWithinAMinute(old(SessionOf(ToLower(email))).loginTimes, now)
    {
      var key := ToLower(email);
      ToLowerIdempotent(email);
      var session := FindOrCreateByEmail(key);
      var oldest := session.GetOldestLoginTime();
      repeated := oldest != InstantMin && now < oldest + OneMinute;
      assert session.loginTimes[..] == SessionOf(key).loginTimes;
    }

    /** Records a login attempt at `now` in place of the oldest one. */
    method AddLoginAttempt(email: string, now: Instant)
      requires Valid()
      modifies this, Repr
      ensures Valid() && fresh(Repr - old(Repr))
      ensures cache.Keys == old(cache.Keys) + {ToLower(email)}
      ensures forall e :: e != ToLower(email) ==> SessionOf(e) == old(SessionOf(e))
      ensures var was := old(SessionOf(ToLower(email)));
        SessionOf(ToLower(email)) == was.(loginTimes := ReplaceOldest(was.loginTimes, now))
    {
      var key := ToLower(email);
      ToLowerIdempotent(email);
      var session := FindOrCreateByEmail(key);
      StoreLoginTime(key, now);
    }

    /** Overwrites the oldest login time of the cached record of `key`. */
    method StoreLoginTime(key: string, now: Instant)
      requires Valid() && key in cache
      modifies cache[key].loginTimes
      ensures Valid()
      ensures forall e :: e != key ==> SessionOf(e) == old(SessionOf(e))
      ensures var was := old(SessionOf(key));
        SessionOf(key) == was.(loginTimes := ReplaceOldest(was.loginTimes, now))
    {
      cache[key].OverwriteOldestLoginTime(now);
    }
  }
}
