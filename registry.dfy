/**
 * The game registry of the Vone plugin: which arenas exist, which session
 * (match) each of them runs, the lifecycle notifications sent when a session
 * starts or ends, the per-tick forwarding to running sessions, and the list
 * of connected players' profiles.
 *
 * The host's event bus, scheduler and validation service are not modelled as
 * code: what they observe is recorded in the fields `events`, `subscribed`
 * and `ticks`, and the answers they give are parameters.
 */
module Registry {
  import opened Wrappers

  /** A playing area; the registry only needs its identity. */
  datatype Arena = Arena(id: nat)

  /** One match; its rules are opaque to the registry. */
  datatype Session = Session(id: nat)

  /** A connected player. */
  datatype Player = Player(id: nat)

  /** The profile kept for a connected player; its statistics are opaque. */
  datatype Profile = Profile(player: Player)

  /** Lifecycle notifications published on the host's event bus. */
  datatype Event = Started(session: Session) | Ended(session: Session)

  /**
   * Registered arenas and their sessions. A key mapped to `None` is a
   * registered arena without a session; an arena that is not a key is not
   * registered.
   */
  type SessionMap = map<Arena, Option<Session>>

  /** The notification sent when the previous occupant of an arena is torn down. */
  function EndedOf(prior: Option<Session>): seq<Event>
  {
    if prior.Some? then [Ended(prior.value)] else []
  }

  /** The session held by an optional value, as a set. */
  function Members(o: Option<Session>): set<Session>
  {
    if o.Some? then {o.value} else {}
  }

  predicate Distinct<T(==)>(s: seq<T>)
  {
    forall i, j :: 0 <= i < j < |s| ==> s[i] != s[j]
  }

  // ---------------------------------------------------------------------------
  // Counting the arenas that hold a session

  /** The arenas of `m`, outside `rest`, whose session is `s`. */
  ghost function HoldersOutside(m: SessionMap, rest: set<Arena>, s: Session): set<Arena>
  {
    set a | a in m && a !in rest && m[a] == Some(s)
  }

  /** The arenas of `m` whose session is `s`. */
  ghost function Holders(m: SessionMap, s: Session): set<Arena>
  {
    HoldersOutside(m, {}, s)
  }

  /** Visiting one more arena `k` adds it to the holders of its own session only. */
  lemma HoldersStep(m: SessionMap, rest: set<Arena>, k: Arena, s: Session)
    requires k in rest && k in m
    ensures |HoldersOutside(m, rest - {k}, s)|
         == |HoldersOutside(m, rest, s)| + (if m[k] == Some(s) then 1 else 0)
  {
    if m[k] == Some(s) {
      assert HoldersOutside(m, rest - {k}, s) == HoldersOutside(m, rest, s) + {k};
    } else {
      assert HoldersOutside(m, rest - {k}, s) == HoldersOutside(m, rest, s);
    }
  }

  /** Models `keySet().toArray(...)`: every element of `s` once, in some order. */
  method Enumerate<T(==)>(s: set<T>) returns (r: seq<T>)
    ensures forall x :: x in r <==> x in s
    ensures Distinct(r)
  {
    r := [];
    var rest := s;
    while rest != {}
      invariant rest <= s
      invariant forall x :: x in r <==> x in s && x !in rest
      invariant Distinct(r)
      decreases |rest|
    {
      var x :| x in rest;
      r := r + [x];
      rest := rest - {x};
    }
  }

  // ---------------------------------------------------------------------------
  // The registry invariant

  /** What `m` says about `arena`: `None` both when idle and when unregistered. */
  function Occupant(m: SessionMap, arena: Arena): Option<Session>
  {
    if arena in m then m[arena] else None
  }

  /**
   * The registry invariant: every installed session listens on the event
   * bus, every listener is installed in some arena, and no session is
   * installed in two arenas.
   */
  ghost predicate Coherent(m: SessionMap, subs: set<Session>)
  {
    && (forall a :: a in m && m[a].Some? ==> m[a].value in subs)
    && (forall s :: s in subs ==> exists a :: a in m && m[a] == Some(s))
    && (forall a, b :: a in m && b in m && a != b && m[a].Some? ==> m[a] != m[b])
  }

  /** Clearing an arena (with teardown of its occupant) keeps the invariant. */
  lemma ClearKeepsCoherent(m: SessionMap, subs: set<Session>, arena: Arena)
    requires Coherent(m, subs)
    ensures Coherent(m[arena := None], subs - Members(Occupant(m, arena)))
  {
    var m', subs' := m[arena := None], subs - Members(Occupant(m, arena));
    forall a | a in m' && m'[a].Some?
      ensures m'[a].value in subs'
    {
      assert a != arena && m'[a] == m[a];
      assert arena in m ==> m[a] != m[arena];
    }
    forall s | s in subs'
      ensures exists a :: a in m' && m'[a] == Some(s)
    {
      var a :| a in m && m[a] == Some(s);
      assert a != arena && m'[a] == m[a];
    }
  }

  /**
   * Installing a session that initialises keeps the invariant, provided the
   * caller does not install a session that already runs in another arena.
   */
  lemma InstallKeepsCoherent(m: SessionMap, subs: set<Session>, arena: Arena, s: Session)
    requires Coherent(m, subs)
    requires forall b :: b in m && b != arena ==> m[b] != Some(s)
    ensures Coherent(m[arena := Some(s)], subs - Members(Occupant(m, arena)) + {s})
  {
    var m', subs' := m[arena := Some(s)], subs - Members(Occupant(m, arena)) + {s};
    forall a | a in m' && m'[a].Some?
      ensures m'[a].value in subs'
    {
      if a != arena {
        assert m'[a] == m[a];
        assert arena in m ==> m[a] != m[arena];
      }
    }
    forall t | t in subs'
      ensures exists a :: a in m' && m'[a] == Some(t)
    {
      if t == s {
        assert m'[arena] == Some(s);
      } else {
        var a :| a in m && m[a] == Some(t);
        assert a != arena && m'[a] == m[a];
      }
    }
  }

  /**
   * A session that fails to initialise and is rolled back leaves the
   * invariant intact, under the same proviso as installation.
   */
  lemma RollbackKeepsCoherent(m: SessionMap, subs: set<Session>, arena: Arena, s: Session)
    requires Coherent(m, subs)
    requires forall b :: b in m && b != arena ==> m[b] != Some(s)
    ensures Coherent(m[arena := None], subs - Members(Occupant(m, arena)) - {s})
  {
    ClearKeepsCoherent(m, subs, arena);
    var m' := m[arena := None];
    forall a | a in m' && m'[a].Some?
      ensures m'[a].value != s
    {
      assert a != arena && m'[a] == m[a];
    }
  }

  /**
   * If validation is refused during the rollback, the session that failed to
   * initialise stays installed while nothing listens for it, so the
   * invariant is broken: line 157 already stored the session, and the
   * refused re-check returns before the rollback can clear the arena.
   */
  lemma RefusedRollbackBreaksCoherence(m: SessionMap, subs: set<Session>, arena: Arena, s: Session)
    requires s !in subs
    ensures !Coherent(m[arena := Some(s)], subs - Members(Occupant(m, arena)))
  {
    assert m[arena := Some(s)][arena] == Some(s);
  }

  /** Deregistering an idle (or unknown) arena keeps the invariant. */
  lemma RemoveIdleKeepsCoherent(m: SessionMap, subs: set<Session>, arena: Arena)
    requires Coherent(m, subs) && Occupant(m, arena).None?
    ensures Coherent(m - {arena}, subs)
  {
    var m' := m - {arena};
    forall s | s in subs
      ensures exists a :: a in m' && m'[a] == Some(s)
    {
      var a :| a in m && m[a] == Some(s);
      assert a != arena && a in m' && m'[a] == m[a];
    }
  }

  /**
   * Deregistering an arena that runs a session breaks the invariant: the
   * session is not torn down, so it keeps listening with no arena holding it.
   */
  lemma RemoveRunningBreaksCoherence(m: SessionMap, subs: set<Session>, arena: Arena)
    requires Coherent(m, subs) && arena in m && m[arena].Some?
    ensures !Coherent(m - {arena}, subs)
  {
  }

  /**
   * Deregistering an arena that runs a session leaks it: it still listens on
   * the event bus although no arena holds it any more.
   */
  lemma RemoveLeaksListener(m: SessionMap, subs: set<Session>, arena: Arena)
    requires Coherent(m, subs) && arena in m && m[arena].Some?
    ensures m[arena].value in subs
    ensures forall a :: a in m - {arena} ==> (m - {arena})[a] != m[arena]
  {
  }

  // ---------------------------------------------------------------------------
  // The profile list

  /** No two profiles belong to the same player. */
  ghost predicate UniquePlayers(ps: seq<Profile>)
  {
    forall i, j :: 0 <= i < j < |ps| ==> ps[i].player != ps[j].player
  }

  /** The position of the first profile of `player`, if there is one. */
  function IndexOfPlayer(ps: seq<Profile>, player: Player): (r: Option<nat>)
    ensures r.Some? ==> r.value < |ps| && ps[r.value].player == player
    ensures r.Some? ==> forall j :: 0 <= j < r.value ==> ps[j].player != player
    ensures r.None? <==> forall j :: 0 <= j < |ps| ==> ps[j].player != player
  {
    if ps == [] then None
    else if ps[0].player == player then Some(0)
    else
      match IndexOfPlayer(ps[1..], player)
      case None => None
      case Some(i) => Some(i + 1)
  }

  /** Models `List.remove(Object)`: drops the first element equal to `p`. */
  function RemoveFirst(ps: seq<Profile>, p: Profile): (r: seq<Profile>)
    ensures p !in ps ==> r == ps
    ensures p in ps ==> |r| == |ps| - 1
  {
    if ps == [] then []
    else if ps[0] == p then ps[1..]
    else [ps[0]] + RemoveFirst(ps[1..], p)
  }

  /** Removing the first occurrence of `ps[i]` cuts out exactly position `i`. */
  lemma {:induction false} RemoveFirstAt(ps: seq<Profile>, i: nat)
    requires i < |ps|
    requires forall j :: 0 <= j < i ==> ps[j] != ps[i]
    ensures RemoveFirst(ps, ps[i]) == ps[..i] + ps[i + 1..]
  {
    if i == 0 {
      assert ps[..0] + ps[1..] == ps[1..];
    } else {
      var tail := ps[1..];
      assert tail[i - 1] == ps[i];
      RemoveFirstAt(tail, i - 1);
      calc {
        RemoveFirst(ps, ps[i]);
        [ps[0]] + RemoveFirst(tail, ps[i]);
        [ps[0]] + (tail[..i - 1] + tail[i..]);
        { assert [ps[0]] + tail[..i - 1] == ps[..i]; assert tail[i..] == ps[i + 1..]; }
        ps[..i] + ps[i + 1..];
      }
    }
  }

  /** Cutting the profile at `i` out of a duplicate-free list keeps it duplicate-free and leaves no profile of that player. */
  lemma CutKeepsUnique(ps: seq<Profile>, i: nat)
    requires i < |ps| && UniquePlayers(ps)
    ensures UniquePlayers(ps[..i] + ps[i + 1..])
    ensures forall q :: q in ps[..i] + ps[i + 1..] ==> q.player != ps[i].player
  {
    var r := ps[..i] + ps[i + 1..];
    forall k | 0 <= k < |r|
      ensures r[k] == ps[if k < i then k else k + 1]
    {
    }
  }

  // ---------------------------------------------------------------------------
  // The game object

  class Game {
    /** Registered arenas and their sessions (`None`: no session). */
    var sessions: SessionMap
    /** Profiles of the connected players, in joining order. */
    var profiles: seq<Profile>
    /** Start and end notifications published so far, oldest first. */
    ghost var events: seq<Event>
    /** Sessions registered as listeners on the host's event bus. */
    ghost var subscribed: set<Session>
    /** One entry per tick a session has received, oldest first. */
    ghost var ticks: seq<Session>

    /** Each player has at most one profile. */
    ghost predicate Valid()
      reads this
    {
      UniquePlayers(profiles)
    }

    constructor ()
      ensures sessions == map[] && profiles == [] && events == [] && subscribed == {} && ticks == []
      ensures Valid()
    {
      sessions := map[];
      profiles := [];
      events := [];
      subscribed := {};
      ticks := [];
    }

    /** The first profile belonging to `player`, or `None`. */
    method GetProfile(player: Player) returns (r: Option<Profile>)
      ensures r.None? <==> forall j :: 0 <= j < |profiles| ==> profiles[j].player != player
      ensures r.Some? ==> (IndexOfPlayer(profiles, player).Some? &&
                           r.value == profiles[IndexOfPlayer(profiles, player).value])
    {
      var i := 0;
      while i < |profiles|
        invariant 0 <= i <= |profiles|
        invariant forall j :: 0 <= j < i ==> profiles[j].player != player
      {
        if profiles[i].player == player {
          return Some(profiles[i]);
        }
        i := i + 1;
      }
      return None;
    }

    method AddArena(arena: Arena) returns (added: bool)
      modifies this`sessions
      ensures added <==> arena !in old(sessions)
      ensures sessions == if added then old(sessions)[arena := None] else old(sessions)
    {
      if arena in sessions {
        return false;
      }
      sessions := sessions[arena := None];
      return true;
    }

    /**
     * Deregisters `arena`. A session running there is NOT torn down: it gets
     * no end notification and stays subscribed to the event bus.
     */
    method RemoveArena(arena: Arena) returns (removed: bool)
      modifies this`sessions
      ensures removed <==> arena in old(sessions)
      ensures sessions == old(sessions) - {arena}
      ensures events == old(events) && subscribed == old(subscribed)
    {
      if arena !in sessions {
        return false;
      }
      sessions := sessions - {arena};
      return true;
    }

    function ContainsArena(arena: Arena): (r: bool)
      reads this
      ensures r <==> arena in sessions
    {
      arena in sessions
    }

    /** The session of `arena`; `None` both for an idle and for an unregistered arena. */
    function GetSession(arena: Arena): (r: Option<Session>)
      reads this
      ensures r.Some? ==> arena in sessions && sessions[arena] == r
      ensures r.None? <==> arena !in sessions || sessions[arena].None?
    {
      Occupant(sessions, arena)
    }

    /** Whether some registered arena holds `session`; for `None`, whether some arena is idle. */
    function IsActiveSession(session: Option<Session>): (r: bool)
      reads this
      ensures r <==> exists a :: a in sessions && sessions[a] == session
    {
      session in sessions.Values
    }

    function IsActiveArena(arena: Arena): (r: bool)
      reads this
      ensures r <==> arena in sessions && sessions[arena].Some?
    {
      GetSession(arena) != None
    }

    /**
     * An arena holding `session`, if any. Asked for `None`, it answers with an
     * idle arena.
     */
    method GetArena(session: Option<Session>) returns (r: Option<Arena>)
      ensures r.None? <==> !IsActiveSession(session)
      ensures r.Some? ==> r.value in sessions && sessions[r.value] == session
    {
      r := None;
      if IsActiveSession(session) {
        var rest := sessions.Keys;
        while r.None?
          invariant rest <= sessions.Keys
          invariant r.None? ==> exists a :: a in rest && sessions[a] == session
          invariant r.Some? ==> r.value in sessions && sessions[r.value] == session
          decreases |rest|
        {
          var a :| a in rest;
          if sessions[a] == session {
            r := Some(a);
          }
          rest := rest - {a};
        }
      }
    }

    /**
     * Installs `session` (or clears the arena when it is `None`). `gate` is
     * the validation service's answer on entry and `gateOnRollback` its
     * answer when a failed initialisation re-enters this method to clear the
     * arena; `compatible` says whether the session's initialisation succeeds.
     */
    method SetSession(arena: Arena, session: Option<Session>, gate: bool, gateOnRollback: bool,
                      compatible: (Arena, Session) -> bool) returns (ok: bool)
      modifies this`sessions, this`events, this`subscribed
      decreases if session.Some? then 1 else 0
      // Validation refused: nothing happens.
      ensures !gate ==>
        !ok && sessions == old(sessions) && events == old(events) && subscribed == old(subscribed)
      // Clearing an arena registers it if needed and tears down its occupant.
      ensures gate && session.None? ==>
        && ok
        && sessions == old(sessions)[arena := None]
        && events == old(events) + EndedOf(old(GetSession(arena)))
        && subscribed == old(subscribed) - Members(old(GetSession(arena)))
      // A session that initialises is installed, announced and subscribed.
      ensures gate && session.Some? && compatible(arena, session.value) ==>
        && ok
        && sessions == old(sessions)[arena := session]
        && events == old(events) + EndedOf(old(GetSession(arena))) + [Started(session.value)]
        && subscribed == old(subscribed) - Members(old(GetSession(arena))) + {session.value}
      // A session that fails to initialise is ended again without ever starting,
      // unless validation is refused during the rollback, which then leaves it installed.
      ensures gate && session.Some? && !compatible(arena, session.value) ==>
        && !ok
        && sessions == old(sessions)[arena := if gateOnRollback then None else session]
        && events == old(events) + EndedOf(old(GetSession(arena)))
                     + (if gateOnRollback then [Ended(session.value)] else [])
        && subscribed == old(subscribed) - Members(old(GetSession(arena)))
                         - (if gateOnRollback then {session.value} else {})
    {
      if !gate {
        return false;
      }
      var prior := GetSession(arena);
      if prior.Some? {
        events := events + [Ended(prior.value)];
        subscribed := subscribed - {prior.value};
      }
      sessions := sessions - {arena};
      sessions := sessions[arena := session];
      if session.Some? {
        var s := session.value;
        if compatible(arena, s) {
          events := events + [Started(s)];
          subscribed := subscribed + {s};
        } else {
          var cleared := SetSession(arena, None, gateOnRollback, gateOnRollback, compatible);
          return false;
        }
      }
      return true;
    }

    /**
     * The running sessions, each once per arena that holds it, or `None` when
     * no arena holds a session.
     */
    method GetSessions() returns (r: Option<seq<Session>>)
      ensures r.None? <==> forall a :: a in sessions ==> sessions[a].None?
      ensures r.Some? ==> forall s :: multiset(r.value)[s] == |Holders(sessions, s)|
      ensures r.Some? ==> forall s :: s in r.value <==> IsActiveSession(Some(s))
    {
      var found: seq<Session> := [];
      var rest := sessions.Keys;
      while rest != {}
        invariant rest <= sessions.Keys
        invariant forall s :: multiset(found)[s] == |HoldersOutside(sessions, rest, s)|
        invariant forall a :: a in sessions && a !in rest && sessions[a].Some? ==> sessions[a].value in found
        invariant forall s :: s in found ==> IsActiveSession(Some(s))
        decreases |rest|
      {
        var a :| a in rest;
        ghost var before := found;
        if sessions[a].Some? {
          found := found + [sessions[a].value];
        }
        forall s
          ensures multiset(found)[s] == |HoldersOutside(sessions, rest - {a}, s)|
        {
          HoldersStep(sessions, rest, a, s);
        }
        rest := rest - {a};
      }
      if |found| == 0 {
        return None;
      }
      assert IsActiveSession(Some(found[0]));
      return Some(found);
    }

    /**
     * `None` when no arena is registered; otherwise every registered arena
     * once, or with `active` only those holding a session (possibly none).
     */
    method GetArenas(active: bool) returns (r: Option<seq<Arena>>)
      ensures r.None? <==> |sessions| == 0
      ensures r.Some? ==> Distinct(r.value)
      ensures r.Some? ==> forall a :: a in r.value <==> a in sessions && (active ==> sessions[a].Some?)
    {
      if |sessions| == 0 {
        return None;
      }
      if active {
        var found: seq<Arena> := [];
        var rest := sessions.Keys;
        while rest != {}
          invariant rest <= sessions.Keys
          invariant forall a :: a in found <==> a in sessions && a !in rest && sessions[a].Some?
          invariant Distinct(found)
          decreases |rest|
        {
          var a :| a in rest;
          if sessions[a].Some? {
            found := found + [a];
          }
          rest := rest - {a};
        }
        return Some(found);
      }
      var all := Enumerate(sessions.Keys);
      return Some(all);
    }

    /** One scheduler tick: every running session receives one tick per arena holding it. */
    method Run()
      modifies this`ticks
      ensures |ticks| >= |old(ticks)| && ticks[..|old(ticks)|] == old(ticks)
      ensures forall s :: multiset(ticks[|old(ticks)|..])[s] == |Holders(sessions, s)|
    {
      if |sessions| != 0 {
        var rest := sessions.Keys;
        ghost var batch: seq<Session> := [];
        while rest != {}
          invariant rest <= sessions.Keys
          invariant ticks == old(ticks) + batch
          invariant forall s :: multiset(batch)[s] == |HoldersOutside(sessions, rest, s)|
          decreases |rest|
        {
          var a :| a in rest;
          if sessions[a].Some? {
            ticks := ticks + [sessions[a].value];
            batch := batch + [sessions[a].value];
          }
          forall s
            ensures multiset(batch)[s] == |HoldersOutside(sessions, rest - {a}, s)|
          {
            HoldersStep(sessions, rest, a, s);
          }
          rest := rest - {a};
        }
        assert ticks[|old(ticks)|..] == batch;
      } else {
        forall s
          ensures |Holders(sessions, s)| == 0
        {
          assert Holders(sessions, s) == {};
        }
      }
    }

    /** A joining player gets a profile unless one already exists. */
    method OnJoin(player: Player)
      modifies this`profiles
      ensures profiles == if IndexOfPlayer(old(profiles), player).None?
                          then old(profiles) + [Profile(player)] else old(profiles)
      ensures IndexOfPlayer(profiles, player).Some?
      ensures old(Valid()) ==> Valid()
    {
      var existing := GetProfile(player);
      if existing.None? {
        profiles := profiles + [Profile(player)];
        assert profiles[|profiles| - 1].player == player;
      }
    }

    /** A leaving player's (first) profile is removed; the others stay, in order. */
    method OnQuit(player: Player)
      modifies this`profiles
      ensures profiles == match IndexOfPlayer(old(profiles), player)
                          case None => old(profiles)
                          case Some(i) => old(profiles)[..i] + old(profiles)[i + 1..]
      ensures old(Valid()) ==> Valid() && IndexOfPlayer(profiles, player).None?
    {
      var existing := GetProfile(player);
      if existing.Some? {
        ghost var i := IndexOfPlayer(profiles, player).value;
        RemoveFirstAt(profiles, i);
        if Valid() {
          CutKeepsUnique(profiles, i);
        }
        profiles := RemoveFirst(profiles, existing.value);
      }
    }
  }
}
