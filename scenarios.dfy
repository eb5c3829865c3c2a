/**
 * Client scenarios of the registry, proved from the contracts alone:
 * registration, replacement of a running session, rollback of a session
 * that fails to initialise, the clear round trip, deregistration, and
 * listing arenas and sessions.
 */
module Scenarios {
  import opened Wrappers
  import opened Registry

  /** Registering an arena twice: the second attempt is refused. */
  method RegisterTwice(a: Arena) returns (first: bool, registered: bool, second: bool)
    ensures first && registered && !second
  {
    var g := new Game();
    first := g.AddArena(a);
    registered := g.ContainsArena(a);
    second := g.AddArena(a);
  }

  /**
   * Replacing a running session ends the old one exactly once, starts the new
   * one exactly once, and unsubscribes the old one.
   */
  method Replace(a: Arena, s1: Session, s2: Session, compatible: (Arena, Session) -> bool)
    returns (current: Option<Session>, ghost log: seq<Event>, ghost oldListening: bool, ghost newListening: bool)
    requires s1 != s2 && compatible(a, s1) && compatible(a, s2)
    ensures current == Some(s2)
    ensures log == [Started(s1), Ended(s1), Started(s2)]
    ensures !oldListening && newListening
  {
    var g := new Game();
    var added := g.AddArena(a);
    var ok1 := g.SetSession(a, Some(s1), true, true, compatible);
    var ok2 := g.SetSession(a, Some(s2), true, true, compatible);
    current := g.GetSession(a);
    log := g.events;
    oldListening := s1 in g.subscribed;
    newListening := s2 in g.subscribed;
  }

  /**
   * A session that fails to initialise is rolled back: the call fails, the
   * arena is idle, the session is ended without having started, and it does
   * not listen to events.
   */
  method Incompatible(a: Arena, s: Session, compatible: (Arena, Session) -> bool)
    returns (ok: bool, current: Option<Session>, ghost log: seq<Event>, ghost listening: bool, registered: bool)
    requires !compatible(a, s)
    ensures !ok && current == None && log == [Ended(s)] && !listening && registered
  {
    var g := new Game();
    ok := g.SetSession(a, Some(s), true, true, compatible);
    current := g.GetSession(a);
    log := g.events;
    listening := s in g.subscribed;
    registered := g.ContainsArena(a);
  }

  /**
   * Register, install, then clear: the arena stays registered but is idle,
   * and the session is no longer active anywhere.
   */
  method AssignThenClear(a: Arena, s: Session, compatible: (Arena, Session) -> bool)
    returns (installed: bool, sessionActive: bool, cleared: Option<Session>,
             arenaActive: bool, stillActive: bool, registered: bool)
    requires compatible(a, s)
    ensures installed && sessionActive
    ensures cleared == None && !arenaActive && !stillActive && registered
  {
    var g := new Game();
    var added := g.AddArena(a);
    installed := g.SetSession(a, Some(s), true, true, compatible);
    sessionActive := g.IsActiveSession(Some(s));
    var ok := g.SetSession(a, None, true, true, compatible);
    cleared := g.GetSession(a);
    arenaActive := g.IsActiveArena(a);
    stillActive := g.IsActiveSession(Some(s));
    registered := g.ContainsArena(a);
  }

  /** Two arenas with one session each are both listed as active. */
  method TwoArenas(a1: Arena, a2: Arena, s1: Session, s2: Session, compatible: (Arena, Session) -> bool)
    returns (active: Option<seq<Arena>>)
    requires a1 != a2 && compatible(a1, s1) && compatible(a2, s2)
    ensures active.Some? && forall a :: a in active.value <==> a == a1 || a == a2
  {
    var g := new Game();
    var added1 := g.AddArena(a1);
    var added2 := g.AddArena(a2);
    var ok1 := g.SetSession(a1, Some(s1), true, true, compatible);
    var ok2 := g.SetSession(a2, Some(s2), true, true, compatible);
    ghost var m := g.sessions;
    assert m.Keys == {a1, a2} && m[a1] == Some(s1) && m[a2] == Some(s2);
    active := g.GetArenas(true);
  }

  /**
   * Deregistering an arena that runs a session: the arena is no longer
   * listed and its session no longer counts as active, yet the session keeps
   * listening to events because it was never torn down.
   */
  method Deregister(a1: Arena, a2: Arena, s: Session, compatible: (Arena, Session) -> bool)
    returns (remaining: Option<seq<Arena>>, active: bool, ghost listening: bool)
    requires a1 != a2 && compatible(a1, s)
    ensures remaining.Some? && forall a :: a in remaining.value <==> a == a2
    ensures !active && listening
  {
    var g := new Game();
    var added1 := g.AddArena(a1);
    var added2 := g.AddArena(a2);
    var ok := g.SetSession(a1, Some(s), true, true, compatible);
    var removed := g.RemoveArena(a1);
    assert g.sessions.Keys == {a2};
    remaining := g.GetArenas(false);
    active := g.IsActiveSession(Some(s));
    listening := s in g.subscribed;
  }

  /**
   * With no arena, and with only idle arenas, there are no sessions to list;
   * an idle arena is still listed among all arenas but not among the active ones.
   */
  method NothingRunning(a: Arena)
    returns (noArenas: Option<seq<Session>>, idleOnly: Option<seq<Session>>,
             all: Option<seq<Arena>>, active: Option<seq<Arena>>)
    ensures noArenas == None && idleOnly == None
    ensures all.Some? && a in all.value
    ensures active.Some? && forall x :: x !in active.value
  {
    var g := new Game();
    noArenas := g.GetSessions();
    var added := g.AddArena(a);
    assert g.sessions == map[a := None];
    assert |g.sessions| != 0 by { assert a in g.sessions.Keys; }
    idleOnly := g.GetSessions();
    all := g.GetArenas(false);
    active := g.GetArenas(true);
  }

  /** Joining twice keeps one profile; quitting removes it. */
  method JoinTwiceThenQuit(p: Player) returns (afterJoins: seq<Profile>, afterQuit: seq<Profile>)
    ensures afterJoins == [Profile(p)]
    ensures afterQuit == []
  {
    var g := new Game();
    g.OnJoin(p);
    g.OnJoin(p);
    afterJoins := g.profiles;
    g.OnQuit(p);
    afterQuit := g.profiles;
  }
}
