# Vone game registry, modelled in Dafny

Vone is a Bukkit/Spigot plugin for 1v1, 2v2, 3v3 and free-for-all matches. Its
`Game` object owns the registry of **arenas** (playing areas) and the
**session** (match) each arena runs. A registered arena without a match maps
to `null`. The registry:

- registers and deregisters arenas;
- installs a session in an arena behind a validation check. It tears down the
  previous occupant (an "ended" event, then unsubscription from the event bus),
  then initialises the new session (a "started" event, then subscription). When
  initialisation fails, it rolls the arena back to empty by calling itself again;
- answers queries about arenas and sessions;
- forwards each scheduler tick to every running session;
- keeps one profile per connected player.

The model is the class `Registry.Game` in `registry.dfy`. It has these fields:

- `sessions: map<Arena, Option<Session>>`: `None` is the Java `null`; an arena
  that is not a key is unregistered;
- `profiles: seq<Profile>`, the `ArrayList` of profiles;
- three ghost fields that record what the host sees: `events` (the log of
  `Started`/`Ended` notifications), `subscribed` (the sessions registered as
  event listeners) and `ticks` (one entry per tick a session received).

The methods change these fields in place. Their loops visit the map's keys in
an unspecified order, as `HashMap` does. So results are stated as sets, or as
multisets counted by the arenas that hold each session.

The host services become inputs:

- validation is two booleans: `gate`, read on entry, and `gateOnRollback`, read
  again when the rollback re-enters `setSession`;
- whether `Session.init` succeeds is the function `compatible(arena, session)`;
- `Session.run` appends to `ticks`.

The module-level predicate `Coherent(m, subs)` states the registry invariant:
every installed session is subscribed, every subscribed session is installed in
some arena, and no session sits in two arenas. Lemmas show which transitions
keep it and which break it. `scenarios.dfy` holds client scenarios proved from
the contracts.

Behaviours of the code that a reader might not expect, all modelled as written:

- `removeArena` does not tear down a running session. The session gets no
  "ended" event and stays subscribed (`RemoveLeaksListener`, `Scenarios.Deregister`).
- `setSession` on an unregistered arena registers it implicitly.
- A session that fails to initialise gets an "ended" event but never a
  "started" one.
- One might expect the rollback after a failed initialisation to leave the
  arena idle. But line 157 of Game.java already stored the session, and if
  validation is refused when the rollback re-checks it (lines 142-148), the
  call returns before line 156 can clear the arena. The uninitialised session
  stays installed and unsubscribed (`RefusedRollbackBreaksCoherence`).
- Nothing stops a caller from installing one session in two arenas. The
  invariant holds only if callers never do that.
- `getSession` returns `null` both for an idle arena and for an unregistered one.
- `isActive(null)` is true, and `getArena(null)` returns an arena, whenever
  some registered arena is idle.

## Model

| member | source | states |
|---|---|---|
| `Registry.Game.constructor` | src/com/kieronwiltshire/vone/main/Game.java:58-61 | A new game has no arenas, no profiles, no events, no listeners and no ticks. |
| `Registry.Game.GetProfile` | src/com/kieronwiltshire/vone/main/Game.java:70-77 | Returns nothing exactly when no profile belongs to the player; otherwise returns the first profile in list order that belongs to the player. |
| `Registry.IndexOfPlayer` | src/com/kieronwiltshire/vone/main/Game.java:70-77 | The index found is in range, holds the player's profile, and no earlier profile belongs to that player. No index is found exactly when no profile belongs to the player. |
| `Registry.Game.AddArena` | src/com/kieronwiltshire/vone/main/Game.java:85-91 | Succeeds exactly when the arena was not registered. On success the arena is added idle. On failure nothing changes. |
| `Registry.Game.RemoveArena` | src/com/kieronwiltshire/vone/main/Game.java:99-105 | Succeeds exactly when the arena was registered. The key is deleted and every other entry is kept. The event log and the listener set are untouched, even when the arena was running a session. |
| `Registry.RemoveIdleKeepsCoherent` | src/com/kieronwiltshire/vone/main/Game.java:99-105 | Deregistering an idle or unknown arena keeps the registry invariant. |
| `Registry.RemoveRunningBreaksCoherence` | src/com/kieronwiltshire/vone/main/Game.java:99-105 | Deregistering an arena that runs a session breaks the invariant: the session still listens but no arena holds it. |
| `Registry.RemoveLeaksListener` | src/com/kieronwiltshire/vone/main/Game.java:99-105 | After deregistering an arena that ran a session, that session still listens for events, yet no remaining arena holds it. |
| `Registry.Game.ContainsArena` | src/com/kieronwiltshire/vone/main/Game.java:113-115 | True exactly for registered arenas, idle or not. |
| `Registry.Game.GetArena` | src/com/kieronwiltshire/vone/main/Game.java:124-132 | Returns no arena exactly when no arena holds the given value. Otherwise it returns a registered arena that holds it; for a null session that is an idle arena. |
| `Registry.Game.SetSession` | src/com/kieronwiltshire/vone/main/Game.java:141-173 | If validation is refused, it fails and changes nothing. Otherwise the arena's previous occupant, if any, gets an Ended event and is unsubscribed. The arena is then set, and registered if it was unknown. A null session returns true and leaves the arena idle. A session that initialises is stored, gets a Started event, is subscribed, and the call returns true. A session that fails to initialise makes the call return false: with validation still granted it gets an Ended event and no Started event, is unsubscribed, and the arena is idle; with validation refused on the re-check it stays installed. No other arena changes. |
| `Registry.ClearKeepsCoherent` | src/com/kieronwiltshire/vone/main/Game.java:151-157 | Tearing down an arena's occupant and leaving the arena idle keeps the registry invariant. |
| `Registry.InstallKeepsCoherent` | src/com/kieronwiltshire/vone/main/Game.java:151-163 | Installing a session that initialises keeps the invariant, provided the session does not already run in another arena. |
| `Registry.RollbackKeepsCoherent` | src/com/kieronwiltshire/vone/main/Game.java:159-170 | The rollback after a failed initialisation keeps the invariant, under the same proviso. |
| `Registry.RefusedRollbackBreaksCoherence` | src/com/kieronwiltshire/vone/main/Game.java:164-170 | If validation is refused during the rollback, the installed session is not subscribed, so the invariant fails. |
| `Registry.Game.GetSession` | src/com/kieronwiltshire/vone/main/Game.java:182-184 | Returns a session only for a registered arena that holds it. Returns null exactly when the arena is idle or unregistered. |
| `Registry.Game.IsActiveSession` | src/com/kieronwiltshire/vone/main/Game.java:192-194 | True exactly when some registered arena holds the value. For null this means some arena is idle. |
| `Registry.Game.IsActiveArena` | src/com/kieronwiltshire/vone/main/Game.java:202-204 | True exactly when the arena is registered and holds a session. |
| `Registry.Game.GetSessions` | src/com/kieronwiltshire/vone/main/Game.java:212-224 | Returns null exactly when no arena holds a session. Otherwise each session appears as many times as there are arenas holding it, and a session appears exactly when it is active. |
| `Registry.Game.GetArenas` | src/com/kieronwiltshire/vone/main/Game.java:233-248 | Returns null exactly when no arena is registered. Otherwise it lists each arena at most once: all registered arenas, or with `active` exactly those holding a session. That list may be empty. |
| `Registry.Enumerate` | src/com/kieronwiltshire/vone/main/Game.java:246 | Lists every element of the key set exactly once. |
| `Registry.Game.Run` | src/com/kieronwiltshire/vone/main/Game.java:251-259 | Earlier ticks are kept. The new ticks give each running session one tick per arena holding it, and no other session gets a tick. |
| `Registry.Game.OnJoin` | src/com/kieronwiltshire/vone/main/Game.java:262-266 | Appends a profile for the player only when none exists. Afterwards the player has a profile, and "at most one profile per player" is preserved. |
| `Registry.Game.OnQuit` | src/com/kieronwiltshire/vone/main/Game.java:268-273 | Cuts out exactly the player's first profile and keeps the others in order. With at most one profile per player, the player has none afterwards and the property is preserved. |
| `Registry.RemoveFirst` | src/com/kieronwiltshire/vone/main/Game.java:271 | Removing an absent profile changes nothing. Removing a present one shortens the list by one. |
| `Registry.RemoveFirstAt` | src/com/kieronwiltshire/vone/main/Game.java:271 | Removing the first occurrence of the element at position i removes exactly position i. |
| `Registry.CutKeepsUnique` | src/com/kieronwiltshire/vone/main/Game.java:268-273 | In a list with one profile per player, cutting out one profile keeps it duplicate-free and leaves no profile for that player. |
| `Scenarios.RegisterTwice` | src/com/kieronwiltshire/vone/main/Game.java:85-115 | The first registration succeeds and the arena is then contained. A second registration is refused. |
| `Scenarios.Replace` | src/com/kieronwiltshire/vone/main/Game.java:151-163 | Replacing a running session yields the log Started(old), Ended(old), Started(new). The arena then holds the new session, only the new one listens, and the old one ends exactly once. |
| `Scenarios.Incompatible` | src/com/kieronwiltshire/vone/main/Game.java:159-170 | A session that fails to initialise: the call fails, the arena is registered and idle, the log is just Ended(s), and s does not listen. |
| `Scenarios.AssignThenClear` | src/com/kieronwiltshire/vone/main/Game.java:141-204 | After install then clear, the session was active, the arena is now idle but still registered, and the session is no longer active. |
| `Scenarios.TwoArenas` | src/com/kieronwiltshire/vone/main/Game.java:233-245 | With two arenas each running a session, the active listing holds exactly those two arenas. |
| `Scenarios.Deregister` | src/com/kieronwiltshire/vone/main/Game.java:99-105 | Deregistering a running arena removes it from the listing, and its session is no longer active but still listens. |
| `Scenarios.NothingRunning` | src/com/kieronwiltshire/vone/main/Game.java:212-248 | With no arenas, and with only idle arenas, the session list is null. An idle arena is listed among all arenas, and the active listing is empty but not null. |
| `Scenarios.JoinTwiceThenQuit` | src/com/kieronwiltshire/vone/main/Game.java:262-273 | Joining twice leaves one profile, and quitting leaves none. |

## Left out

- `src/com/kieronwiltshire/vone/configuration/ConfigurationFile.java`: file-system and YAML storage only; it has no registry logic.
- The singleton `getInstance` (Game.java:44-49): the model uses an explicitly constructed `Game`.
- Console messages, `printStackTrace` and the environment-status check inside `setSession`: diagnostic output only.
- Run: the model assumes `Session.run` (Game.java:255) never throws. In Java an exception there stops the loop at lines 253-257, and the sessions not yet visited get no tick.
- SetSession: the model assumes `Session.init` (Game.java:161) fails only with `IncompatibleArenaSessionException` (line 164). Any other exception escapes after line 157 stored the session, leaving it installed with no Started event, no subscription and no rollback.
- Bukkit's event bus (`callEvent`, `registerEvents`, `HandlerList.unregisterAll`): modelled only by the event log and the listener set. Observers of the events are not modelled. Registering a session that is already a listener is a set union, so double registration is not counted.
- `Session.init`, `Session.run`, `Profile` and `Vone.isValidated`: code that is not part of this model. They appear as the `compatible` oracle, an entry in `ticks`, a profile that holds only its player, and the `gate`/`gateOnRollback` inputs.
- A session whose tick changes the registry while `run` iterates (a `ConcurrentModificationException` in Java) is not modelled; the map is fixed during `Run`.
- Java `null` arenas and players are not modelled: arenas, sessions and players are plain identities. Profile identity is equality of the player.
- The order of `HashMap` iteration is not modelled. `GetSessions`, `GetArenas` and `Run` promise contents and multiplicities, not order.
