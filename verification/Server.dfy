/** The request handlers as methods over the server's tables, with the loops of Session::start
    and Session::~Session over a session's handlers. */
module Servers {
  import opened Registries

  // The consumers and the running producers after the session has left some of its tracks.
  ghost function Without(s: Registry, done: set<Track>, id: Id): map<Track, set<Id>> {
    map t | t in s.consumers :: if t in done then s.consumers[t] - {id} else s.consumers[t]
  }

  ghost function StillActive(s: Registry, done: set<Track>, id: Id): set<Track> {
    set t | t in s.active && !(t in done && (t in s.consumers ==> s.consumers[t] <= {id}))
  }

  lemma UnregisterOne(s: Registry, done: set<Track>, id: Id, t: Track)
    requires t in s.consumers
    ensures var left := Without(s, done, id)[t];
            && Without(s, done, id)[t := left - {id}] == Without(s, done + {t}, id)
            && (if left <= {id} then StillActive(s, done, id) - {t} else StillActive(s, done, id))
               == StillActive(s, done + {t}, id)
  {
    var m, m' := Without(s, done, id), Without(s, done + {t}, id);
    assert m[t] - {id} == m'[t];
    assert m[t] <= {id} <==> s.consumers[t] <= {id};
  }

  lemma TracksKnown(s: Registry, id: Id)
    requires Sound(s) && id in s.sessions
    ensures forall n :: n in s.sessions[id] ==> s.sessions[id][n] in s.consumers
  {
    assert forall n :: n in s.sessions[id] ==> Holds(s, id, s.sessions[id][n]);
  }

  lemma SoundThreads(s: Registry, id: Id)
    requires Sound(s)
    ensures forall n :: (id, n) in s.playing ==> Runs(s, id, n)
  {}

  lemma TerminateIs(s: Registry, id: Id)
    ensures Terminate(s, id) ==
            if id !in s.sessions then s
            else
              var ts := s.sessions[id].Values;
              s.(sessions := s.sessions - {id}, consumers := Without(s, ts, id), active := StillActive(s, ts, id),
                 playing := (set p | p in s.playing && p.0 != id))
    ensures Without(s, {}, id) == s.consumers && StillActive(s, {}, id) == s.active
  {}

  lemma WithoutKeys(s: Registry, done: set<Track>, id: Id)
    ensures Without(s, done, id).Keys == s.consumers.Keys
  {}

  class Server {
    var sessions: map<Id, Handlers>
    var consumers: map<Track, set<Id>>
    var active: set<Track>
    var playing: set<(Id, string)>
    ghost var alive: bool
    var owned: map<Conn, Id>

    ghost function State(): Registry
      reads this
    {
      Registry(sessions, consumers, active, playing, alive, owned)
    }

    ghost predicate Valid()
      reads this
    {
      Sound(State())
    }

    constructor (tracks: set<Track>)
      ensures Valid() && State() == Empty(tracks)
    {
      sessions, owned, active, playing, alive := map[], map[], {}, {}, true;
      consumers := map t | t in tracks :: {};
    }

    // The last consumer of a track stops it.
    method UnregisterSession(t: Track, id: Id)
      requires t in consumers
      modifies `consumers, `active
      ensures consumers == old(consumers)[t := old(consumers)[t] - {id}]
      ensures active == if old(consumers)[t] <= {id} then old(active) - {t} else old(active)
    {
      consumers := consumers[t := consumers[t] - {id}];
      if consumers[t] == {} {
        active := active - {t};
      }
    }

    method TerminateSession(id: Id)
      requires Valid()
      modifies this
      ensures Valid() && State() == Terminate(old(State()), id)
    {
      hide Sound, Terminate, Without, StillActive;
      ghost var s := State();
      TerminateSound(s, id);
      TerminateIs(s, id);
      if id !in sessions { return; }
      TracksKnown(s, id);
      var handlers := sessions[id];
      playing := (set p | p in playing && p.0 != id); // stop joins every sender thread
      sessions := sessions - {id};
      var left := handlers.Keys;
      ghost var done: set<Track> := {};
      while left != {}
        invariant left <= handlers.Keys
        invariant done == set n | n in handlers && n !in left :: handlers[n]
        invariant sessions == s.sessions - {id} && owned == s.owned && alive == s.alive
        invariant playing == (set p | p in s.playing && p.0 != id)
        invariant consumers == Without(s, done, id) && active == StillActive(s, done, id)
      {
        var n :| n in left;
        UnregisterOne(s, done, id, handlers[n]);
        WithoutKeys(s, done, id);
        UnregisterSession(handlers[n], id);
        left := left - {n};
        done := done + {handlers[n]};
      }
      assert done == handlers.Values;
    }

    // The new handler takes the place of an old one of the same name.
    method AddMediaTrack(id: Id, track: Track)
      requires id in sessions && track in consumers
      modifies `sessions, `consumers, `playing, `alive
      ensures sessions == old(sessions)[id := old(sessions)[id][track.name := track]]
      ensures consumers == old(consumers)[track := old(consumers)[track] + {id}]
      ensures playing == old(playing) - {(id, track.name)}
      ensures alive == (old(alive) && (id, track.name) !in old(playing))
    {
      consumers := consumers[track := consumers[track] + {id}];
      alive := alive && (id, track.name) !in playing;
      playing := playing - {(id, track.name)};
      sessions := sessions[id := sessions[id][track.name := track]];
    }

    method HandleSetup(c: Conn, track: Track, header: Id, generated: Id)
      requires Valid()
      modifies this
      ensures Valid() && State() == Step(old(State()), Setup(c, track, header, generated))
    {
      hide Sound, Terminate;
      ghost var s := State();
      SetupSound(s, Setup(c, track, header, generated));
      var sessionId := header;
      if sessionId == "" {
        sessionId := generated;
        owned := owned[c := sessionId];
      }
      if track !in consumers { return; }
      if sessionId !in sessions {
        sessions := sessions[sessionId := map[]];
      }
      AddMediaTrack(sessionId, track);
      assert sessions == s.sessions[sessionId := HandlersOf(s, sessionId)[track.name := track]];
    }

    method HandlePlay(id: Id)
      requires Valid()
      modifies this
      ensures Valid() && State() == Step(old(State()), Play(id))
    {
      hide Sound, Terminate;
      ghost var s := State();
      StepSound(s, Play(id));
      SoundThreads(s, id);
      if id in sessions {
        var handlers := sessions[id];
        var left := handlers.Keys;
        while left != {}
          invariant left <= handlers.Keys
          invariant sessions == s.sessions && owned == s.owned && consumers == s.consumers && alive == s.alive
          invariant active == s.active + set n | n in handlers && n !in left :: handlers[n]
          invariant playing == s.playing + set n | n in handlers && n !in left :: (id, n)
        {
          var n :| n in left;
          if (id, n) !in playing {
            active := active + {handlers[n]};
            playing := playing + {(id, n)};
          }
          left := left - {n};
        }
        assert active == s.active + handlers.Values && playing == s.playing + Threads(id, handlers);
      }
    }

    method HandleTeardown(id: Id)
      requires Valid()
      modifies this
      ensures Valid() && State() == Step(old(State()), Teardown(id))
    {
      TerminateSession(id);
    }

    // The connection's destructor.
    method CloseConnection(c: Conn)
      requires Valid()
      modifies this
      ensures Valid() && State() == Step(old(State()), Close(c))
    {
      hide Sound;
      StepSound(State(), Close(c));
      if c in owned { TerminateSession(owned[c]); }
      owned := owned - {c};
    }
  }
}
