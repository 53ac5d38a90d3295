/** The tables a request history keeps: the sessions and their tracks, the sessions registered
    with each track, the tracks whose producer runs, the handlers that have a sender thread, and
    the session each connection owns. One request, or one connection close, is one step. */
module Registries {
  type Id = string
  type Conn = nat
  type Handlers = map<string, Track>

  // A media track: the stream it belongs to and its name there.
  datatype Track = Track(stream: string, name: string)

  datatype Registry = Registry(
    sessions: map<Id, Handlers>,      // live sessions, their handlers by track name
    consumers: map<Track, set<Id>>,   // every track of the server, the ids registered with it
    active: set<Track>,               // started and not stopped
    playing: set<(Id, string)>,       // handlers with a sender thread that nobody has joined
    alive: bool,                      // no such thread was destroyed, which ends the process
    owned: map<Conn, Id>)             // the session id of each connection that generated one

  datatype Request =
    | Setup(c: Conn, track: Track, header: Id, generated: Id)
    | Play(id: Id)
    | Teardown(id: Id)
    | Close(c: Conn)

  function Empty(tracks: set<Track>): Registry {
    Registry(map[], map t | t in tracks :: {}, {}, {}, true, map[])
  }

  function SessionOf(e: Request): Id
    requires e.Setup?
  {
    if e.header == "" then e.generated else e.header
  }

  function HandlersOf(s: Registry, id: Id): Handlers {
    if id in s.sessions then s.sessions[id] else map[]
  }

  // A handler that is already there is replaced, with its sender thread if it has one.
  function SetupStep(s: Registry, e: Request): Registry
    requires e.Setup?
  {
    var id := SessionOf(e);
    var s1 := if e.header == "" then s.(owned := s.owned[e.c := id]) else s;
    if e.track !in s.consumers then s1
    else s1.(sessions := s.sessions[id := HandlersOf(s, id)[e.track.name := e.track]],
             consumers := s.consumers[e.track := s.consumers[e.track] + {id}],
             playing := s.playing - {(id, e.track.name)},
             alive := s.alive && (id, e.track.name) !in s.playing)
  }

  // Destroying a session joins its sender threads and unregisters it from the track of every
  // handler; a track left without consumers is stopped.
  function Terminate(s: Registry, id: Id): Registry {
    if id !in s.sessions then s
    else
      var ts := s.sessions[id].Values;
      s.(sessions := s.sessions - {id},
         consumers := map t | t in s.consumers :: if t in ts then s.consumers[t] - {id} else s.consumers[t],
         playing := (set p | p in s.playing && p.0 != id),
         active := set t | t in s.active && !(t in ts && (t in s.consumers ==> s.consumers[t] <= {id})))
  }

  function Threads(id: Id, handlers: Handlers): set<(Id, string)> {
    set n | n in handlers :: (id, n)
  }

  function Step(s: Registry, e: Request): Registry {
    match e
    case Setup(_, _, _, _) => SetupStep(s, e)
    case Play(id) =>
      if id in s.sessions then
        s.(active := s.active + s.sessions[id].Values, playing := s.playing + Threads(id, s.sessions[id]))
      else s
    case Teardown(id) => Terminate(s, id)
    case Close(c) =>
      var s1 := if c in s.owned then Terminate(s, s.owned[c]) else s;
      s1.(owned := s.owned - {c})
  }

  // ---------------------------------------------------------------- agreement

  ghost predicate Holds(s: Registry, id: Id, t: Track) {
    id in s.sessions && t in s.sessions[id].Values
  }

  // A live session's handler whose track is running.
  ghost predicate Runs(s: Registry, id: Id, n: string) {
    id in s.sessions && n in s.sessions[id] && s.sessions[id][n] in s.active
  }

  // What holds after any request at all: a handler's session is registered with its track, and a
  // handler with a sender thread has a running track.
  ghost predicate Sound(s: Registry) {
    && (forall t, id :: Holds(s, id, t) ==> t in s.consumers && id in s.consumers[t])
    && (forall id, n :: (id, n) in s.playing ==> Runs(s, id, n))
  }

  /** A track's registered consumers are exactly the live sessions with a handler for it, and
      every running producer has a consumer; the server lives, and every sender thread belongs to
      a live session's handler of a running track. */
  ghost predicate Agree(s: Registry) {
    && (forall t, id :: t in s.consumers ==> (id in s.consumers[t] <==> Holds(s, id, t)))
    && (forall id, t :: Holds(s, id, t) ==> t in s.consumers)
    && (forall id :: id in s.sessions ==> forall n :: n in s.sessions[id] ==> s.sessions[id][n].name == n)
    && (forall t :: t in s.active ==> t in s.consumers && s.consumers[t] != {})
    && s.alive && Sound(s)
  }

  lemma TerminateSound(s: Registry, id: Id)
    requires Sound(s)
    ensures Sound(Terminate(s, id))
  {
    var s' := Terminate(s, id);
    forall t, i | Holds(s', i, t) ensures t in s'.consumers && i in s'.consumers[t] {
      assert Holds(s, i, t);
    }
    forall i, n | (i, n) in s'.playing ensures Runs(s', i, n) {
      assert (i, n) in s.playing && Holds(s, i, s.sessions[i][n]);
    }
  }

  lemma SetupSound(s: Registry, e: Request)
    requires Sound(s) && e.Setup?
    ensures Sound(Step(s, e))
  {
    var s' := Step(s, e);
    forall t, i | Holds(s', i, t) ensures t in s'.consumers && i in s'.consumers[t] {
      assert Holds(s, i, t) || (i == SessionOf(e) && t == e.track);
    }
    forall i, n | (i, n) in s'.playing ensures Runs(s', i, n) {
      assert (i, n) in s.playing;
    }
  }

  lemma StepSound(s: Registry, e: Request)
    requires Sound(s)
    ensures Sound(Step(s, e))
  {
    var s' := Step(s, e);
    match e
    case Setup(_, _, _, _) => SetupSound(s, e);
    case Play(_) =>
      assert forall t, i :: Holds(s', i, t) <==> Holds(s, i, t);
    case Teardown(id) => TerminateSound(s, id);
    case Close(c) =>
      if c in s.owned { TerminateSound(s, s.owned[c]); }
      var s1 := if c in s.owned then Terminate(s, s.owned[c]) else s;
      assert forall t, i :: Holds(s', i, t) <==> Holds(s1, i, t);
  }

  // A session sets up a track whose name it already uses for a track of another stream: the old
  // handler is dropped without being unregistered.
  predicate Displaces(s: Registry, e: Request) {
    && e.Setup? && e.track in s.consumers
    && SessionOf(e) in s.sessions && e.track.name in s.sessions[SessionOf(e)]
    && s.sessions[SessionOf(e)][e.track.name] != e.track
  }

  // A session sets up a track again that it is playing: the old handler's thread is destroyed
  // without having been joined.
  predicate Crashes(s: Registry, e: Request) {
    e.Setup? && e.track in s.consumers && (SessionOf(e), e.track.name) in s.playing
  }

  lemma SetupAgrees(s: Registry, e: Request)
    requires Agree(s) && e.Setup? && !Displaces(s, e) && !Crashes(s, e)
    ensures Agree(Step(s, e))
  {
    hide Sound;
    SetupSound(s, e);
    var id, s', h := SessionOf(e), Step(s, e), HandlersOf(s, SessionOf(e));
    if e.track in s.consumers {
      var h' := h[e.track.name := e.track];
      assert h'.Values == h.Values + {e.track} by {
        assert e.track.name in h';
        forall t | t in h.Values ensures t in h'.Values {
          var n :| n in h && h[n] == t;
          assert n in h' && h'[n] == t;
        }
      }
      forall t, i ensures Holds(s', i, t) <==> Holds(s, i, t) || (i == id && t == e.track) {
        assert i != id ==> (i in s'.sessions <==> i in s.sessions);
      }
      forall t | t in s'.consumers ensures forall i :: i in s'.consumers[t] <==> Holds(s', i, t) {}
    } else {
      OwnedIrrelevant(s, s'.owned);
    }
  }

  lemma DisplacedDisagrees(s: Registry, e: Request)
    requires Agree(s) && Displaces(s, e)
    ensures !Agree(Step(s, e))
  {
    var id, n := SessionOf(e), e.track.name;
    var was := s.sessions[id][n];
    var s' := Step(s, e);
    assert Holds(s, id, was);
    assert id in s'.consumers[was];
    assert forall m :: m in s'.sessions[id] && m != n ==> s'.sessions[id][m] == s.sessions[id][m];
  }

  lemma TerminateAgrees(s: Registry, id: Id)
    requires Agree(s)
    ensures Agree(Terminate(s, id))
  {
    hide Sound;
    TerminateSound(s, id);
    var s' := Terminate(s, id);
    if id in s.sessions {
      forall t, i ensures Holds(s', i, t) <==> Holds(s, i, t) && i != id {}
      forall t | t in s'.consumers ensures s'.consumers[t] == s.consumers[t] - {id} {
        if !Holds(s, id, t) { assert id !in s.consumers[t]; }
      }
    }
  }

  lemma PlayAgrees(s: Registry, id: Id)
    requires Agree(s)
    ensures Agree(Step(s, Play(id)))
  {
    hide Sound;
    StepSound(s, Play(id));
    if id in s.sessions {
      var s' := Step(s, Play(id));
      forall t, i ensures Holds(s', i, t) <==> Holds(s, i, t) {}
      forall t | t in s'.active ensures t in s'.consumers && s'.consumers[t] != {} {
        if t !in s.active { assert Holds(s, id, t); assert id in s.consumers[t]; }
      }
    }
  }

  /** The server lives and its tables stay in agreement through a request exactly when the request
      displaces no handler and sets up no track that is being played. */
  lemma StepAgrees(s: Registry, e: Request)
    requires Agree(s)
    ensures Agree(Step(s, e)) <==> !Displaces(s, e) && !Crashes(s, e)
  {
    match e
    case Setup(_, _, _, _) =>
      if Displaces(s, e) {
        DisplacedDisagrees(s, e);
      } else if !Crashes(s, e) {
        SetupAgrees(s, e);
      }
    case Play(id) => PlayAgrees(s, id);
    case Teardown(id) => TerminateAgrees(s, id);
    case Close(c) =>
      if c in s.owned { TerminateAgrees(s, s.owned[c]); }
      OwnedIrrelevant(if c in s.owned then Terminate(s, s.owned[c]) else s, s.owned - {c});
  }

  lemma OwnedIrrelevant(s: Registry, owned: map<Conn, Id>)
    requires Agree(s)
    ensures Agree(s.(owned := owned))
  {
    var s' := s.(owned := owned);
    forall t, i ensures Holds(s', i, t) <==> Holds(s, i, t) {}
  }

  // ---------------------------------------------------------------- what a request does

  // From s to s' the session id has come to its end, and nothing else has happened.
  ghost predicate Ends(s: Registry, s': Registry, id: Id) {
    && id !in s'.sessions && (forall n :: (id, n) !in s'.playing)
    && s'.consumers.Keys == s.consumers.Keys
    && (forall t :: t in s'.consumers && Holds(s, id, t) ==> id !in s'.consumers[t])
    && (forall t :: t in s'.consumers && Holds(s, id, t) && s'.consumers[t] == {} ==> t !in s'.active)
    && OthersStay(s, s', id)
    && s'.owned == s.owned && s'.alive == s.alive
  }

  // The other sessions keep their handlers, registrations and threads; a track stops only if id
  // leaves it without consumers, and none starts.
  ghost predicate OthersStay(s: Registry, s': Registry, id: Id) {
    && (forall i :: i != id ==> (i in s'.sessions <==> i in s.sessions))
    && (forall i :: i != id && i in s.sessions && i in s'.sessions ==> s'.sessions[i] == s.sessions[i])
    && (forall t, i :: i != id && t in s.consumers && t in s'.consumers ==>
          (i in s'.consumers[t] <==> i in s.consumers[t]))
    && (forall i, n :: i != id ==> ((i, n) in s'.playing <==> (i, n) in s.playing))
    && (forall t :: t in s'.active ==> t in s.active)
    && (forall t :: t in s.active && t in s'.consumers ==> t in s'.active || (Holds(s, id, t) && s'.consumers[t] == {}))
  }

  lemma TerminateEnds(s: Registry, id: Id)
    requires Sound(s)
    ensures Ends(s, Terminate(s, id), id)
  {
    var s' := Terminate(s, id);
    if id in s.sessions {
      forall t | t in s'.consumers && Holds(s, id, t) ensures s'.consumers[t] == s.consumers[t] - {id} {}
      assert s'.consumers.Keys == s.consumers.Keys;
    } else {
      assert forall n :: (id, n) in s.playing ==> Runs(s, id, n);
    }
  }

  /** A teardown ends its session: it is gone with its threads and its registrations, a track that
      has no other session stops, and nobody else notices. Where the tables agree, its id is not
      left in any of them. */
  lemma TeardownEnds(s: Registry, id: Id)
    requires Sound(s)
    ensures Ends(s, Step(s, Teardown(id)), id)
    ensures Agree(s) ==> forall t :: t in s.consumers ==>
              t in Step(s, Teardown(id)).consumers && id !in Step(s, Teardown(id)).consumers[t]
  {
    TerminateEnds(s, id);
    if Agree(s) {
      forall t | t in s.consumers ensures id !in Step(s, Teardown(id)).consumers[t] {
        if !Holds(s, id, t) { assert id !in s.consumers[t]; }
      }
    }
  }

  /** The close of a connection ends the session it generated last, and only that. */
  lemma CloseEnds(s: Registry, c: Conn)
    requires Sound(s)
    ensures var s' := Step(s, Close(c));
            && s'.owned == s.owned - {c}
            && (if c in s.owned then Ends(s, s'.(owned := s.owned), s.owned[c]) else s'.(owned := s.owned) == s)
  {
    if c in s.owned { TerminateEnds(s, s.owned[c]); }
  }

  /** A PLAY starts every track of its session and gives every handler of it a sender thread; it
      changes nothing else, and nothing at all for an unknown session. */
  lemma PlayStarts(s: Registry, id: Id)
    ensures var s' := Step(s, Play(id));
            && s' == s.(active := s'.active, playing := s'.playing)
            && (forall t :: t in s'.active <==> t in s.active || Holds(s, id, t))
            && (forall i, n :: (i, n) in s'.playing <==>
                  (i, n) in s.playing || (i == id && id in s.sessions && n in s.sessions[id]))
  {}

  /** A SETUP of a known track gives its session, new or not, a handler for that track under the
      track's name and registers it; a SETUP of an unknown track does not. Its connection owns the
      session exactly if the request named none. */
  lemma SetupJoins(s: Registry, c: Conn, track: Track, header: Id, generated: Id)
    ensures var s' := Step(s, Setup(c, track, header, generated));
            var id := if header == "" then generated else header;
            && s'.owned == (if header == "" then s.owned[c := generated] else s.owned) && s'.active == s.active
            && (track !in s.consumers ==> s' == s.(owned := s'.owned))
            && (forall i, n :: (i, n) in s'.playing <==>
                  (i, n) in s.playing && !(track in s.consumers && i == id && n == track.name))
            && (s'.alive <==> s.alive && !(track in s.consumers && (id, track.name) in s.playing))
            && (track in s.consumers ==>
                  && s'.consumers == s.consumers[track := s.consumers[track] + {id}]
                  && s'.sessions.Keys == s.sessions.Keys + {id}
                  && (forall i :: i in s.sessions && i != id ==> s'.sessions[i] == s.sessions[i])
                  && track.name in s'.sessions[id] && s'.sessions[id][track.name] == track
                  && (forall n :: n != track.name ==>
                        (n in s'.sessions[id] <==> id in s.sessions && n in s.sessions[id]))
                  && (forall n :: n != track.name && id in s.sessions && n in s.sessions[id] ==>
                        s'.sessions[id][n] == s.sessions[id][n]))
  {}

  // ---------------------------------------------------------------- ownership

  ghost predicate OwnedBy(s: Registry, id: Id) {
    exists c :: c in s.owned && s.owned[c] == id
  }

  // Every live session would be ended by the close of some connection.
  ghost predicate AllOwned(s: Registry) {
    forall id :: id in s.sessions ==> OwnedBy(s, id)
  }

  // A request leaves a session nobody will end: a connection that owns a live session generates
  // a second one, or a SETUP names a session that neither exists nor is owned.
  ghost predicate Orphans(s: Registry, e: Request) {
    && e.Setup?
    && if e.header == "" then
         && e.c in s.owned && s.owned[e.c] in s.sessions && s.owned[e.c] != e.generated
         && !exists c :: c in s.owned && c != e.c && s.owned[c] == s.owned[e.c]
       else
         e.track in s.consumers && e.header !in s.sessions && !OwnedBy(s, e.header)
  }

  /** Sessions stay owned through a request exactly when it orphans none. */
  lemma StepOwned(s: Registry, e: Request)
    requires AllOwned(s)
    ensures AllOwned(Step(s, e)) <==> !Orphans(s, e)
  {
    var s' := Step(s, e);
    match e
    case Setup(_, _, _, _) => SetupOwned(s, e);
    case Play(_) =>
      assert forall id :: OwnedBy(s', id) <==> OwnedBy(s, id);
    case Teardown(id) =>
      assert forall i :: OwnedBy(s', i) <==> OwnedBy(s, i);
    case Close(c) =>
      forall id | id in s'.sessions ensures OwnedBy(s', id) {
        var d :| d in s.owned && s.owned[d] == id;
        assert d != c;
        assert d in s'.owned && s'.owned[d] == id;
      }
  }

  lemma SetupOwned(s: Registry, e: Request)
    requires AllOwned(s) && e.Setup?
    ensures AllOwned(Step(s, e)) <==> !Orphans(s, e)
  {
    var s' := Step(s, e);
    if e.header == "" {
      assert s'.owned[e.c] == e.generated && OwnedBy(s', e.generated);
      assert forall c :: c != e.c ==> (c in s'.owned <==> c in s.owned) && (c in s.owned ==> s'.owned[c] == s.owned[c]);
      if Orphans(s, e) {
        assert !OwnedBy(s', s.owned[e.c]);
      } else {
        forall id | id in s.sessions && id != e.generated ensures OwnedBy(s', id) {
          var d :| d in s.owned && s.owned[d] == id;
          if d == e.c {
            var d' :| d' in s.owned && d' != e.c && s.owned[d'] == id;
            assert s'.owned[d'] == id;
          } else {
            assert s'.owned[d] == id;
          }
        }
      }
    } else {
      assert forall id :: OwnedBy(s', id) <==> OwnedBy(s, id);
    }
  }

  // ---------------------------------------------------------------- histories

  ghost predicate Orderly(s: Registry, es: seq<Request>)
    decreases |es|
  {
    es == [] || (!Displaces(s, es[0]) && !Crashes(s, es[0]) && Orderly(Step(s, es[0]), es[1..]))
  }

  ghost predicate Tidy(s: Registry, es: seq<Request>)
    decreases |es|
  {
    es == [] || (!Orphans(s, es[0]) && Tidy(Step(s, es[0]), es[1..]))
  }

  function History(s: Registry, es: seq<Request>): Registry
    decreases |es|
  {
    if es == [] then s else History(Step(s, es[0]), es[1..])
  }

  lemma {:induction false} HistoryAgrees(s: Registry, es: seq<Request>)
    requires Agree(s) && Orderly(s, es)
    ensures Agree(History(s, es))
    ensures AllOwned(s) && Tidy(s, es) ==> AllOwned(History(s, es))
    decreases |es|
  {
    if es != [] {
      StepAgrees(s, es[0]);
      if AllOwned(s) { StepOwned(s, es[0]); }
      hide Agree, AllOwned, Displaces, Crashes, Orphans, Step;
      HistoryAgrees(Step(s, es[0]), es[1..]);
    }
  }

  /** Over any history that displaces no handler and sets up no track that is being played, the
      server lives and the tables agree, so a track without
      consumers has no running producer; and if no session was orphaned either, then once every
      connection has closed there is no session, no registered consumer and no running producer. */
  lemma RegistryAgrees(tracks: set<Track>, es: seq<Request>)
    requires Orderly(Empty(tracks), es)
    ensures var s := History(Empty(tracks), es);
            && (forall t, id :: t in s.consumers ==> (id in s.consumers[t] <==> Holds(s, id, t)))
            && (forall t :: t in s.active ==> t in s.consumers && s.consumers[t] != {})
            && s.alive && (forall p :: p in s.playing ==> p.0 in s.sessions)
            && (Tidy(Empty(tracks), es) && s.owned == map[] ==>
                  s.sessions == map[] && s.active == {} && s.playing == {}
                  && forall t :: t in s.consumers ==> s.consumers[t] == {})
  {
    HistoryAgrees(Empty(tracks), es);
    var s := History(Empty(tracks), es);
    if Tidy(Empty(tracks), es) && s.owned == map[] {
      forall id ensures id !in s.sessions {
        assert !OwnedBy(s, id);
      }
      forall t | t in s.consumers ensures s.consumers[t] == {} {
        forall id ensures id !in s.consumers[t] {}
      }
    }
  }

  lemma HistoryTwo(s: Registry, d: Request, e: Request)
    ensures History(s, [d, e]) == Step(Step(s, d), e)
  {
    hide Step;
    assert [d, e][1..] == [e] && [e][1..] == [];
    assert History(Step(Step(s, d), e), []) == Step(Step(s, d), e);
  }

  /** The requests that break the tables, and those that orphan a session, all have histories that
      lead up to them: a second stream with a track of the same name, a repeated SETUP after PLAY,
      a second session on one connection. */
  lemma EachCanHappen(a: Track, b: Track, c: Conn, id: Id, other: Id)
    requires a.name == b.name && a.stream != b.stream && id != "" && other != id
    ensures Displaces(History(Empty({a, b}), [Setup(c, a, "", id)]), Setup(c, b, id, other))
    ensures Crashes(History(Empty({a, b}), [Setup(c, a, "", id), Play(id)]), Setup(c, a, id, other))
    ensures Orphans(History(Empty({a, b}), [Setup(c, a, "", id)]), Setup(c, b, "", other))
  {
    var s0 := Empty({a, b});
    var s1 := Step(s0, Setup(c, a, "", id));
    assert History(s0, [Setup(c, a, "", id)]) == s1 by {
      assert [Setup(c, a, "", id)][1..] == [];
    }
    assert History(s0, [Setup(c, a, "", id), Play(id)]) == Step(s1, Play(id)) by {
      HistoryTwo(s0, Setup(c, a, "", id), Play(id));
    }
  }
}
