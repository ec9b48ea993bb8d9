/**
 * useGameState: the game state, its partial-update merge, reset, and write-through persistence
 * of the whole state in the session store under one fixed key.
 *
 * The session store is a `map<string, string>`; JSON.stringify/JSON.parse of a state are the
 * codec of module JsonCodec. React's state hook is modelled by a class whose methods do what a
 * state change followed by the persistence effect does.
 */
module GameStateHook {
  import opened Wrappers
  import opened GameTypes
  import JsonCodec

  /** The session-store key the whole state lives under. */
  const StorageKey: string := "chatgame_state"

  /** The state of a new game: at the question "start", nothing chosen, not finished. */
  const InitialState: GameState := GameState(Some("start"), [], false, None)

  /**
   * A `Partial<GameState>`: `None` leaves a field out of the update, `Some(v)` sets it to `v`
   * (for the nullable fields `v` is itself an `Option`, so `Some(None)` sets the field to null).
   */
  datatype Partial = Partial(
    currentQuestionId: Option<Option<string>>,
    history: Option<seq<string>>,
    isFinished: Option<bool>,
    finalEpilogueId: Option<Option<string>>)

  /** The empty partial `{}`. */
  const NoFields: Partial := Partial(None, None, None, None)

  /** `{...prev, ...patch}`: every field present in `patch` overwrites, every other field stays. */
  function Merge(prev: GameState, patch: Partial): (r: GameState)
    ensures patch.currentQuestionId.Some? ==> r.currentQuestionId == patch.currentQuestionId.value
    ensures patch.currentQuestionId.None? ==> r.currentQuestionId == prev.currentQuestionId
    ensures patch.history.Some? ==> r.history == patch.history.value
    ensures patch.history.None? ==> r.history == prev.history
    ensures patch.isFinished.Some? ==> r.isFinished == patch.isFinished.value
    ensures patch.isFinished.None? ==> r.isFinished == prev.isFinished
    ensures patch.finalEpilogueId.Some? ==> r.finalEpilogueId == patch.finalEpilogueId.value
    ensures patch.finalEpilogueId.None? ==> r.finalEpilogueId == prev.finalEpilogueId
  {
    GameState(
      patch.currentQuestionId.GetOr(prev.currentQuestionId),
      patch.history.GetOr(prev.history),
      patch.isFinished.GetOr(prev.isFinished),
      patch.finalEpilogueId.GetOr(prev.finalEpilogueId))
  }

  /** Spreading `p` then `q` is spreading one partial: `q`'s fields, and `p`'s where `q` has none. */
  function Combine(p: Partial, q: Partial): Partial {
    Partial(
      if q.currentQuestionId.Some? then q.currentQuestionId else p.currentQuestionId,
      if q.history.Some? then q.history else p.history,
      if q.isFinished.Some? then q.isFinished else p.isFinished,
      if q.finalEpilogueId.Some? then q.finalEpilogueId else p.finalEpilogueId)
  }

  // ---------------------------------------------------------------------------------------------
  // Properties of the merge

  /** An empty update changes nothing. */
  lemma MergeNoFields(s: GameState)
    ensures Merge(s, NoFields) == s
  {
  }

  /** Applying the same update twice is applying it once. */
  lemma MergeIdempotent(s: GameState, p: Partial)
    ensures Merge(Merge(s, p), p) == Merge(s, p)
  {
  }

  /** Two successive updates are one update with the later fields winning. */
  lemma MergeCompose(s: GameState, p: Partial, q: Partial)
    ensures Merge(Merge(s, p), q) == Merge(s, Combine(p, q))
  {
  }

  /** An update that sets every field yields exactly those values, whatever came before. */
  lemma MergeFull(s: GameState, t: GameState)
    ensures Merge(s, Partial(Some(t.currentQuestionId), Some(t.history), Some(t.isFinished),
                             Some(t.finalEpilogueId))) == t
  {
  }

  // ---------------------------------------------------------------------------------------------
  // Loading

  /** JSON.parse throws on a stored text it cannot read. */
  datatype LoadError = SyntaxError

  /**
   * The lazy initial state: a missing or empty stored value (both falsy) gives the initial
   * state; any other value is parsed, and a value that does not parse is an error.
   */
  function Load(store: map<string, string>): (r: Result<GameState, LoadError>)
    ensures StorageKey !in store || store[StorageKey] == [] ==> r == Success(InitialState)
    ensures StorageKey in store && store[StorageKey] != [] ==>
      (r.Success? <==> JsonCodec.Decode(store[StorageKey]).Some?)
    ensures StorageKey in store && store[StorageKey] != [] && r.Success? ==>
      Some(r.value) == JsonCodec.Decode(store[StorageKey])
  {
    if StorageKey !in store || store[StorageKey] == [] then Success(InitialState)
    else
      match JsonCodec.Decode(store[StorageKey])
      case Some(s) => Success(s)
      case None => Failure(SyntaxError)
  }

  /** Whatever a store held under the key, saving a state and loading gives that state back. */
  lemma LoadAfterSave(store: map<string, string>, s: GameState)
    ensures Load(store[StorageKey := JsonCodec.Encode(s)]) == Success(s)
  {
    JsonCodec.EncodeNonEmpty(s);
    JsonCodec.DecodeEncode(s);
  }

  /** Loading reads nothing but the one key. */
  lemma LoadIgnoresOtherKeys(store: map<string, string>, k: string, v: string)
    requires k != StorageKey
    ensures Load(store[k := v]) == Load(store)
  {
  }

  // ---------------------------------------------------------------------------------------------
  // The hook

  /**
   * One mounted useGameState: the current `state` and the session store it writes through to.
   * After every operation the store holds the encoding of the current state under StorageKey.
   */
  class Session {
    var state: GameState
    var storage: map<string, string>

    /** The store holds exactly what reloading needs to get the current state back. */
    ghost predicate Persisted()
      reads this
    {
      StorageKey in storage && storage[StorageKey] == JsonCodec.Encode(state)
    }

    /** The first render with a loaded state, and the persistence effect that follows it. */
    constructor (loaded: GameState, store: map<string, string>)
      ensures state == loaded
      ensures storage == store[StorageKey := JsonCodec.Encode(loaded)]
      ensures Persisted()
    {
      state := loaded;
      storage := store[StorageKey := JsonCodec.Encode(loaded)];
    }

    /** Mounting: load from the store (failing as JSON.parse would), then persist. */
    static method Mount(store: map<string, string>) returns (r: Result<Session, LoadError>)
      ensures r.Failure? <==> Load(store).Failure?
      ensures r.Success? ==> fresh(r.value) && r.value.state == Load(store).value
      ensures r.Success? ==> r.value.storage == store[StorageKey := JsonCodec.Encode(r.value.state)]
      ensures r.Success? ==> r.value.Persisted()
    {
      var loaded := Load(store);
      if loaded.Failure? {
        return Failure(loaded.error);
      }
      var session := new Session(loaded.value, store);
      return Success(session);
    }

    /** The persistence effect: the whole state, encoded, under StorageKey; other keys untouched. */
    method Save()
      modifies this`storage
      ensures storage == old(storage)[StorageKey := JsonCodec.Encode(state)]
      ensures Persisted()
    {
      storage := storage[StorageKey := JsonCodec.Encode(state)];
    }

    /** updateState: merge the partial into the state, then persist. */
    method Update(patch: Partial)
      modifies this
      ensures state == Merge(old(state), patch)
      ensures storage == old(storage)[StorageKey := JsonCodec.Encode(state)]
      ensures Persisted()
    {
      state := Merge(state, patch);
      Save();
    }

    /** resetGame: back to the initial state whatever came before, then persist. */
    method Reset()
      modifies this
      ensures state == InitialState
      ensures storage == old(storage)[StorageKey := JsonCodec.Encode(InitialState)]
      ensures Persisted()
    {
      state := InitialState;
      Save();
    }
  }

  /** A persisted session reloads to its own state: the invariant every Session method keeps is what reloading needs. */
  lemma ReloadPersisted(session: Session)
    requires session.Persisted()
    ensures Load(session.storage) == Success(session.state)
  {
    assert session.storage == session.storage[StorageKey := JsonCodec.Encode(session.state)];
    LoadAfterSave(session.storage, session.state);
  }

  /** Resetting twice leaves the session as resetting once does. */
  method ResetTwice(session: Session)
    modifies session
    ensures session.state == InitialState
    ensures session.storage == old(session.storage)[StorageKey := JsonCodec.Encode(InitialState)]
  {
    session.Reset();
    session.Reset();
  }
}
