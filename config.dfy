/**
 * The configuration store (src/Config.cpp): values over defaults, one-time initialisation
 * that refuses re-entry, file values that may only override known keys, and the
 * `modified` flag that governs saving.
 *
 * The defaults the `setDefaults` listeners supply, whether a listener reads the store while
 * supplying them, and the object parsed from the file are an `Environment` given to the
 * store; JSON and the filesystem are not modelled, and a write is reported by its outcome.
 */
module Configuration {

  import opened Wrappers
  import opened Values

  /**
   * What the listeners of `setDefaults` supply; whether one of them, once its defaults are in,
   * reads the store through get or all; and the file's object (None: missing or unreadable).
   */
  datatype Environment = Environment(suppliedDefaults: map<string, Variant>, listenerReads: bool,
                                     file: Option<map<string, Variant>>)

  /** A call either completes or throws std::logic_error. */
  datatype Outcome<T> = Done(value: T) | LogicError(message: string)

  const ReentryMessage: string := "Cannot access configuration during the initialization process"

  datatype ConfigState = ConfigState(values: map<string, Variant>, defaults: map<string, Variant>,
                                     initialized: bool, initializing: bool, modified: bool,
                                     updates: nat, writes: seq<map<string, Variant>>)

  /** loadFromFile's merge: file values replace the values of keys already present; other keys are ignored. */
  function Merge(values: map<string, Variant>, file: map<string, Variant>): map<string, Variant>
  {
    map k | k in values :: if k in file then file[k] else values[k]
  }

  /** What a call leaves: whether it completed or threw, and the store's state afterwards. */
  datatype Step = Step(outcome: Outcome<()>, state: ConfigState)

  /**
   * ensureInitialized(loadFile) on a state. A listener that reads the store re-enters it while
   * `initializing` is set; the logic error thrown there leaves loadDefaults at the signal, so
   * the values are not replaced and the flags are never reset.
   */
  function EnsureStep(s: ConfigState, env: Environment, loadFile: bool): Step
  {
    if s.initialized then Step(Done(()), s)
    else if s.initializing then Step(LogicError(ReentryMessage), s)
    else if env.listenerReads then
      Step(LogicError(ReentryMessage), s.(defaults := env.suppliedDefaults, initializing := true))
    else
      var d := env.suppliedDefaults;
      var v := if loadFile && env.file.Some? then Merge(d, env.file.value) else d;
      Step(Done(()), s.(values := v, defaults := d, initialized := true, updates := s.updates + 1))
  }

  /** File values override only known keys: loading never adds or drops a key. */
  lemma MergeKeepsKeys(values: map<string, Variant>, file: map<string, Variant>)
    ensures Merge(values, file).Keys == values.Keys
    ensures forall k :: k in values && k in file ==> Merge(values, file)[k] == file[k]
    ensures forall k :: k in values && k !in file ==> Merge(values, file)[k] == values[k]
  {
  }

  /**
   * Initialisation happens once: it leaves the store initialised and not initialising,
   * starts from the defaults, and a later call changes nothing. Re-entry throws and changes nothing.
   */
  lemma EnsureRunsOnce(s: ConfigState, env: Environment, loadFile: bool, again: bool)
    ensures !s.initialized && s.initializing ==> EnsureStep(s, env, loadFile) == Step(LogicError(ReentryMessage), s)
    ensures s.initialized ==> EnsureStep(s, env, loadFile) == Step(Done(()), s)
    ensures !s.initialized && !s.initializing && !env.listenerReads ==>
              var t := EnsureStep(s, env, loadFile).state;
              && EnsureStep(s, env, loadFile).outcome.Done?
              && t.initialized && !t.initializing && t.modified == s.modified
              && t.defaults == env.suppliedDefaults && t.values.Keys == env.suppliedDefaults.Keys
              && (!loadFile || env.file.None? ==> t.values == env.suppliedDefaults)
    ensures EnsureStep(s, env, loadFile).outcome.Done? ==>
              EnsureStep(EnsureStep(s, env, loadFile).state, env, again) == Step(Done(()), EnsureStep(s, env, loadFile).state)
  {
  }

  /**
   * A listener that reads the store during the first initialisation makes it throw: the store
   * keeps its values, holds the supplied defaults, and stays initialising and uninitialised,
   * so every later initialisation, and with it every get, all and set, throws and changes nothing.
   */
  lemma ReadingListenerLeavesStoreStuck(s: ConfigState, env: Environment, loadFile: bool, later: bool)
    requires !s.initialized && !s.initializing && env.listenerReads
    ensures var e := EnsureStep(s, env, loadFile);
            && e.outcome == LogicError(ReentryMessage)
            && e.state == s.(defaults := env.suppliedDefaults, initializing := true)
            && EnsureStep(e.state, env, later) == Step(LogicError(ReentryMessage), e.state)
  {
  }

  class Config {
    const env: Environment
    var values: map<string, Variant>
    var defaults: map<string, Variant>
    var initialized: bool
    var initializing: bool
    var modified: bool
    var updates: nat                          // `updated` signals emitted
    var writes: seq<map<string, Variant>>     // what each attempted save serialised

    function State(): ConfigState
      reads this
    {
      ConfigState(values, defaults, initialized, initializing, modified, updates, writes)
    }

    constructor (env: Environment)
      ensures this.env == env
      ensures State() == ConfigState(map[], map[], false, false, false, 0, [])
    {
      this.env := env;
      values, defaults := map[], map[];
      initialized, initializing, modified := false, false, false;
      updates, writes := 0, [];
    }

    /** has(key): never initialises. */
    predicate Has(key: string)
      reads this
    {
      key in values
    }

    /**
     * loadDefaults(): the listeners fill a fresh map, which becomes both defaults and values. A
     * listener's read during initialisation re-enters ensureInitialized, whose logic error
     * propagates out of the signal before the values are replaced.
     */
    method LoadDefaults() returns (r: Outcome<()>)
      modifies this
      ensures r == if env.listenerReads && !initialized && initializing then LogicError(ReentryMessage) else Done(())
      ensures r.Done? ==> State() == old(State()).(values := env.suppliedDefaults, defaults := env.suppliedDefaults)
      ensures r.LogicError? ==> State() == old(State()).(defaults := env.suppliedDefaults)
    {
      defaults := map[];
      defaults := defaults + env.suppliedDefaults;   // what the setDefaults listeners insert
      if env.listenerReads && !initialized && initializing {
        return LogicError(ReentryMessage);           // the listener's get or all re-entered
      }
      values := defaults;
      return Done(());
    }

    /** loadFromFile(): merge the file's keys one by one; true iff the file could be read. */
    method LoadFromFile() returns (loaded: bool)
      modifies this
      ensures loaded == env.file.Some?
      ensures State() == old(State()).(values := if loaded then Merge(old(values), env.file.value) else old(values))
    {
      if env.file.None? {
        return false;
      }
      var fileObject := env.file.value;
      ghost var before := values;
      var remaining := fileObject.Keys;
      while remaining != {}
        invariant remaining <= fileObject.Keys
        invariant values.Keys == before.Keys
        invariant forall k :: k in before ==>
                    values[k] == if k in fileObject && k !in remaining then fileObject[k] else before[k]
        invariant State() == old(State()).(values := values)
        decreases remaining
      {
        var fileKey :| fileKey in remaining;
        if fileKey in values {
          values := values[fileKey := fileObject[fileKey]];
        }
        remaining := remaining - {fileKey};
      }
      assert forall k :: k in before ==> values[k] == Merge(before, fileObject)[k];
      assert values == Merge(before, fileObject);
      return true;
    }

    /** ensureInitialized(loadFile). */
    method EnsureInitialized(loadFile: bool) returns (r: Outcome<()>)
      modifies this
      ensures EnsureStep(old(State()), env, loadFile) == Step(r, State())
    {
      if !initialized {
        if initializing {
          return LogicError(ReentryMessage);
        }
        initializing := true;
        var defaultsLoaded := LoadDefaults();
        if defaultsLoaded.LogicError? {
          return defaultsLoaded;
        }
        if loadFile {
          var loaded := LoadFromFile();
        }
        initializing := false;
        initialized := true;
        updates := updates + 1;
      }
      return Done(());
    }

    /** get(key): initialise, then the value, or an invalid variant for an unknown key. */
    method Get(key: string) returns (r: Outcome<Variant>)
      modifies this
      ensures var e := EnsureStep(old(State()), env, true);
              && State() == e.state
              && (e.outcome.LogicError? ==> r == LogicError(e.outcome.message))
              && (e.outcome.Done? ==> r == Done(if key in e.state.values then e.state.values[key] else Invalid))
    {
      var init := EnsureInitialized(true);
      if init.LogicError? {
        return LogicError(init.message);
      }
      r := Done(if key in values then values[key] else Invalid);
    }

    /** all(). */
    method All() returns (r: Outcome<map<string, Variant>>)
      modifies this
      ensures var e := EnsureStep(old(State()), env, true);
              && State() == e.state
              && (e.outcome.LogicError? ==> r == LogicError(e.outcome.message))
              && (e.outcome.Done? ==> r == Done(e.state.values))
    {
      var init := EnsureInitialized(true);
      if init.LogicError? {
        return LogicError(init.message);
      }
      r := Done(values);
    }

    /** defaultValues(). */
    method DefaultValues() returns (r: Outcome<map<string, Variant>>)
      modifies this
      ensures var e := EnsureStep(old(State()), env, true);
              && State() == e.state
              && (e.outcome.LogicError? ==> r == LogicError(e.outcome.message))
              && (e.outcome.Done? ==> r == Done(e.state.defaults))
    {
      var init := EnsureInitialized(true);
      if init.LogicError? {
        return LogicError(init.message);
      }
      r := Done(defaults);
    }

    /** load(). */
    method Load() returns (r: Outcome<()>)
      modifies this
      ensures EnsureStep(old(State()), env, true) == Step(r, State())
    {
      r := EnsureInitialized(true);
    }

    /** set(key, value): initialise, store the value, mark modified, emit `updated`. */
    method Set(key: string, value: Variant) returns (r: Outcome<()>)
      modifies this
      ensures var e := EnsureStep(old(State()), env, true);
              && (e.outcome.LogicError? ==> r == e.outcome && State() == e.state)
              && (e.outcome.Done? ==> r.Done? && State() == e.state.(values := e.state.values[key := value], modified := true,
                                                                     updates := e.state.updates + 1))
    {
      var init := EnsureInitialized(true);
      if init.LogicError? {
        return LogicError(init.message);
      }
      values := values[key := value];
      modified := true;
      updates := updates + 1;
      return Done(());
    }

    /** set(map): insert every entry, but only when the store holds at least one value. */
    method SetAll(valuesToInsert: map<string, Variant>) returns (r: Outcome<()>)
      modifies this
      ensures var e := EnsureStep(old(State()), env, true);
              && (e.outcome.LogicError? ==> r == e.outcome && State() == e.state)
              && (e.outcome.Done? ==> r.Done? && State() == if |e.state.values| > 0
                                                           then e.state.(values := e.state.values + valuesToInsert,
                                                                         modified := true, updates := e.state.updates + 1)
                                                           else e.state)
    {
      var init := EnsureInitialized(true);
      if init.LogicError? {
        return LogicError(init.message);
      }
      if |values| > 0 {
        InsertEach(valuesToInsert);
        modified := true;
        updates := updates + 1;
      }
      return Done(());
    }

    /** The foreach loop of set(map): insert the entries one at a time. */
    method InsertEach(valuesToInsert: map<string, Variant>)
      modifies this
      ensures State() == old(State()).(values := old(values) + valuesToInsert)
    {
      ghost var before := values;
      var remaining := valuesToInsert.Keys;
      while remaining != {}
        invariant remaining <= valuesToInsert.Keys
        invariant values.Keys == before.Keys + (valuesToInsert.Keys - remaining)
        invariant forall k :: k in values ==>
                    values[k] == if k in valuesToInsert && k !in remaining then valuesToInsert[k] else before[k]
        invariant State() == old(State()).(values := values)
        decreases remaining
      {
        var key :| key in remaining;
        values := values[key := valuesToInsert[key]];
        remaining := remaining - {key};
      }
      assert forall k :: k in values ==> values[k] == (before + valuesToInsert)[k];
      assert values == before + valuesToInsert;
    }

    /** restoreDefaults(): initialise without the file, or reset the values to fresh defaults. */
    method RestoreDefaults() returns (r: Outcome<()>)
      modifies this
      ensures !old(initialized) ==> EnsureStep(old(State()), env, false) == Step(r, State())
      ensures old(initialized) ==>
                r.Done? && State() == old(State()).(values := env.suppliedDefaults, defaults := env.suppliedDefaults,
                                                    updates := old(updates) + 1)
    {
      if !initialized {
        r := EnsureInitialized(false);
      } else {
        r := LoadDefaults();
        updates := updates + 1;
      }
    }

    /** save(): a write is attempted only when initialised and modified; `modified` clears only after a complete write. */
    method Save(writeSucceeds: bool) returns (saved: bool)
      modifies this
      ensures saved <==> old(initialized) && old(modified) && writeSucceeds
      ensures State() == old(State()).(
                writes := old(writes) + (if old(initialized) && old(modified) then [old(values)] else []),
                modified := old(modified) && !saved)
    {
      saved := false;
      if initialized && modified {
        writes := writes + [values];
        if writeSucceeds {
          modified := false;
          saved := true;
        }
      }
    }
  }
}
