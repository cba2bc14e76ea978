/**
 * The persistence half of backend/yjs-persistence-logic.js: the registry
 * `activeYDocs` of open documents, the debounced update listener, the
 * guarded save and the close.
 *
 * The CRDT is opaque: a document is the byte string its state encodes to,
 * and applying stored bytes may fail. The document store is a map keyed by
 * the unique roomId. Timers and the completion of awaited storage calls
 * are explicit events (OnUpdate, TimerFire, SaveEnd, CloseBegin,
 * CloseEnd), so every order of them can be explored.
 */
module Persistence {
  import opened Optional
  import opened Retry

  newtype byte = x: int | 0 <= x < 256

  type Bytes = seq<byte>
  type RoomId = string
  type StorageError = string

  /** Y.Doc objects are numbered in allocation order; a registry entry is
      created together with its document, so the number also stands for the
      entry object's identity. */
  type DocId = nat
  type TimerId = nat
  type SaveId = nat

  /** SAVE_DEBOUNCE_MS when the environment does not override it. */
  const SaveDebounceMs := 2500

  /** What encodeStateAsUpdate yields for a fresh document (opaque here). */
  const EmptyDocState: Bytes := []

  /** One attempt of a storage call: it answers or throws. */
  datatype Attempt = Pass | Fail(error: StorageError)

  /** A value of activeYDocs: { ydoc, saveTimeout, updateListener, isSaving }.
      The listener is recorded in Registry.listeners. */
  datatype Entry = Entry(doc: DocId, saveTimeout: Option<TimerId>, isSaving: bool)

  /** A timer set by the debounced listener: on firing, it saves `doc`
      (the listener's docInstance) for `room`. */
  datatype Timer = Timer(room: RoomId, doc: DocId, delayMs: int)

  /** Who awaits a save: the callback of a fired timer, or closeYDoc. */
  datatype Caller = TimerCallback(timer: TimerId) | CloseCall

  /** A saveYDocToDB call between its snapshot and the end of the retried
      upsert. `entry` is the entry it found and marked (docEntry), or None
      when the room had none; `caller` is the code that resumes after it. */
  datatype InFlight = InFlight(room: RoomId, entry: Option<DocId>, snapshot: Bytes, caller: Caller)

  /** The storage call's outcomes, one per attempt. */
  function Outcomes<T>(attempts: seq<Attempt>, value: T): seq<Outcome<T, StorageError>>
  {
    seq(|attempts|, i requires 0 <= i < |attempts| =>
      if attempts[i].Pass? then Ok(value) else Err(attempts[i].error))
  }

  /** Document.findOne({ roomId }): the stored state, or null. */
  function Lookup(store: map<RoomId, Bytes>, room: RoomId): Option<Bytes>
  {
    if room in store then Some(store[room]) else None
  }

  /** Whether the retried upsert of saveYDocToDB succeeds. */
  predicate UpsertSucceeds(attempts: seq<Attempt>)
    requires MaxDbRetries <= |attempts|
  {
    Settle(Outcomes(attempts, ()), MaxDbRetries).Returned?
  }

  /** The state of a newly created document after getOrCreateYDoc tried to
      hydrate it from `stored`; `corrupt` says whether Y.applyUpdate throws
      on the stored bytes. */
  function HydratedState(stored: Option<Bytes>, attempts: seq<Attempt>, corrupt: bool): Bytes
    requires MaxDbRetries <= |attempts|
  {
    var loaded := Settle(Outcomes(attempts, stored), MaxDbRetries);
    if loaded.Returned? && loaded.value.Some? && !corrupt then loaded.value.value
    else EmptyDocState
  }

  /** Some attempt within the retry budget passes. */
  predicate SomeAttemptPasses(attempts: seq<Attempt>)
    requires MaxDbRetries <= |attempts|
  {
    exists i :: 0 <= i < MaxDbRetries && attempts[i].Pass?
  }

  lemma SettleOutcomes<T>(attempts: seq<Attempt>, value: T)
    requires MaxDbRetries <= |attempts|
    ensures Settle(Outcomes(attempts, value), MaxDbRetries).Returned? <==> SomeAttemptPasses(attempts)
    ensures Settle(Outcomes(attempts, value), MaxDbRetries).Returned? ==>
            Settle(Outcomes(attempts, value), MaxDbRetries).value == value
  {
    var o := Outcomes(attempts, value);
    ReturnsIffSomeSuccess(o, MaxDbRetries);
    if SomeAttemptPasses(attempts) {
      var i :| 0 <= i < MaxDbRetries && attempts[i].Pass?;
      assert o[i].Ok?;
    }
  }

  /** Hydration keeps the stored state exactly when a record exists, the
      load succeeds within the retries and the bytes apply; a missing
      record, a load that fails on every attempt and corrupt bytes all
      leave the document empty. */
  lemma HydrationFallsBackToEmpty(stored: Option<Bytes>, attempts: seq<Attempt>, corrupt: bool)
    requires MaxDbRetries <= |attempts|
    ensures stored.Some? && SomeAttemptPasses(attempts) && !corrupt ==>
            HydratedState(stored, attempts, corrupt) == stored.value
    ensures stored.None? || !SomeAttemptPasses(attempts) || corrupt ==>
            HydratedState(stored, attempts, corrupt) == EmptyDocState
  {
    SettleOutcomes(attempts, stored);
  }

  class Registry {
    /** activeYDocs. */
    var active: map<RoomId, Entry>
    /** The current state of every Y.Doc allocated so far. */
    var docs: seq<Bytes>
    /** Documents with the debounced listener attached, and the roomId its
        closure captured. */
    var listeners: map<DocId, RoomId>
    /** The Document collection: roomId to yjsDocumentState. */
    var store: map<RoomId, Bytes>
    /** Timers scheduled and neither fired nor cleared. */
    var pending: map<TimerId, Timer>
    /** Saves awaiting the end of their retried upsert. */
    var saves: map<SaveId, InFlight>
    var nextTimer: TimerId
    var nextSave: SaveId

    /** Documents, timers and saves in use are allocated, and the timer
        whose callback awaits a save has fired. */
    ghost predicate Valid()
      reads this
    {
      && (forall r :: r in active ==>
            active[r].doc < |docs| && (active[r].saveTimeout.Some? ==> active[r].saveTimeout.value < nextTimer))
      && (forall d :: d in listeners ==> d < |docs|)
      && (forall t :: t in pending ==> t < nextTimer && pending[t].doc < |docs|)
      && (forall s :: s in saves ==>
            s < nextSave && (saves[s].entry.Some? ==> saves[s].entry.value < |docs|) &&
            (saves[s].caller.TimerCallback? ==> saves[s].caller.timer < nextTimer && saves[s].caller.timer !in pending))
    }

    /** The pending timers that will save `room`. */
    function PendingFor(room: RoomId): set<TimerId>
      reads this
    {
      set t | t in pending && pending[t].room == room
    }

    /** Every pending timer is the saveTimeout of the open entry of the
        room it saves. */
    ghost predicate SingleTimerPerRoom()
      reads this
    {
      forall t :: t in pending ==> pending[t].room in active && active[pending[t].room].saveTimeout == Some(t)
    }

    /** A listener is attached only to the document of its room's open
        entry. */
    ghost predicate ListenersLive()
      reads this
    {
      forall d :: d in listeners ==> listeners[d] in active && active[listeners[d]].doc == d
    }

    /** While closeYDoc awaits its final save, the closing document has no
        listener and, as long as its entry is open, no saveTimeout. */
    ghost predicate ClosingQuiet()
      reads this
    {
      forall s :: s in saves && saves[s].caller.CloseCall? && saves[s].entry.Some? ==>
        saves[s].entry.value !in listeners &&
        (saves[s].room in active && active[saves[s].room].doc == saves[s].entry.value ==>
           active[saves[s].room].saveTimeout.None?)
    }

    /** The debounce design: at most one pending timer per room (see
        AtMostOnePendingTimer), listeners only on open documents, and no
        timer scheduled for a document being closed. */
    ghost predicate Debounced()
      reads this
    {
      SingleTimerPerRoom() && ListenersLive() && ClosingQuiet()
    }

    constructor ()
      ensures Valid() && Debounced()
      ensures active == map[] && docs == [] && listeners == map[] && store == map[]
      ensures pending == map[] && saves == map[] && nextTimer == 0 && nextSave == 0
    {
      active, docs, listeners, store := map[], [], map[], map[];
      pending, saves, nextTimer, nextSave := map[], map[], 0, 0;
    }

    /** A registry holding a given store and nothing open. */
    constructor WithStore(initial: map<RoomId, Bytes>)
      ensures Valid() && Debounced()
      ensures active == map[] && docs == [] && listeners == map[] && store == initial
      ensures pending == map[] && saves == map[] && nextTimer == 0 && nextSave == 0
    {
      active, docs, listeners, store := map[], [], map[], initial;
      pending, saves, nextTimer, nextSave := map[], map[], 0, 0;
    }

    /** The hydration of a new document for `room`: the retried
        Document.findOne, then Y.applyUpdate of the stored bytes when a
        record was found (`corrupt` says whether it throws). Any failure
        leaves the empty state. */
    method Load(room: RoomId, attempts: seq<Attempt>, corrupt: bool) returns (state: Bytes)
      requires MaxDbRetries <= |attempts|
      ensures state == HydratedState(Lookup(store, room), attempts, corrupt)
    {
      state := EmptyDocState;
      var loaded, _, _ := RetryOperation(Outcomes(attempts, Lookup(store, room)), MaxDbRetries, DbRetryDelayMs);
      if loaded.Returned? && loaded.value.Some? {
        if !corrupt {
          state := loaded.value.value;
        }
      }
    }

    /** The retried Document.findOneAndUpdate with upsert: on success the
        record of `room` holds `snapshot` and no other record changes; a
        failure after the retries is swallowed. */
    method Upsert(room: RoomId, snapshot: Bytes, attempts: seq<Attempt>)
      requires Valid()
      requires MaxDbRetries <= |attempts|
      modifies this
      ensures Valid()
      ensures store == if UpsertSucceeds(attempts) then old(store)[room := snapshot] else old(store)
      ensures active == old(active) && docs == old(docs) && listeners == old(listeners)
      ensures pending == old(pending) && saves == old(saves)
      ensures nextTimer == old(nextTimer) && nextSave == old(nextSave)
    {
      var written, _, _ := RetryOperation(Outcomes(attempts, ()), MaxDbRetries, DbRetryDelayMs);
      if written.Returned? {
        store := store[room := snapshot];
      }
    }

    /** getOrCreateYDoc: an open room's document is returned as is;
        otherwise a new document is hydrated from the store (falling back to
        an empty one), gets the listener and is registered with no timer and
        isSaving false. The store is only read. */
    method GetOrCreate(room: RoomId, attempts: seq<Attempt>, corrupt: bool) returns (d: DocId)
      requires Valid()
      requires MaxDbRetries <= |attempts|
      modifies this
      ensures Valid()
      ensures old(room in active) ==> d == old(active[room].doc) && unchanged(this)
      ensures old(room !in active) ==>
        && d == old(|docs|)
        && docs == old(docs) + [HydratedState(old(Lookup(store, room)), attempts, corrupt)]
        && active == old(active)[room := Entry(d, None, false)]
        && listeners == old(listeners)[d := room]
        && pending == old(pending) && saves == old(saves)
        && nextTimer == old(nextTimer) && nextSave == old(nextSave)
      ensures store == old(store)
      ensures d < |docs| && room in active && active[room].doc == d
      ensures old(Debounced()) ==> Debounced()
    {
      if room in active {
        return active[room].doc;
      }
      d := |docs|;
      var state := Load(room, attempts, corrupt);
      docs := docs + [state];
      listeners := listeners[d := room];
      active := active[room := Entry(d, None, false)];
    }

    /** debouncedSaveListener of `room`, called with its document `d`: it
        looks the room's entry up afresh, clears that entry's saveTimeout
        timer, schedules a new timer saving `d` and, when there is an entry,
        makes the new timer its saveTimeout. */
    method Listener(room: RoomId, d: DocId)
      requires Valid() && d < |docs|
      modifies this
      ensures Valid()
      ensures var timeout := if room in old(active) then old(active[room].saveTimeout) else None;
        pending == (if timeout.Some? then old(pending) - {timeout.value} else old(pending))
                     [old(nextTimer) := Timer(room, d, SaveDebounceMs)]
      ensures active == if room in old(active)
                        then old(active)[room := old(active[room]).(saveTimeout := Some(old(nextTimer)))]
                        else old(active)
      ensures nextTimer == old(nextTimer) + 1
      ensures docs == old(docs) && listeners == old(listeners) && store == old(store)
      ensures saves == old(saves) && nextSave == old(nextSave)
      ensures old(Debounced()) && d in listeners && listeners[d] == room ==> Debounced()
    {
      if room in active {
        CancelTimer(room);
        active := active[room := active[room].(saveTimeout := Some(nextTimer))];
      }
      pending := pending[nextTimer := Timer(room, d, SaveDebounceMs)];
      nextTimer := nextTimer + 1;
    }

    /** A change to document `d` (made through the sync channel): the
        document takes the new state and, when the listener is attached,
        the listener runs. */
    method OnUpdate(d: DocId, state: Bytes)
      requires Valid() && d < |docs|
      modifies this
      ensures Valid()
      ensures docs == old(docs)[d := state]
      ensures d !in old(listeners) ==>
        pending == old(pending) && active == old(active) && nextTimer == old(nextTimer)
      ensures d in old(listeners) ==>
        var room := old(listeners[d]);
        var timeout := if room in old(active) then old(active[room].saveTimeout) else None;
        && nextTimer == old(nextTimer) + 1
        && pending == (if timeout.Some? then old(pending) - {timeout.value} else old(pending))
                        [old(nextTimer) := Timer(room, d, SaveDebounceMs)]
        && active == if room in old(active)
                     then old(active)[room := old(active[room]).(saveTimeout := Some(old(nextTimer)))]
                     else old(active)
      ensures listeners == old(listeners) && store == old(store)
      ensures saves == old(saves) && nextSave == old(nextSave)
      ensures old(Debounced()) ==> Debounced()
    {
      docs := docs[d := state];
      if d in listeners {
        Listener(listeners[d], d);
      }
    }

    /** Timer `t` fires and its callback calls saveYDocToDB. If the room's
        entry is saving, the save is skipped and the callback resets the
        entry's saveTimeout at once; otherwise the entry (if any) is marked
        saving and the save, holding a snapshot of the document, is in
        flight until SaveEnd. */
    method TimerFire(t: TimerId) returns (started: Option<SaveId>)
      requires Valid() && t in pending
      modifies this
      ensures Valid()
      ensures pending == old(pending) - {t}
      ensures var tm := old(pending[t]);
        if tm.room in old(active) && old(active[tm.room].isSaving) then
          && started == None
          && active == old(active)[tm.room := old(active[tm.room]).(saveTimeout := None)]
          && saves == old(saves) && nextSave == old(nextSave)
        else
          && started == Some(old(nextSave))
          && nextSave == old(nextSave) + 1
          && saves == old(saves)[old(nextSave) :=
               InFlight(tm.room, if tm.room in old(active) then Some(old(active[tm.room].doc)) else None,
                        old(docs[tm.doc]), TimerCallback(t))]
          && active == if tm.room in old(active)
                       then old(active)[tm.room := old(active[tm.room]).(isSaving := true)]
                       else old(active)
      ensures docs == old(docs) && listeners == old(listeners) && store == old(store)
      ensures nextTimer == old(nextTimer)
      ensures old(Debounced()) ==> Debounced()
    {
      var tm := pending[t];
      pending := pending - {t};
      if tm.room in active && active[tm.room].isSaving {
        active := active[tm.room := active[tm.room].(saveTimeout := None)];
        started := None;
      } else {
        var marked: Option<DocId> := None;
        if tm.room in active {
          marked := Some(active[tm.room].doc);
        }
        var sv := InFlight(tm.room, marked, docs[tm.doc], TimerCallback(t));
        if tm.room in active {
          active := active[tm.room := active[tm.room].(isSaving := true)];
        }
        saves := saves[nextSave := sv];
        started := Some(nextSave);
        nextSave := nextSave + 1;
      }
    }

    /** The retried upsert of save `sid` settles: on success the store maps
        the room to the snapshot and leaves every other record alone; a
        persistent failure is swallowed. Either way the `finally` clears
        isSaving on the entry the save marked. */
    method FinishSave(sid: SaveId, attempts: seq<Attempt>) returns (sv: InFlight)
      requires Valid() && sid in saves
      requires MaxDbRetries <= |attempts|
      modifies this
      ensures Valid()
      ensures sv == old(saves[sid])
      ensures saves == old(saves) - {sid}
      ensures store == if UpsertSucceeds(attempts) then old(store)[sv.room := sv.snapshot] else old(store)
      ensures active == if sv.entry.Some? && sv.room in old(active) && old(active[sv.room].doc) == sv.entry.value
                        then old(active)[sv.room := old(active[sv.room]).(isSaving := false)]
                        else old(active)
      ensures docs == old(docs) && listeners == old(listeners) && pending == old(pending)
      ensures nextTimer == old(nextTimer) && nextSave == old(nextSave)
      ensures old(Debounced()) ==> Debounced()
    {
      sv := saves[sid];
      Upsert(sv.room, sv.snapshot, attempts);
      if sv.entry.Some? && sv.room in active && active[sv.room].doc == sv.entry.value {
        active := active[sv.room := active[sv.room].(isSaving := false)];
      }
      saves := saves - {sid};
    }

    /** The end of the save of a timer callback as the source has it: after
        the save, the callback sets the room's saveTimeout to null, whichever
        timer it refers to by then. */
    method SaveEnd(sid: SaveId, attempts: seq<Attempt>)
      requires Valid() && sid in saves && saves[sid].caller.TimerCallback?
      requires MaxDbRetries <= |attempts|
      modifies this
      ensures Valid()
      ensures var sv := old(saves[sid]);
        && saves == old(saves) - {sid}
        && store == (if UpsertSucceeds(attempts) then old(store)[sv.room := sv.snapshot] else old(store))
        && var finished :=
             if sv.entry.Some? && sv.room in old(active) && old(active[sv.room].doc) == sv.entry.value
             then old(active)[sv.room := old(active[sv.room]).(isSaving := false)]
             else old(active);
           active == if sv.room in finished
                     then finished[sv.room := finished[sv.room].(saveTimeout := None)]
                     else finished
      ensures docs == old(docs) && listeners == old(listeners) && pending == old(pending)
      ensures nextTimer == old(nextTimer) && nextSave == old(nextSave)
    {
      var sv := FinishSave(sid, attempts);
      if sv.room in active {
        active := active[sv.room := active[sv.room].(saveTimeout := None)];
      }
    }

    /** The end of the save of a timer callback with the callback resetting
        saveTimeout only while it still refers to the timer that fired. This
        keeps the debounce design. */
    method SaveEndCorrected(sid: SaveId, attempts: seq<Attempt>)
      requires Valid() && sid in saves && saves[sid].caller.TimerCallback?
      requires MaxDbRetries <= |attempts|
      modifies this
      ensures Valid()
      ensures var sv := old(saves[sid]);
        && saves == old(saves) - {sid}
        && store == (if UpsertSucceeds(attempts) then old(store)[sv.room := sv.snapshot] else old(store))
        && var finished :=
             if sv.entry.Some? && sv.room in old(active) && old(active[sv.room].doc) == sv.entry.value
             then old(active)[sv.room := old(active[sv.room]).(isSaving := false)]
             else old(active);
           active == if sv.room in finished && finished[sv.room].saveTimeout == Some(sv.caller.timer)
                     then finished[sv.room := finished[sv.room].(saveTimeout := None)]
                     else finished
      ensures docs == old(docs) && listeners == old(listeners) && pending == old(pending)
      ensures nextTimer == old(nextTimer) && nextSave == old(nextSave)
      ensures old(Debounced()) ==> Debounced()
    {
      var sv := FinishSave(sid, attempts);
      if sv.room in active && active[sv.room].saveTimeout == Some(sv.caller.timer) {
        active := active[sv.room := active[sv.room].(saveTimeout := None)];
      }
    }

    /** The clearTimeout of the room's saveTimeout: its timer no longer
        fires. The entry itself keeps the stale timer id. */
    method CancelTimer(room: RoomId)
      requires Valid() && room in active
      modifies this
      ensures Valid()
      ensures var timeout := old(active[room].saveTimeout);
        pending == if timeout.Some? then old(pending) - {timeout.value} else old(pending)
      ensures active == old(active) && docs == old(docs) && listeners == old(listeners)
      ensures store == old(store) && saves == old(saves)
      ensures nextTimer == old(nextTimer) && nextSave == old(nextSave)
      ensures old(Debounced()) ==> Debounced() && PendingFor(room) == {}
    {
      if active[room].saveTimeout.Some? {
        pending := pending - {active[room].saveTimeout.value};
      }
    }

    /** closeYDoc up to its await: for an open room, clear the saveTimeout
        timer and call saveYDocToDB. While another save of the entry is in
        flight the save is skipped, and the listener is detached and the
        entry deleted at once; otherwise the entry is marked saving and the
        final save is in flight until CloseEnd, with the listener still
        attached. A room that is not open is left alone. */
    method CloseBegin(room: RoomId) returns (started: Option<SaveId>)
      requires Valid()
      modifies this
      ensures Valid()
      ensures old(room !in active) ==> started == None && unchanged(this)
      ensures old(room in active) ==>
        var e := old(active[room]);
        && pending == (if e.saveTimeout.Some? then old(pending) - {e.saveTimeout.value} else old(pending))
        && if e.isSaving then
             && started == None
             && active == old(active) - {room} && listeners == old(listeners) - {e.doc}
             && saves == old(saves) && nextSave == old(nextSave)
           else
             && started == Some(old(nextSave))
             && active == old(active)[room := e.(isSaving := true)] && listeners == old(listeners)
             && saves == old(saves)[old(nextSave) := InFlight(room, Some(e.doc), old(docs[e.doc]), CloseCall)]
             && nextSave == old(nextSave) + 1
      ensures docs == old(docs) && store == old(store) && nextTimer == old(nextTimer)
    {
      started := None;
      if room !in active {
        return;
      }
      var e := active[room];
      CancelTimer(room);
      if e.isSaving {
        listeners := listeners - {e.doc};
        active := active - {room};
      } else {
        active := active[room := e.(isSaving := true)];
        saves := saves[nextSave := InFlight(room, Some(e.doc), docs[e.doc], CloseCall)];
        started := Some(nextSave);
        nextSave := nextSave + 1;
      }
    }

    /** closeYDoc after its final save settles: the store is written as the
        upsert allows, isSaving is cleared, the closing document's listener
        is detached and whatever entry the room has by then is deleted. */
    method CloseEnd(sid: SaveId, attempts: seq<Attempt>)
      requires Valid() && sid in saves && saves[sid].caller.CloseCall? && saves[sid].entry.Some?
      requires MaxDbRetries <= |attempts|
      modifies this
      ensures Valid()
      ensures var sv := old(saves[sid]);
        && saves == old(saves) - {sid}
        && store == (if UpsertSucceeds(attempts) then old(store)[sv.room := sv.snapshot] else old(store))
        && active == old(active) - {sv.room}
        && listeners == old(listeners) - {sv.entry.value}
      ensures docs == old(docs) && pending == old(pending)
      ensures nextTimer == old(nextTimer) && nextSave == old(nextSave)
    {
      var sv := FinishSave(sid, attempts);
      listeners := listeners - {sv.entry.value};
      active := active - {sv.room};
    }

    /** The listener of the room's open document is detached. */
    method Detach(room: RoomId)
      requires Valid() && room in active
      modifies this
      ensures Valid()
      ensures listeners == old(listeners) - {old(active[room].doc)}
      ensures active == old(active) && docs == old(docs) && pending == old(pending)
      ensures store == old(store) && saves == old(saves)
      ensures nextTimer == old(nextTimer) && nextSave == old(nextSave)
      ensures old(Debounced()) ==> Debounced()
    {
      listeners := listeners - {active[room].doc};
    }

    /** The final save of a close starts on an entry whose timer has been
        cleared and whose listener has been detached: the entry is marked
        saving with no saveTimeout. */
    method StartQuietSave(room: RoomId) returns (sid: SaveId)
      requires Valid() && room in active
      modifies this
      ensures Valid()
      ensures var e := old(active[room]);
        && sid == old(nextSave) && nextSave == old(nextSave) + 1
        && active == old(active)[room := e.(saveTimeout := None, isSaving := true)]
        && saves == old(saves)[sid := InFlight(room, Some(e.doc), old(docs[e.doc]), CloseCall)]
      ensures docs == old(docs) && listeners == old(listeners) && pending == old(pending)
      ensures store == old(store) && nextTimer == old(nextTimer)
      ensures old(Debounced()) && old(active[room].doc) !in old(listeners) && old(PendingFor(room)) == {} ==>
        Debounced()
    {
      forall t | t in pending && PendingFor(room) == {}
        ensures pending[t].room != room
      {
        assert t !in PendingFor(room);
      }
      var e := active[room];
      active := active[room := e.(saveTimeout := None, isSaving := true)];
      sid := nextSave;
      saves := saves[sid := InFlight(room, Some(e.doc), docs[e.doc], CloseCall)];
      nextSave := nextSave + 1;
    }

    /** closeYDoc up to its await, with the listener detached and the
        saveTimeout reset before the final save starts, so no edit made
        during that save schedules a timer. Otherwise as CloseBegin. */
    method CloseBeginCorrected(room: RoomId) returns (started: Option<SaveId>)
      requires Valid()
      modifies this
      ensures Valid()
      ensures old(room !in active) ==> started == None && unchanged(this)
      ensures old(room in active) ==>
        var e := old(active[room]);
        && pending == (if e.saveTimeout.Some? then old(pending) - {e.saveTimeout.value} else old(pending))
        && listeners == old(listeners) - {e.doc}
        && if e.isSaving then
             && started == None
             && active == old(active) - {room}
             && saves == old(saves) && nextSave == old(nextSave)
           else
             && started == Some(old(nextSave))
             && active == old(active)[room := e.(saveTimeout := None, isSaving := true)]
             && saves == old(saves)[old(nextSave) := InFlight(room, Some(e.doc), old(docs[e.doc]), CloseCall)]
             && nextSave == old(nextSave) + 1
      ensures docs == old(docs) && store == old(store) && nextTimer == old(nextTimer)
      ensures old(Debounced()) ==> Debounced()
    {
      started := None;
      if room !in active {
        return;
      }
      var e := active[room];
      CancelTimer(room);
      Detach(room);
      if e.isSaving {
        active := active - {room};
      } else {
        var sid := StartQuietSave(room);
        started := Some(sid);
      }
    }

    /** A save whose upsert has settled is made again with the document's
        current state; the entry stays marked saving. */
    method Resave(sid: SaveId, attempts: seq<Attempt>)
      requires Valid() && sid in saves && saves[sid].entry.Some?
      requires MaxDbRetries <= |attempts|
      modifies this
      ensures Valid()
      ensures var sv := old(saves[sid]);
        && store == (if UpsertSucceeds(attempts) then old(store)[sv.room := sv.snapshot] else old(store))
        && saves == old(saves)[sid := sv.(snapshot := old(docs[sv.entry.value]))]
      ensures active == old(active) && docs == old(docs) && listeners == old(listeners)
      ensures pending == old(pending) && nextTimer == old(nextTimer) && nextSave == old(nextSave)
      ensures old(Debounced()) ==> Debounced()
    {
      var sv := saves[sid];
      Upsert(sv.room, sv.snapshot, attempts);
      saves := saves[sid := sv.(snapshot := docs[sv.entry.value])];
    }

    /** The end of a final save begun by CloseBeginCorrected. When the
        document changed after the save's snapshot (an update arrived while
        it was awaited), the save is made again with the current state and
        the close goes on (`again`). Otherwise the close ends: isSaving is
        cleared and the room's entry is deleted only if it is still the one
        being closed. */
    method CloseEndCorrected(sid: SaveId, attempts: seq<Attempt>) returns (again: bool)
      requires Valid() && sid in saves && saves[sid].caller.CloseCall? && saves[sid].entry.Some?
      requires MaxDbRetries <= |attempts|
      modifies this
      ensures Valid()
      ensures var sv := old(saves[sid]);
        var current := old(docs[sv.entry.value]);
        && again == (current != sv.snapshot)
        && store == (if UpsertSucceeds(attempts) then old(store)[sv.room := sv.snapshot] else old(store))
        && listeners == old(listeners) - {sv.entry.value}
        && if again then
             && saves == old(saves)[sid := sv.(snapshot := current)]
             && active == old(active)
           else
             && saves == old(saves) - {sid}
             && active == (if sv.room in old(active) && old(active[sv.room].doc) == sv.entry.value
                           then old(active) - {sv.room} else old(active))
      ensures var sv := old(saves[sid]);
        !again && UpsertSucceeds(attempts) ==> store[sv.room] == old(docs[sv.entry.value])
      ensures docs == old(docs) && pending == old(pending)
      ensures nextTimer == old(nextTimer) && nextSave == old(nextSave)
      ensures old(Debounced()) ==> Debounced()
    {
      var sv := saves[sid];
      var current := docs[sv.entry.value];
      again := current != sv.snapshot;
      if again {
        Resave(sid, attempts);
      } else {
        sv := FinishSave(sid, attempts);
        if sv.room in active && active[sv.room].doc == sv.entry.value {
          active := active - {sv.room};
        }
      }
      listeners := listeners - {sv.entry.value};
    }
  }

  /** Under the debounce design a room has at most one pending save timer. */
  lemma AtMostOnePendingTimer(reg: Registry, room: RoomId)
    requires reg.SingleTimerPerRoom()
    ensures |reg.PendingFor(room)| <= 1
  {
    var p := reg.PendingFor(room);
    if room in reg.active && reg.active[room].saveTimeout.Some? && reg.active[room].saveTimeout.value in p {
      assert p == {reg.active[room].saveTimeout.value};
    } else {
      assert p == {};
    }
  }

  /** Room "r1", with no stored record, is opened (hydrated empty, which
      `first` returns) and edited to `content`; the edit schedules timer 0. */
  method OpenAndEdit(content: Bytes) returns (reg: Registry, first: Bytes)
    ensures fresh(reg) && reg.Valid()
    ensures first == EmptyDocState
    ensures "r1" in reg.active && reg.active["r1"] == Entry(0, Some(0), false)
    ensures 0 in reg.listeners && reg.listeners[0] == "r1"
    ensures reg.pending.Keys == {0} && reg.pending[0] == Timer("r1", 0, SaveDebounceMs)
    ensures reg.saves == map[] && reg.nextTimer == 1 && reg.nextSave == 0
    ensures reg.docs == [content] && reg.store == map[]
  {
    reg := new Registry();
    var nothing: Option<Bytes> := None;
    SettleOutcomes([Pass, Pass, Pass], nothing);
    var d := reg.GetOrCreate("r1", [Pass, Pass, Pass], false);
    assert d == 0 && reg.active["r1"] == Entry(0, None, false) && reg.listeners[0] == "r1";
    first := reg.docs[d];
    reg.OnUpdate(d, content);
  }

  /** After OpenAndEdit, timer 0 fires and starts save 0, and the room is
      edited again while that save is in flight. */
  method EditDuringSave() returns (reg: Registry)
    ensures fresh(reg) && reg.Valid()
    ensures "r1" in reg.active && reg.active["r1"] == Entry(0, Some(1), true)
    ensures 0 in reg.listeners && reg.listeners[0] == "r1"
    ensures reg.pending.Keys == {1} && reg.pending[1].room == "r1"
    ensures 0 in reg.saves && reg.saves[0] == InFlight("r1", Some(0), [1], TimerCallback(0))
    ensures reg.nextTimer == 2 && |reg.docs| == 1
  {
    var first;
    reg, first := OpenAndEdit([1]);
    var fired := reg.TimerFire(0);
    assert fired == Some(0) && reg.active["r1"] == Entry(0, Some(0), true) && reg.pending == map[];
    reg.OnUpdate(0, [2]);
  }

  /** The debounce bookkeeping as written loses a pending timer: an update
      during a timer's save schedules a second timer, the save's end sets
      saveTimeout to null, and the next update schedules a third timer
      without clearing the second. */
  method StaleTimerScenario() returns (pendingNow: set<TimerId>)
    ensures pendingNow == {1, 2}
  {
    var reg := EditDuringSave();
    reg.SaveEnd(0, [Pass, Pass, Pass]);
    assert reg.active["r1"] == Entry(0, None, false) && reg.pending.Keys == {1};
    reg.OnUpdate(0, [3]);
    assert reg.pending.Keys == {1, 2};
    pendingNow := reg.PendingFor("r1");
  }

  /** The same events with the corrected callback leave one pending timer. */
  method CorrectedTimerScenario() returns (pendingNow: set<TimerId>)
    ensures pendingNow == {2}
  {
    var reg := EditDuringSave();
    reg.SaveEndCorrected(0, [Pass, Pass, Pass]);
    assert reg.active["r1"] == Entry(0, Some(1), false) && reg.pending.Keys == {1};
    reg.OnUpdate(0, [3]);
    assert reg.pending.Keys == {2};
    pendingNow := reg.PendingFor("r1");
  }

  /** closeYDoc as written: an edit made while the final save is awaited
      reaches the still-attached listener and schedules timer 1, and the
      entry is then deleted with timer 1 still pending. */
  method CloseRaceScenario() returns (open: bool, pendingNow: set<TimerId>)
    ensures !open && pendingNow == {1}
  {
    var reg, first := OpenAndEdit([1]);
    var closing := reg.CloseBegin("r1");
    assert closing == Some(0) && reg.pending == map[] && reg.listeners[0] == "r1";
    reg.OnUpdate(0, [2]);
    assert reg.pending.Keys == {1};
    reg.CloseEnd(0, [Pass, Pass, Pass]);
    open := "r1" in reg.active;
    pendingNow := reg.PendingFor("r1");
  }

  /** The same events with the corrected close: the edit made during the
      final save is saved by a second round of it, and no timer is left
      behind. */
  method CorrectedCloseScenario() returns (open: bool, pendingNow: set<TimerId>, stored: Option<Bytes>)
    ensures !open && pendingNow == {} && stored == Some([2])
  {
    var reg, first := OpenAndEdit([1]);
    var closing := reg.CloseBeginCorrected("r1");
    assert closing == Some(0) && reg.pending == map[] && 0 !in reg.listeners;
    reg.OnUpdate(0, [2]);
    assert reg.pending == map[] && reg.docs == [[2]];
    SettleOutcomes([Pass, Pass, Pass], ());
    var again := reg.CloseEndCorrected(0, [Pass, Pass, Pass]);
    assert again && reg.saves[0] == InFlight("r1", Some(0), [2], CloseCall);
    again := reg.CloseEndCorrected(0, [Pass, Pass, Pass]);
    assert !again;
    open := "r1" in reg.active;
    pendingNow := reg.PendingFor("r1");
    stored := Lookup(reg.store, "r1");
  }

  /** After OpenAndEdit, timer 0 fires, its save succeeds and the room is
      closed; the store then holds the edited content. */
  method SaveAndClose(content: Bytes) returns (reg: Registry, first: Bytes)
    ensures fresh(reg) && reg.Valid()
    ensures first == EmptyDocState
    ensures "r1" !in reg.active && reg.store == map["r1" := content]
  {
    reg, first := OpenAndEdit(content);
    var fired := reg.TimerFire(0);
    assert fired == Some(0) && reg.saves[0] == InFlight("r1", Some(0), content, TimerCallback(0));
    SettleOutcomes([Pass, Pass, Pass], ());
    reg.SaveEnd(0, [Pass, Pass, Pass]);
    assert reg.store == map["r1" := content] && reg.active["r1"] == Entry(0, None, false);
    var closing := reg.CloseBegin("r1");
    assert closing == Some(1) && reg.saves[1] == InFlight("r1", Some(0), content, CloseCall);
    reg.CloseEnd(1, [Pass, Pass, Pass]);
  }

  /** A room with no record is hydrated empty, edited, saved by its timer
      and closed; reopening it hydrates the saved content. */
  method SaveAndReloadScenario(content: Bytes) returns (first: Bytes, reloaded: Bytes, stored: Option<Bytes>)
    ensures first == EmptyDocState
    ensures stored == Some(content)
    ensures reloaded == content
  {
    var reg;
    reg, first := SaveAndClose(content);
    stored := Lookup(reg.store, "r1");
    SettleOutcomes([Pass, Pass, Pass], stored);
    var d := reg.GetOrCreate("r1", [Pass, Pass, Pass], false);
    reloaded := reg.docs[d];
  }
}
