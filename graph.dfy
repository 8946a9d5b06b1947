/*
 * libgraph (uspace/lib/graph/graph.c): the registries of visualizers and
 * renderers, and the per-visualizer mode state that the connection
 * handlers `vs_set_mode`, `vs_yield` and the mode queries change or read.
 *
 * The location service, the IPC exchanges and the driver's operations are
 * not modelled as code: their results are parameters of the operations,
 * and the calls made to the location service are recorded as a trace.
 * graph.h is not part of this model; a mode carries the fields graph.c
 * reads (index, version, screen width and height).
 */
module Graph {
  import opened Wrappers

  /** The error codes graph.c answers with; any other code a service returns is `Other`. */
  datatype Errno = EOK | ENOENT | EINVAL | ENOMEM | EREFUSED | Other(code: nat)

  /** A display mode of a visualizer. */
  datatype Mode = Mode(index: nat, version: nat, screenWidth: nat, screenHeight: nat)

  /* ---------------------------------------------------------------------- */
  /* Lists                                                                   */
  /* ---------------------------------------------------------------------- */

  /** The position of the first element of `s` that satisfies `p` — what a list_foreach with a break finds. */
  function FirstIndex<T>(s: seq<T>, p: T -> bool): (r: Option<nat>)
    ensures r.Some? ==> r.value < |s| && p(s[r.value])
    ensures r.Some? ==> forall j :: 0 <= j < r.value ==> !p(s[j])
    ensures r.None? <==> forall j :: 0 <= j < |s| ==> !p(s[j])
  {
    if s == [] then None
    else if p(s[0]) then Some(0)
    else match FirstIndex(s[1..], p)
      case None => None
      case Some(i) => Some(i + 1)
  }

  /** The first mode with the given index. */
  function FindMode(modes: seq<Mode>, index: nat): (r: Option<Mode>)
    ensures r.Some? ==> r.value in modes && r.value.index == index
    ensures r.None? <==> forall m :: m in modes ==> m.index != index
  {
    match FirstIndex(modes, HasIndex(index))
    case Some(i) => Some(modes[i])
    case None => None
  }

  /** The test of a list_foreach over the modes. */
  function HasIndex(index: nat): Mode -> bool {
    (m: Mode) => m.index == index
  }

  /** `s` without the element `x`. */
  function Remove<T(==)>(s: seq<T>, x: T): (r: seq<T>)
    ensures x !in r
    ensures forall j :: 0 <= j < |r| ==> r[j] in s
    ensures forall j :: 0 <= j < |s| && s[j] != x ==> s[j] in r
  {
    if s == [] then []
    else if s[0] == x then Remove(s[1..], x)
    else [s[0]] + Remove(s[1..], x)
  }

  /** No element occurs twice: a link is on a list at most once. */
  predicate Distinct<T(==)>(s: seq<T>) {
    forall i, j :: 0 <= i < j < |s| ==> s[i] != s[j]
  }

  /** Removing an element that occurs once shortens the list by one and keeps the others distinct. */
  lemma {:induction false} RemoveOne<T>(s: seq<T>, x: T)
    requires Distinct(s) && x in s
    ensures |Remove(s, x)| == |s| - 1 && Distinct(Remove(s, x))
  {
    if s[0] == x {
      assert x !in s[1..];
      RemoveAbsent(s[1..], x);
    } else {
      assert x in s[1..];
      RemoveOne(s[1..], x);
      assert s[0] !in Remove(s[1..], x);
      var r := [s[0]] + Remove(s[1..], x);
      forall i, j | 0 <= i < j < |r|
        ensures r[i] != r[j]
      {
        if i == 0 {
          assert r[j] in Remove(s[1..], x);
        } else {
          assert r[i] == Remove(s[1..], x)[i - 1];
        }
      }
    }
  }

  /** Removing an absent element changes nothing. */
  lemma {:induction false} RemoveAbsent<T>(s: seq<T>, x: T)
    requires x !in s
    ensures Remove(s, x) == s
  {
    if s != [] {
      assert x !in s[1..];
      RemoveAbsent(s[1..], x);
    }
  }

  /* ---------------------------------------------------------------------- */
  /* Registration with the location service                                  */
  /* ---------------------------------------------------------------------- */

  datatype Kind = VisualizerKind | RendererKind

  /** `graphemu<namespace>/vsl<n>` or `graphemu<namespace>/rnd<n>`. */
  datatype ServiceName = ServiceName(kind: Kind, namespace: nat, index: nat)

  /** A request made to the location service. */
  datatype LocCall =
    | CategoryGetId(category: Kind)
    | ServiceRegister(name: ServiceName)
    | AddToCategory(handle: nat)
    | ServiceUnregister(handle: nat)

  /** What the location service answers to the three registration steps, and the handle it assigns. */
  datatype LocAnswers = LocAnswers(categoryRc: Errno, registerRc: Errno, handle: nat, addRc: Errno)

  /** The answer of a registration: the first step that fails, else EOK. */
  function RegisterRc(a: LocAnswers): (r: Errno)
    ensures r == EOK <==> a.categoryRc == EOK && a.registerRc == EOK && a.addRc == EOK
    ensures r != EOK ==> r in [a.categoryRc, a.registerRc, a.addRc]
  {
    if a.categoryRc != EOK then a.categoryRc
    else if a.registerRc != EOK then a.registerRc
    else a.addRc
  }

  /**
   * The requests a registration makes: it stops at the first failure, and a
   * failure to add the service to its category unregisters the service.
   */
  function RegisterCalls(name: ServiceName, a: LocAnswers): (r: seq<LocCall>)
    ensures |r| >= 1 && r[0] == CategoryGetId(name.kind)
    ensures ServiceUnregister(a.handle) in r <==>
              a.categoryRc == EOK && a.registerRc == EOK && a.addRc != EOK
    ensures RegisterRc(a) == EOK ==> r[|r| - 1] == AddToCategory(a.handle)
  {
    if a.categoryRc != EOK then [CategoryGetId(name.kind)]
    else if a.registerRc != EOK then [CategoryGetId(name.kind), ServiceRegister(name)]
    else if a.addRc != EOK then
      [CategoryGetId(name.kind), ServiceRegister(name), AddToCategory(a.handle), ServiceUnregister(a.handle)]
    else [CategoryGetId(name.kind), ServiceRegister(name), AddToCategory(a.handle)]
  }

  /* ---------------------------------------------------------------------- */
  /* Mode state of a visualizer                                              */
  /* ---------------------------------------------------------------------- */

  /**
   * The fields of a visualizer the mode handlers use: its modes, whether a
   * mode is set, the current mode, and the shared cell storage (None for a
   * NULL `cells.data`) with its width and height.
   */
  datatype ModeState = ModeState(modes: seq<Mode>, modeSet: bool, curMode: Mode,
                                 cells: Option<nat>, width: nat, height: nat)

  /** A set mode owns cell storage of its screen size; without a mode there is no storage. */
  predicate Owned(s: ModeState) {
    && (s.modeSet <==> s.cells.Some?)
    && (s.modeSet ==> s.width == s.curMode.screenWidth && s.height == s.curMode.screenHeight)
  }

  /**
   * What a set_mode request brings: whether the shared storage was offered,
   * the mode index and version asked for, the result of accepting the
   * share (storage None when the mapping failed), and the answer of the
   * driver's change_mode.
   */
  datatype SetModeRequest = SetModeRequest(shareOffered: bool, index: nat, version: nat,
                                           shareRc: Errno, storage: Option<nat>, changeRc: Errno)

  /** The answer to a set_mode request, the storage areas destroyed, and the new state. */
  datatype SetModeResult = SetModeResult(answer: Errno, released: seq<nat>, state: ModeState)

  /**
   * vs_set_mode: each failure (no share, unknown mode, stale version,
   * failed mapping, driver refusal) leaves the state as it was; a driver
   * refusal destroys the new storage. On success the old storage is
   * destroyed and the new mode and storage are installed.
   */
  function SetMode(s: ModeState, q: SetModeRequest): (r: SetModeResult)
    ensures r.answer != EOK ==> r.state == s
    ensures r.answer == EOK <==>
              && q.shareOffered && FindMode(s.modes, q.index).Some?
              && FindMode(s.modes, q.index).value.version == q.version
              && q.shareRc == EOK && q.storage.Some? && q.changeRc == EOK
    ensures !q.shareOffered ==> r.answer == EREFUSED && r.released == []
    ensures q.shareOffered && FindMode(s.modes, q.index).None? ==> r.answer == ENOENT && r.released == []
    ensures q.shareOffered && FindMode(s.modes, q.index).Some?
            && FindMode(s.modes, q.index).value.version != q.version ==>
              r.answer == EINVAL && r.released == []
    ensures q.shareOffered && FindMode(s.modes, q.index).Some?
            && FindMode(s.modes, q.index).value.version == q.version
            && (q.shareRc != EOK || q.storage.None?) ==>
              r.answer == ENOMEM && r.released == []
    ensures q.shareOffered && FindMode(s.modes, q.index).Some?
            && FindMode(s.modes, q.index).value.version == q.version
            && q.shareRc == EOK && q.storage.Some? && q.changeRc != EOK ==>
              r.answer == ENOMEM && r.released == [q.storage.value]
    ensures r.answer == EOK ==>
              && r.state.modeSet && r.state.curMode == FindMode(s.modes, q.index).value
              && r.state.cells == q.storage && r.state.modes == s.modes
              && r.released == YieldReleased(s)
    ensures Owned(s) ==> Owned(r.state)
  {
    if !q.shareOffered then SetModeResult(EREFUSED, [], s)
    else match FindMode(s.modes, q.index)
      case None => SetModeResult(ENOENT, [], s)
      case Some(m) =>
        if m.version != q.version then SetModeResult(EINVAL, [], s)
        else if q.shareRc != EOK || q.storage.None? then SetModeResult(ENOMEM, [], s)
        else if q.changeRc != EOK then SetModeResult(ENOMEM, [q.storage.value], s)
        else
          var released := if s.modeSet && s.cells.Some? then [s.cells.value] else [];
          SetModeResult(EOK, released, ModeState(s.modes, true, m, q.storage, m.screenWidth, m.screenHeight))
  }

  /** vs_yield: a set mode gives up its storage, and no mode stays set. */
  function Yield(s: ModeState): (r: ModeState)
    ensures !r.modeSet && r.modes == s.modes && r.curMode == s.curMode
    ensures s.modeSet ==> r.cells.None?
    ensures !s.modeSet ==> r.cells == s.cells
    ensures Owned(s) ==> Owned(r) && r.cells.None?
  {
    ModeState(s.modes, false, s.curMode, if s.modeSet then None else s.cells, s.width, s.height)
  }

  /** The storage vs_yield destroys. */
  function YieldReleased(s: ModeState): (r: seq<nat>)
    ensures |r| <= 1
    ensures r != [] <==> s.modeSet && s.cells.Some?
  {
    if s.modeSet && s.cells.Some? then [s.cells.value] else []
  }

  /** Yielding twice is yielding once, and the second yield destroys nothing. */
  lemma YieldIdempotent(s: ModeState)
    ensures Yield(Yield(s)) == Yield(s) && YieldReleased(Yield(s)) == []
  {
  }

  /** A successful set_mode followed by a yield destroys exactly the storage set_mode installed. */
  lemma SetModeThenYield(s: ModeState, q: SetModeRequest)
    requires SetMode(s, q).answer == EOK
    ensures YieldReleased(SetMode(s, q).state) == [q.storage.value]
    ensures Yield(SetMode(s, q).state).cells.None? && !Yield(SetMode(s, q).state).modeSet
  {
  }

  /**
   * Storage is never leaked across mode changes: a successful set_mode
   * destroys the storage the previous successful one installed.
   */
  lemma SetModeReleasesPrevious(s: ModeState, q1: SetModeRequest, q2: SetModeRequest)
    requires Owned(s)
    requires SetMode(s, q1).answer == EOK
    requires SetMode(SetMode(s, q1).state, q2).answer == EOK
    ensures SetMode(SetMode(s, q1).state, q2).released == [q1.storage.value]
  {
  }

  /** The answer of a mode query and the mode written back to the client, if any. */
  datatype QueryResult = QueryResult(answer: Errno, sent: Option<Mode>)

  /**
   * vs_get_mode (and vs_get_default_mode with the default index): EREFUSED
   * when no data read is offered, ENOENT when no mode has the index,
   * otherwise the mode is sent and the answer is the transfer's result.
   */
  function QueryMode(modes: seq<Mode>, readOffered: bool, index: nat, transferRc: Errno): (r: QueryResult)
    ensures !readOffered ==> r == QueryResult(EREFUSED, None)
    ensures readOffered ==> (r.sent.Some? <==> exists m :: m in modes && m.index == index)
    ensures r.sent.Some? ==> r.sent.value in modes && r.sent.value.index == index && r.answer == transferRc
    ensures readOffered && r.sent.None? ==> r.answer == ENOENT
  {
    if !readOffered then QueryResult(EREFUSED, None)
    else match FindMode(modes, index)
      case Some(m) => QueryResult(transferRc, Some(m))
      case None => QueryResult(ENOENT, None)
  }

  /** vs_get_current_mode: the current mode when one is set, else ENOENT. */
  function QueryCurrentMode(s: ModeState, readOffered: bool, transferRc: Errno): (r: QueryResult)
    ensures !readOffered ==> r == QueryResult(EREFUSED, None)
    ensures readOffered ==> (r.sent.Some? <==> s.modeSet)
    ensures r.sent.Some? ==> r.sent.value == s.curMode && r.answer == transferRc
    ensures readOffered && !s.modeSet ==> r.answer == ENOENT
  {
    if !readOffered then QueryResult(EREFUSED, None)
    else if s.modeSet then QueryResult(transferRc, Some(s.curMode))
    else QueryResult(ENOENT, None)
  }

  /** After a successful set_mode the current mode is the one get_mode reports for its index. */
  lemma SetModeThenQuery(s: ModeState, q: SetModeRequest, rc: Errno)
    requires SetMode(s, q).answer == EOK
    ensures QueryCurrentMode(SetMode(s, q).state, true, rc).sent
            == QueryMode(SetMode(s, q).state.modes, true, q.index, rc).sent
  {
  }

  /* ---------------------------------------------------------------------- */
  /* vs_get_default_mode: the unlock of lines 325 and 330                    */
  /* ---------------------------------------------------------------------- */

  datatype LockOp = Lock | Unlock

  /** Every unlock releases a mutex that is held, and the mutex ends released. */
  predicate Disciplined(ops: seq<LockOp>, held: bool)
    decreases |ops|
  {
    if ops == [] then !held
    else match ops[0]
      case Lock => !held && Disciplined(ops[1..], true)
      case Unlock => held && Disciplined(ops[1..], false)
  }

  /**
   * The operations vs_get_default_mode performs on mode_mtx as written: the
   * branch that finds no default mode unlocks, and the common exit unlocks
   * again.
   */
  function DefaultModeLockingAsWritten(modes: seq<Mode>, defIndex: nat): (r: seq<LockOp>)
    ensures |r| >= 2 && r[0] == Lock && r[|r| - 1] == Unlock
  {
    [Lock] + (if FindMode(modes, defIndex).Some? then [] else [Unlock]) + [Unlock]
  }

  /** With no mode at the default index the mutex is unlocked while it is not held. */
  lemma DefaultModeNotFoundUnlocksTwice(modes: seq<Mode>, defIndex: nat)
    requires forall m :: m in modes ==> m.index != defIndex
    ensures DefaultModeLockingAsWritten(modes, defIndex) == [Lock, Unlock, Unlock]
    ensures !Disciplined(DefaultModeLockingAsWritten(modes, defIndex), false)
  {
    assert [Lock, Unlock, Unlock][1..] == [Unlock, Unlock];
    assert [Unlock, Unlock][1..] == [Unlock];
  }

  /* ---------------------------------------------------------------------- */
  /* Visualizers and renderers                                               */
  /* ---------------------------------------------------------------------- */

  /** visualizer_t. */
  class Visualizer {
    var handle: nat
    var claimed: bool
    var notifSess: Option<nat>
    var modeLocked: bool
    var modes: seq<Mode>
    var defModeIdx: nat
    var modeSet: bool
    var curMode: Mode
    var cells: Option<nat>
    var cellsWidth: nat
    var cellsHeight: nat
    var devCtx: Option<nat>

    /** graph_alloc_visualizer: fresh, not yet initialised memory. */
    constructor Alloc() {
    }

    /** The mode state the handlers work on. */
    function State(): ModeState
      reads this
    {
      ModeState(modes, modeSet, curMode, cells, cellsWidth, cellsHeight)
    }

    /** What graph_destroy_visualizer asserts before it frees the visualizer. */
    predicate Destroyable()
      reads this
    {
      && !claimed && notifSess.None? && !modeLocked && modes == []
      && !modeSet && cells.None? && devCtx.None?
    }

    /** graph_init_visualizer: sets exactly the fields graph_destroy_visualizer checks. */
    method Init()
      modifies this
      ensures Destroyable() && Owned(State())
      ensures handle == old(handle) && defModeIdx == old(defModeIdx) && curMode == old(curMode)
    {
      claimed := false;
      notifSess := None;
      modeLocked := false;
      modes := [];
      modeSet := false;
      cells := None;
      devCtx := None;
    }

    method LockModes()
      requires !modeLocked
      modifies this
      ensures modeLocked && State() == old(State())
      ensures defModeIdx == old(defModeIdx) && handle == old(handle)
    {
      modeLocked := true;
    }

    method UnlockModes()
      requires modeLocked
      modifies this
      ensures !modeLocked && State() == old(State())
      ensures defModeIdx == old(defModeIdx) && handle == old(handle)
    {
      modeLocked := false;
    }

    /** The list_foreach over the modes, stopping at the first with the index. */
    method LookupMode(index: nat) returns (found: Option<Mode>)
      ensures found == FindMode(modes, index)
    {
      var i := 0;
      while i < |modes|
        invariant i <= |modes|
        invariant forall j :: 0 <= j < i ==> modes[j].index != index
      {
        if modes[i].index == index {
          FindModeAt(modes, index, i);
          return Some(modes[i]);
        }
        i := i + 1;
      }
      return None;
    }

    /** vs_set_mode, with the share, the mapping and the driver's change_mode as inputs. */
    method SetModeHandler(q: SetModeRequest) returns (answer: Errno, released: seq<nat>)
      requires !modeLocked
      modifies this
      ensures SetMode(old(State()), q) == SetModeResult(answer, released, State())
      ensures !modeLocked && defModeIdx == old(defModeIdx) && handle == old(handle)
    {
      if !q.shareOffered {
        return EREFUSED, [];
      }
      LockModes();
      var found := LookupMode(q.index);
      if found.None? {
        UnlockModes();
        return ENOENT, [];
      }
      var newMode := found.value;
      UnlockModes();
      if newMode.version != q.version {
        return EINVAL, [];
      }
      if q.shareRc != EOK || q.storage.None? {
        return ENOMEM, [];
      }
      if q.changeRc != EOK {
        return ENOMEM, [q.storage.value];
      }
      released := Install(newMode, q.storage.value);
      answer := EOK;
    }

    /** The success path of vs_set_mode: the old mode's storage is destroyed and the new mode installed. */
    method Install(newMode: Mode, storage: nat) returns (released: seq<nat>)
      modifies this
      ensures State() == ModeState(old(modes), true, newMode, Some(storage),
                                   newMode.screenWidth, newMode.screenHeight)
      ensures released == YieldReleased(old(State()))
      ensures modeLocked == old(modeLocked) && defModeIdx == old(defModeIdx) && handle == old(handle)
    {
      released := [];
      if modeSet {
        if cells.Some? {
          released := [cells.value];
          cells := None;
        }
      }
      cellsWidth := newMode.screenWidth;
      cellsHeight := newMode.screenHeight;
      cells := Some(storage);
      curMode := newMode;
      modeSet := true;
    }

    /** vs_yield, with the driver's yield answer as input. */
    method YieldHandler(driverRc: Errno) returns (answer: Errno, released: seq<nat>)
      modifies this
      ensures State() == Yield(old(State())) && released == YieldReleased(old(State()))
      ensures answer == driverRc
      ensures modeLocked == old(modeLocked) && defModeIdx == old(defModeIdx) && handle == old(handle)
    {
      released := [];
      if modeSet {
        if cells.Some? {
          released := [cells.value];
          cells := None;
        }
      }
      answer := driverRc;
      if modeSet {
        modeSet := false;
      }
    }

    /** vs_get_mode, with the data read and its transfer result as inputs. */
    method GetModeHandler(readOffered: bool, index: nat, transferRc: Errno) returns (r: QueryResult)
      requires !modeLocked
      modifies this
      ensures r == QueryMode(modes, readOffered, index, transferRc)
      ensures !modeLocked && State() == old(State()) && defModeIdx == old(defModeIdx)
    {
      if !readOffered {
        return QueryResult(EREFUSED, None);
      }
      LockModes();
      var found := LookupMode(index);
      if found.Some? {
        r := QueryResult(transferRc, found);
      } else {
        r := QueryResult(ENOENT, None);
      }
      UnlockModes();
    }

    /**
     * vs_get_default_mode with a single unlock on every path: the mode at
     * the default index, or ENOENT.
     */
    method GetDefaultModeHandler(readOffered: bool, transferRc: Errno) returns (r: QueryResult)
      requires !modeLocked
      modifies this
      ensures r == QueryMode(modes, readOffered, defModeIdx, transferRc)
      ensures !modeLocked && State() == old(State()) && defModeIdx == old(defModeIdx)
    {
      if !readOffered {
        return QueryResult(EREFUSED, None);
      }
      LockModes();
      var found := LookupMode(defModeIdx);
      if found.Some? {
        r := QueryResult(transferRc, found);
      } else {
        r := QueryResult(ENOENT, None);
      }
      UnlockModes();
    }

    /** vs_get_current_mode. */
    method GetCurrentModeHandler(readOffered: bool, transferRc: Errno) returns (r: QueryResult)
      ensures r == QueryCurrentMode(State(), readOffered, transferRc)
    {
      if !readOffered {
        return QueryResult(EREFUSED, None);
      }
      if modeSet {
        r := QueryResult(transferRc, Some(curMode));
      } else {
        r := QueryResult(ENOENT, None);
      }
    }
  }

  /** The loop of LookupMode stops at the first mode with the index. */
  lemma FindModeAt(modes: seq<Mode>, index: nat, i: nat)
    requires i < |modes| && modes[i].index == index
    requires forall j :: 0 <= j < i ==> modes[j].index != index
    ensures FindMode(modes, index) == Some(modes[i])
  {
    assert HasIndex(index)(modes[i]);
  }

  /** renderer_t: its handle and its reference count (refcount.h is not part of this model). */
  class Renderer {
    var handle: nat
    var refs: nat
    var freed: bool

    /** graph_alloc_renderer. */
    constructor Alloc() {
    }

    /** graph_init_renderer: one reference, held by its creator. */
    method Init()
      modifies this
      ensures refs == 1 && !freed && handle == old(handle)
    {
      refs := 1;
      freed := false;
    }

    /** graph_destroy_renderer: drops a reference and frees the renderer with the last one. */
    method Destroy()
      requires refs > 0 && !freed
      modifies this
      ensures refs == old(refs) - 1 && (freed <==> refs == 0) && handle == old(handle)
    {
      refs := refs - 1;
      if refs == 0 {
        freed := true;
      }
    }
  }

  function VisualizerHandles(vs: seq<Visualizer>): (r: seq<nat>)
    reads set v | v in vs
    ensures |r| == |vs| && forall j :: 0 <= j < |vs| ==> r[j] == vs[j].handle
  {
    if vs == [] then [] else [vs[0].handle] + VisualizerHandles(vs[1..])
  }

  function RendererHandles(rs: seq<Renderer>): (r: seq<nat>)
    reads set x | x in rs
    ensures |r| == |rs| && forall j :: 0 <= j < |rs| ==> r[j] == rs[j].handle
  {
    if rs == [] then [] else [rs[0].handle] + RendererHandles(rs[1..])
  }

  /** The position of the first registered entry with the handle. */
  function Lookup(handles: seq<nat>, handle: nat): (r: Option<nat>)
    ensures r.Some? ==> r.value < |handles| && handles[r.value] == handle
    ensures r.Some? ==> forall j :: 0 <= j < r.value ==> handles[j] != handle
    ensures r.None? <==> handle !in handles
  {
    FirstIndex(handles, (h: nat) => h == handle)
  }

  /** A list_foreach that stops at position i found the first entry with the handle. */
  lemma LookupAt(handles: seq<nat>, handle: nat, i: nat)
    requires i < |handles| && handles[i] == handle
    requires forall j :: 0 <= j < i ==> handles[j] != handle
    ensures Lookup(handles, handle) == Some(i)
  {
  }

  /** The two registries, the name counters, and the requests made to the location service. */
  class Registry {
    var visualizers: seq<Visualizer>
    var renderers: seq<Renderer>
    const namespaceIdx: nat
    var visualizerIdx: nat
    var rendererIdx: nat
    var locCalls: seq<LocCall>

    predicate Valid()
      reads this
    {
      Distinct(visualizers) && Distinct(renderers)
    }

    /** The static initialisers: empty lists, counters at zero. */
    constructor ()
      ensures Valid() && visualizers == [] && renderers == [] && locCalls == []
      ensures namespaceIdx == 0 && visualizerIdx == 0 && rendererIdx == 0
    {
      visualizers := [];
      renderers := [];
      namespaceIdx := 0;
      visualizerIdx := 0;
      rendererIdx := 0;
      locCalls := [];
    }

    /**
     * graph_register_visualizer: the name takes the next visualizer number
     * whatever happens; the visualizer is appended only when all three
     * steps succeed, and gets the handle the service assigned.
     */
    method RegisterVisualizer(vs: Visualizer, a: LocAnswers) returns (rc: Errno)
      requires Valid() && vs !in visualizers
      modifies this, vs`handle
      ensures Valid() && rc == RegisterRc(a)
      ensures visualizerIdx == old(visualizerIdx) + 1 && rendererIdx == old(rendererIdx)
      ensures locCalls == old(locCalls)
                          + RegisterCalls(ServiceName(VisualizerKind, namespaceIdx, old(visualizerIdx)), a)
      ensures rc == EOK ==> visualizers == old(visualizers) + [vs] && vs.handle == a.handle
      ensures rc != EOK ==> visualizers == old(visualizers)
      ensures renderers == old(renderers)
    {
      var name := ServiceName(VisualizerKind, namespaceIdx, visualizerIdx);
      visualizerIdx := visualizerIdx + 1;
      locCalls := locCalls + [CategoryGetId(VisualizerKind)];
      if a.categoryRc != EOK {
        return a.categoryRc;
      }
      locCalls := locCalls + [ServiceRegister(name)];
      if a.registerRc != EOK {
        return a.registerRc;
      }
      vs.handle := a.handle;
      locCalls := locCalls + [AddToCategory(vs.handle)];
      if a.addRc != EOK {
        locCalls := locCalls + [ServiceUnregister(vs.handle)];
        return a.addRc;
      }
      visualizers := visualizers + [vs];
      rc := EOK;
    }

    /** graph_register_renderer: as for visualizers, with the renderer counter. */
    method RegisterRenderer(rnd: Renderer, a: LocAnswers) returns (rc: Errno)
      requires Valid() && rnd !in renderers
      modifies this, rnd`handle
      ensures Valid() && rc == RegisterRc(a)
      ensures rendererIdx == old(rendererIdx) + 1 && visualizerIdx == old(visualizerIdx)
      ensures locCalls == old(locCalls)
                          + RegisterCalls(ServiceName(RendererKind, namespaceIdx, old(rendererIdx)), a)
      ensures rc == EOK ==> renderers == old(renderers) + [rnd] && rnd.handle == a.handle
      ensures rc != EOK ==> renderers == old(renderers)
      ensures visualizers == old(visualizers)
    {
      var name := ServiceName(RendererKind, namespaceIdx, rendererIdx);
      rendererIdx := rendererIdx + 1;
      locCalls := locCalls + [CategoryGetId(RendererKind)];
      if a.categoryRc != EOK {
        return a.categoryRc;
      }
      locCalls := locCalls + [ServiceRegister(name)];
      if a.registerRc != EOK {
        return a.registerRc;
      }
      rnd.handle := a.handle;
      locCalls := locCalls + [AddToCategory(rnd.handle)];
      if a.addRc != EOK {
        locCalls := locCalls + [ServiceUnregister(rnd.handle)];
        return a.addRc;
      }
      renderers := renderers + [rnd];
      rc := EOK;
    }

    /** graph_get_visualizer: the first registered visualizer with the handle, or null. */
    method GetVisualizer(handle: nat) returns (vs: Visualizer?)
      ensures Lookup(VisualizerHandles(visualizers), handle).None? ==> vs == null
      ensures Lookup(VisualizerHandles(visualizers), handle).Some? ==>
                vs == visualizers[Lookup(VisualizerHandles(visualizers), handle).value]
    {
      ghost var hs := VisualizerHandles(visualizers);
      var i := 0;
      while i < |visualizers|
        invariant i <= |visualizers|
        invariant forall j :: 0 <= j < i ==> hs[j] != handle
      {
        if visualizers[i].handle == handle {
          LookupAt(hs, handle, i);
          return visualizers[i];
        }
        i := i + 1;
      }
      return null;
    }

    /** The list_foreach of graph_get_renderer: the position of the first renderer with the handle. */
    method FindRenderer(handle: nat) returns (found: Option<nat>)
      ensures found == Lookup(RendererHandles(renderers), handle)
    {
      ghost var hs := RendererHandles(renderers);
      var i := 0;
      while i < |renderers|
        invariant i <= |renderers|
        invariant forall j :: 0 <= j < i ==> hs[j] != handle
      {
        if renderers[i].handle == handle {
          LookupAt(hs, handle, i);
          return Some(i);
        }
        i := i + 1;
      }
      return None;
    }

    /** graph_get_renderer: the first registered renderer with the handle, which gains a reference, or null. */
    method GetRenderer(handle: nat) returns (rnd: Renderer?)
      requires Valid()
      modifies set x | x in renderers
      ensures var found := old(Lookup(RendererHandles(renderers), handle));
        && (found.None? ==> rnd == null)
        && (found.Some? ==> rnd == renderers[found.value] && rnd.refs == old(rnd.refs) + 1)
      ensures forall x :: x in renderers && x != rnd ==> x.refs == old(x.refs)
    {
      var found := FindRenderer(handle);
      if found.None? {
        return null;
      }
      rnd := renderers[found.value];
      rnd.refs := rnd.refs + 1;
    }

    /** graph_unregister_visualizer: the visualizer leaves the list whatever the location service answers. */
    method UnregisterVisualizer(vs: Visualizer, unregisterRc: Errno) returns (rc: Errno)
      requires Valid() && vs in visualizers
      modifies this
      ensures Valid() && rc == unregisterRc
      ensures visualizers == Remove(old(visualizers), vs) && |visualizers| == |old(visualizers)| - 1
      ensures locCalls == old(locCalls) + [ServiceUnregister(vs.handle)]
      ensures renderers == old(renderers)
    {
      locCalls := locCalls + [ServiceUnregister(vs.handle)];
      rc := unregisterRc;
      RemoveOne(visualizers, vs);
      visualizers := Remove(visualizers, vs);
    }

    /** graph_unregister_renderer. */
    method UnregisterRenderer(rnd: Renderer, unregisterRc: Errno) returns (rc: Errno)
      requires Valid() && rnd in renderers
      modifies this
      ensures Valid() && rc == unregisterRc
      ensures renderers == Remove(old(renderers), rnd) && |renderers| == |old(renderers)| - 1
      ensures locCalls == old(locCalls) + [ServiceUnregister(rnd.handle)]
      ensures visualizers == old(visualizers)
    {
      locCalls := locCalls + [ServiceUnregister(rnd.handle)];
      rc := unregisterRc;
      RemoveOne(renderers, rnd);
      renderers := Remove(renderers, rnd);
    }
  }
}
