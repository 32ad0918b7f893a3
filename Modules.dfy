/**
 * High-level-emulation modules (`Module`) and the process-wide state they
 * act on: the dispatch table of active function ids kept by the module
 * manager, the manager's list of registered modules, the id manager's name
 * tags, and the host callbacks run so far. The `Emulator` class gathers
 * that state in one object, the role `Emu` plays in the source; each
 * `Module` method takes it as a parameter.
 */
module Modules {
  import opened Bytes

  datatype Option<T> = None | Some(value: T)

  /** A host function pointer (init, load or unload callback), by identity. */
  type Callback = nat

  /** An exported function record: its function id and its host handler. */
  datatype ModuleFunc = ModuleFunc(id: u32, handler: nat)

  /** An id manager entry: the name tag of the subsystem that owns the id. */
  datatype IdEntry = IdEntry(name: string)

  /** `m_id(-1)` stored in the u16 id of a module known by name only. */
  const NAME_ONLY_ID: u16 := 0xFFFF

  /** The ids of a list of function records. */
  function Ids(fs: seq<ModuleFunc>): set<u32>
  {
    set i | 0 <= i < |fs| :: fs[i].id
  }

  lemma IdsCons(fs: seq<ModuleFunc>)
    requires fs != []
    ensures Ids(fs) == {fs[0].id} + Ids(fs[1..])
  {
    forall x | x in Ids(fs)
      ensures x in {fs[0].id} + Ids(fs[1..])
    {
      var i :| 0 <= i < |fs| && fs[i].id == x;
      if i > 0 {
        assert fs[1..][i - 1].id == x;
      }
    }
    forall x | x in Ids(fs[1..])
      ensures x in Ids(fs)
    {
      var i :| 0 <= i < |fs| - 1 && fs[1..][i].id == x;
      assert fs[i + 1].id == x;
    }
  }

  /** The position of the first record in fs whose id is id. */
  function FirstIndex(fs: seq<ModuleFunc>, id: u32): (k: nat)
    requires id in Ids(fs)
    ensures k < |fs| && fs[k].id == id
    ensures forall j :: 0 <= j < k ==> fs[j].id != id
  {
    IdsCons(fs);
    if fs[0].id == id then 0
    else
      var k := FirstIndex(fs[1..], id);
      assert forall j :: 1 <= j < k + 1 ==> fs[j] == fs[1..][j - 1];
      k + 1
  }

  /**
   * The dispatch table after the module manager's `AddFunc(f)`: an id that is
   * already active keeps its handler, so there is at most one handler per id.
   */
  function TableAdd(t: map<u32, ModuleFunc>, f: ModuleFunc): map<u32, ModuleFunc>
  {
    if f.id in t then t else t[f.id := f]
  }

  /** The dispatch table after `AddFunc` of every record of fs, in list order. */
  function AddAll(t: map<u32, ModuleFunc>, fs: seq<ModuleFunc>): map<u32, ModuleFunc>
    decreases |fs|
  {
    if fs == [] then t else AddAll(TableAdd(t, fs[0]), fs[1..])
  }

  /**
   * What adding a list does to the table: every id of the list becomes
   * active, an active id keeps its handler, and a newly active id gets the
   * first record of the list that carries it.
   */
  lemma {:induction false} AddAllLookup(t: map<u32, ModuleFunc>, fs: seq<ModuleFunc>, id: u32)
    ensures id in AddAll(t, fs) <==> id in t || id in Ids(fs)
    ensures id in t ==> AddAll(t, fs)[id] == t[id]
    ensures id !in t && id in Ids(fs) ==> AddAll(t, fs)[id] == fs[FirstIndex(fs, id)]
    decreases |fs|
  {
    if fs != [] {
      IdsCons(fs);
      var t' := TableAdd(t, fs[0]);
      AddAllLookup(t', fs[1..], id);
      if id !in t && id in Ids(fs) && fs[0].id != id {
        var k := FirstIndex(fs[1..], id);
        assert fs[k + 1] == fs[1..][k];
        assert forall j :: 1 <= j < k + 1 ==> fs[j] == fs[1..][j - 1];
      }
    }
  }

  /** The table after adding a list holds exactly the old ids and the list's ids. */
  lemma AddAllKeys(t: map<u32, ModuleFunc>, fs: seq<ModuleFunc>)
    ensures AddAll(t, fs).Keys == t.Keys + Ids(fs)
  {
    forall id | id in AddAll(t, fs).Keys + t.Keys + Ids(fs)
      ensures id in AddAll(t, fs).Keys <==> id in t.Keys + Ids(fs)
    {
      AddAllLookup(t, fs, id);
    }
  }

  /** Adding a list a second time changes nothing: loading is idempotent on the table. */
  lemma AddAllIdempotent(t: map<u32, ModuleFunc>, fs: seq<ModuleFunc>)
    ensures AddAll(AddAll(t, fs), fs) == AddAll(t, fs)
  {
    forall i | 0 <= i < |fs|
      ensures fs[i].id in AddAll(t, fs)
    {
      assert fs[i].id in Ids(fs);
      AddAllLookup(t, fs, fs[i].id);
    }
    AddAllOfActive(AddAll(t, fs), fs);
  }

  /** Adding records whose ids are all active leaves the table as it is. */
  lemma {:induction false} AddAllOfActive(t: map<u32, ModuleFunc>, fs: seq<ModuleFunc>)
    requires forall i :: 0 <= i < |fs| ==> fs[i].id in t
    ensures AddAll(t, fs) == t
    decreases |fs|
  {
    if fs != [] {
      assert TableAdd(t, fs[0]) == t;
      assert forall i :: 0 <= i < |fs| - 1 ==> fs[1..][i] == fs[i + 1];
      AddAllOfActive(t, fs[1..]);
    }
  }

  /**
   * Unloading after loading removes the module's ids and restores every
   * other entry: the table ends as it began, minus the module's ids.
   */
  lemma UnloadAfterLoad(t: map<u32, ModuleFunc>, fs: seq<ModuleFunc>)
    ensures AddAll(t, fs) - Ids(fs) == t - Ids(fs)
  {
    forall id | id in AddAll(t, fs) - Ids(fs) || id in t - Ids(fs)
      ensures id in AddAll(t, fs) - Ids(fs) && id in t - Ids(fs)
      ensures AddAll(t, fs)[id] == t[id]
    {
      AddAllLookup(t, fs, id);
    }
  }

  /** The calls a possibly-null callback pointer makes: none when it is null. */
  function CallsOf(cb: Option<Callback>): (calls: seq<Callback>)
    ensures |calls| <= 1
    ensures calls == [] <==> cb == None
  {
    match cb
    case None => []
    case Some(f) => [f]
  }

  /** A `SetModule(id, module, with_data)` call recorded by the module manager. */
  datatype Registration = Registration(id: u16, owner: Module, withInit: bool)

  /**
   * The process-wide state: `table` is the module manager's set of active
   * functions, `registrations` its registered modules, `ids` the id
   * manager's name tags, `calls` the host callbacks run so far.
   */
  class Emulator {
    var table: map<u32, ModuleFunc>
    var registrations: seq<Registration>
    var ids: map<u32, IdEntry>
    var calls: seq<Callback>

    constructor (ids: map<u32, IdEntry>)
      ensures table == map[] && registrations == [] && this.ids == ids && calls == []
    {
      table, registrations, this.ids, calls := map[], [], ids, [];
    }

    /** `ModuleManager::IsLoadedFunc`. */
    function IsLoadedFunc(id: u32): bool
      reads this
    {
      id in table
    }

    /** `ModuleManager::AddFunc`: activate f unless its id is already active. */
    method AddFunc(f: ModuleFunc)
      modifies this
      ensures table == TableAdd(old(table), f)
      ensures registrations == old(registrations) && ids == old(ids) && calls == old(calls)
    {
      if f.id !in table {
        table := table[f.id := f];
      }
    }

    /** `ModuleManager::UnloadFunc`: deactivate id, reporting whether it was active. */
    method UnloadFunc(id: u32) returns (found: bool)
      modifies this
      ensures found == (id in old(table))
      ensures table == old(table) - {id}
      ensures registrations == old(registrations) && ids == old(ids) && calls == old(calls)
    {
      found := id in table;
      table := table - {id};
    }

    /** `ModuleManager::SetModule`. */
    method SetModule(id: u16, owner: Module, withInit: bool)
      modifies this
      ensures registrations == old(registrations) + [Registration(id, owner, withInit)]
      ensures table == old(table) && ids == old(ids) && calls == old(calls)
    {
      registrations := registrations + [Registration(id, owner, withInit)];
    }

    /** Runs a host callback, if the pointer is not null. */
    method Invoke(cb: Option<Callback>)
      modifies this
      ensures calls == old(calls) + CallsOf(cb)
      ensures table == old(table) && registrations == old(registrations) && ids == old(ids)
    {
      if cb.Some? {
        calls := calls + [cb.value];
      }
    }

    /** `IdManager::CheckID`: the id is live. */
    function CheckID(id: u32): bool
      reads this
    {
      id in ids
    }
  }

  /** A loadable bundle of HLE functions. */
  class Module {
    var isLoaded: bool
    var name: string
    var id: u16
    var loadFunc: Option<Callback>
    var unloadFunc: Option<Callback>
    var funcs: seq<ModuleFunc>

    /** `Module(u16 id, const char* name)`: registers itself without init data. */
    constructor (emu: Emulator, id: u16, name: string)
      modifies emu
      ensures this.id == id && this.name == name && !isLoaded
      ensures loadFunc == None && unloadFunc == None && funcs == []
      ensures emu.registrations == old(emu.registrations) + [Registration(id, this, false)]
      ensures emu.table == old(emu.table) && emu.ids == old(emu.ids) && emu.calls == old(emu.calls)
    {
      isLoaded, this.name, this.id := false, name, id;
      loadFunc, unloadFunc, funcs := None, None, [];
      new;
      emu.SetModule(id, this, false);
    }

    /**
     * `Module(const char* name, init, load, unload)`: id -1 (0xFFFF as u16);
     * registers itself, then runs init if it is not null.
     */
    constructor Named(emu: Emulator, name: string, init: Option<Callback>,
                      load: Option<Callback>, unload: Option<Callback>)
      modifies emu
      ensures this.id == NAME_ONLY_ID && this.name == name && !isLoaded
      ensures loadFunc == load && unloadFunc == unload && funcs == []
      ensures emu.registrations == old(emu.registrations) + [Registration(NAME_ONLY_ID, this, init.Some?)]
      ensures emu.calls == old(emu.calls) + CallsOf(init)
      ensures emu.table == old(emu.table) && emu.ids == old(emu.ids)
    {
      isLoaded, this.name, this.id := false, name, NAME_ONLY_ID;
      loadFunc, unloadFunc, funcs := load, unload, [];
      new;
      emu.SetModule(NAME_ONLY_ID, this, init.Some?);
      emu.Invoke(init);
    }

    /**
     * `Module(u16 id, init, load, unload)`: the name is left empty; registers
     * itself, then runs init if it is not null.
     */
    constructor Numbered(emu: Emulator, id: u16, init: Option<Callback>,
                         load: Option<Callback>, unload: Option<Callback>)
      modifies emu
      ensures this.id == id && this.name == "" && !isLoaded
      ensures loadFunc == load && unloadFunc == unload && funcs == []
      ensures emu.registrations == old(emu.registrations) + [Registration(id, this, init.Some?)]
      ensures emu.calls == old(emu.calls) + CallsOf(init)
      ensures emu.table == old(emu.table) && emu.ids == old(emu.ids)
    {
      isLoaded, this.name, this.id := false, "", id;
      loadFunc, unloadFunc, funcs := load, unload, [];
      new;
      emu.SetModule(id, this, init.Some?);
      emu.Invoke(init);
    }

    /**
     * The move constructor: the new module takes all six fields of other,
     * which is left with id 0, unloaded, no callbacks, no name, no functions.
     * It does not register itself.
     */
    constructor Move(other: Module)
      modifies other
      ensures name == old(other.name) && id == old(other.id) && isLoaded == old(other.isLoaded)
      ensures loadFunc == old(other.loadFunc) && unloadFunc == old(other.unloadFunc)
      ensures funcs == old(other.funcs)
      ensures other.name == "" && other.id == 0 && !other.isLoaded
      ensures other.loadFunc == None && other.unloadFunc == None && other.funcs == []
    {
      isLoaded, id, loadFunc, unloadFunc := false, 0, None, None;
      name, funcs := "", [];
      new;
      name, other.name := other.name, name;
      id, other.id := other.id, id;
      isLoaded, other.isLoaded := other.isLoaded, isLoaded;
      loadFunc, other.loadFunc := other.loadFunc, loadFunc;
      unloadFunc, other.unloadFunc := other.unloadFunc, unloadFunc;
      funcs, other.funcs := other.funcs, funcs;
    }

    /** Move assignment: swaps all six fields with other (a no-op when other is this). */
    method MoveAssign(other: Module)
      modifies this, other
      ensures name == old(other.name) && other.name == old(name)
      ensures id == old(other.id) && other.id == old(id)
      ensures isLoaded == old(other.isLoaded) && other.isLoaded == old(isLoaded)
      ensures loadFunc == old(other.loadFunc) && other.loadFunc == old(loadFunc)
      ensures unloadFunc == old(other.unloadFunc) && other.unloadFunc == old(unloadFunc)
      ensures funcs == old(other.funcs) && other.funcs == old(funcs)
    {
      name, other.name := other.name, name;
      id, other.id := other.id, id;
      isLoaded, other.isLoaded := other.isLoaded, isLoaded;
      loadFunc, other.loadFunc := other.loadFunc, loadFunc;
      unloadFunc, other.unloadFunc := other.unloadFunc, unloadFunc;
      funcs, other.funcs := other.funcs, funcs;
    }

    function IsLoaded(): bool
      reads this
    {
      isLoaded
    }

    method SetLoaded(loaded: bool)
      modifies this`isLoaded
      ensures isLoaded == loaded
    {
      isLoaded := loaded;
    }

    function GetID(): u16
      reads this
    {
      id
    }

    function GetName(): string
      reads this
    {
      name
    }

    method SetName(name: string)
      modifies this`name
      ensures this.name == name
    {
      this.name := name;
    }

    /**
     * `Load()`: a no-op on a loaded module. Otherwise runs the load callback
     * (if any), activates every exported function in list order, and marks
     * the module loaded.
     */
    method Load(emu: Emulator)
      modifies this`isLoaded, emu
      ensures old(isLoaded) ==> isLoaded && emu.table == old(emu.table) && emu.calls == old(emu.calls)
      ensures !old(isLoaded) ==> isLoaded && emu.table == AddAll(old(emu.table), funcs)
                                          && emu.calls == old(emu.calls) + CallsOf(loadFunc)
      ensures emu.registrations == old(emu.registrations) && emu.ids == old(emu.ids)
    {
      if IsLoaded() {
        return;
      }
      emu.Invoke(loadFunc);
      var i := 0;
      while i < |funcs|
        invariant 0 <= i <= |funcs|
        invariant AddAll(emu.table, funcs[i..]) == AddAll(old(emu.table), funcs)
        invariant emu.calls == old(emu.calls) + CallsOf(loadFunc)
        invariant emu.registrations == old(emu.registrations) && emu.ids == old(emu.ids)
      {
        assert funcs[i..][1..] == funcs[i + 1..];
        emu.AddFunc(funcs[i]);
        i := i + 1;
      }
      SetLoaded(true);
    }

    /**
     * `UnLoad()`: a no-op on an unloaded module. Otherwise runs the unload
     * callback (if any), deactivates every exported function id, and marks
     * the module unloaded.
     */
    method UnLoad(emu: Emulator)
      modifies this`isLoaded, emu
      ensures !old(isLoaded) ==> !isLoaded && emu.table == old(emu.table) && emu.calls == old(emu.calls)
      ensures old(isLoaded) ==> !isLoaded && emu.table == old(emu.table) - Ids(funcs)
                                          && emu.calls == old(emu.calls) + CallsOf(unloadFunc)
      ensures emu.registrations == old(emu.registrations) && emu.ids == old(emu.ids)
    {
      if !IsLoaded() {
        return;
      }
      emu.Invoke(unloadFunc);
      var i := 0;
      while i < |funcs|
        invariant 0 <= i <= |funcs|
        invariant emu.table == old(emu.table) - Ids(funcs[..i])
        invariant emu.calls == old(emu.calls) + CallsOf(unloadFunc)
        invariant emu.registrations == old(emu.registrations) && emu.ids == old(emu.ids)
      {
        assert Ids(funcs[..i + 1]) == Ids(funcs[..i]) + {funcs[i].id} by {
          assert forall j :: 0 <= j < i ==> funcs[..i + 1][j] == funcs[..i][j];
          assert funcs[..i + 1][i] == funcs[i];
        }
        var _ := emu.UnloadFunc(funcs[i].id);
        i := i + 1;
      }
      assert funcs[..|funcs|] == funcs;
      SetLoaded(false);
    }

    /**
     * `Load(u32 id)`: refuses an id that is already active. Otherwise
     * activates the first exported function with that id, if there is one.
     * Never touches the loaded flag.
     */
    method LoadId(emu: Emulator, fid: u32) returns (ok: bool)
      modifies emu
      ensures old(fid in emu.table) ==> !ok && emu.table == old(emu.table)
      ensures fid !in old(emu.table) ==> ok == (fid in Ids(funcs))
      ensures fid !in old(emu.table) && ok ==> emu.table == old(emu.table)[fid := funcs[FirstIndex(funcs, fid)]]
      ensures !ok ==> emu.table == old(emu.table)
      ensures emu.registrations == old(emu.registrations) && emu.ids == old(emu.ids) && emu.calls == old(emu.calls)
    {
      if emu.IsLoadedFunc(fid) {
        return false;
      }
      var i := 0;
      while i < |funcs|
        invariant 0 <= i <= |funcs|
        invariant forall j :: 0 <= j < i ==> funcs[j].id != fid
        invariant emu.table == old(emu.table)
      {
        if funcs[i].id == fid {
          assert fid in Ids(funcs);
          emu.AddFunc(funcs[i]);
          return true;
        }
        i := i + 1;
      }
      return false;
    }

    /** `UnLoad(u32 id)`: exactly the module manager's `UnloadFunc(id)`. */
    method UnLoadId(emu: Emulator, fid: u32) returns (ok: bool)
      modifies emu
      ensures ok == (fid in old(emu.table))
      ensures emu.table == old(emu.table) - {fid}
      ensures emu.registrations == old(emu.registrations) && emu.ids == old(emu.ids) && emu.calls == old(emu.calls)
    {
      ok := emu.UnloadFunc(fid);
    }

    /** `CheckID(u32 id)`: id is live and tagged with this module's name. */
    function CheckID(emu: Emulator, hid: u32): bool
      reads this, emu
    {
      emu.CheckID(hid) && emu.ids[hid].name == GetName()
    }

    /**
     * `CheckID(u32 id, ID*& _id)`: the same verdict; the out-reference
     * `_id` (here `prev` in, second component out) is set to the id's entry
     * whenever the id is live, even when the name tag does not match.
     */
    function CheckIDRef(emu: Emulator, hid: u32, prev: Option<IdEntry>): (r: (bool, Option<IdEntry>))
      reads this, emu
      ensures r.0 == CheckID(emu, hid)
      ensures emu.CheckID(hid) ==> r.1 == Some(emu.ids[hid])
      ensures !emu.CheckID(hid) ==> r.1 == prev
    {
      if emu.CheckID(hid) then
        var entry := emu.ids[hid];
        (entry.name == GetName(), Some(entry))
      else
        (false, prev)
    }
  }

  /**
   * What `CheckID` accepts: exactly the live handles tagged with the
   * module's name. A handle one module accepts is therefore refused by every
   * module with another name, and accepted by every module with the same name.
   */
  lemma CheckIDExclusive(emu: Emulator, m: Module, hid: u32)
    ensures m.CheckID(emu, hid) <==> hid in emu.ids && emu.ids[hid].name == m.name
    ensures m.CheckID(emu, hid) ==>
              forall other: Module :: other.CheckID(emu, hid) <==> other.name == m.name
  {
  }

  /** Load twice equals load once: the second call finds the module loaded. */
  method LoadTwice(m: Module, emu: Emulator)
    modifies m`isLoaded, emu
    ensures m.isLoaded
    ensures emu.table == (if old(m.isLoaded) then old(emu.table) else AddAll(old(emu.table), m.funcs))
    ensures emu.calls == old(emu.calls) + (if old(m.isLoaded) then [] else CallsOf(m.loadFunc))
  {
    m.Load(emu);
    m.Load(emu);
  }

  /**
   * Load then UnLoad of an unloaded module: none of its ids stays active,
   * every other entry of the table is as before.
   */
  method LoadThenUnLoad(m: Module, emu: Emulator)
    requires !m.isLoaded
    modifies m`isLoaded, emu
    ensures !m.isLoaded
    ensures emu.table == old(emu.table) - Ids(m.funcs)
    ensures emu.calls == old(emu.calls) + CallsOf(m.loadFunc) + CallsOf(m.unloadFunc)
  {
    m.Load(emu);
    m.UnLoad(emu);
    UnloadAfterLoad(old(emu.table), m.funcs);
  }
}
