/** The application (application.cpp): loading the vault into the record
    store when it starts, saving it back when it ends, and the table of
    named actions the command loop dispatches to. */
module App {
  import opened Wrappers
  import opened Bytes
  import opened Streams
  import opened Integrity
  import opened Krypto
  import opened Records

  /** What a registered action does. `External` stands for an action
      registered by the program's entry point; it receives the record store
      and nothing else of the application. */
  datatype Handler = QuitHandler | ListHandler | NoActionHandler | External(id: nat)

  /** An entry of the action table: a description and what to run. */
  datatype Action = Action(description: string, handler: Handler)

  // ---------------------------------------------------------------------
  // Loading and saving, as functions of the bytes

  /** The records `initialize` adds to `m` reading `data` from state `st`:
      records are loaded one after the other and each is added, until a load
      leaves the stream at eof; the record of that load is dropped. */
  function LoadAll(data: seq<Byte>, st: StreamState, m: map<Field, Record>): (r: map<Field, Record>)
    requires st.pos <= |data| && st.Consistent()
    ensures forall n :: n in m ==> n in r && r[n] == m[n]
    ensures NamesAreKeys(m) ==> NamesAreKeys(r)
    decreases |data| - st.pos
  {
    var (record, next) := LoadSpec(data, st);
    if next.eof then m
    else
      InsertedSize(m, record);
      LoadAll(data, next, Inserted(m, record))
  }

  /** One round of the load loop: a load that does not reach eof adds its
      record and the loop goes on from where it stopped. */
  lemma LoadAllStep(data: seq<Byte>, st: StreamState, m: map<Field, Record>)
    requires st.pos <= |data| && st.Consistent()
    ensures var (record, next) := LoadSpec(data, st);
      LoadAll(data, st, m) == if next.eof then m else LoadAll(data, next, Inserted(m, record))
  {
  }

  /** The bytes the destructor writes for records visited in `order`. */
  function DumpAll(order: seq<Record>): seq<Byte> {
    if order == [] then [] else RecordBytes(order[0]) + DumpAll(order[1..])
  }

  /** The names of the records in `order`. */
  function Names(order: seq<Record>): set<Field> {
    if order == [] then {} else {order[0].name} + Names(order[1..])
  }

  /** `m` after `add_record` of every record of `order`, in order. */
  function AddAll(m: map<Field, Record>, order: seq<Record>): (r: map<Field, Record>)
    ensures r.Keys == m.Keys + Names(order)
    ensures forall n :: n in m ==> n in r && r[n] == m[n]
    decreases |order|
  {
    if order == [] then m else AddAll(Inserted(m, order[0]), order[1..])
  }

  /** `order` visits every record of `m` exactly once. */
  ghost predicate Enumerates(order: seq<Record>, m: map<Field, Record>) {
    && (forall i :: 0 <= i < |order| ==> order[i].name in m && m[order[i].name] == order[i])
    && (forall i, j :: 0 <= i < j < |order| ==> order[i].name != order[j].name)
    && (forall n :: n in m ==> n in Names(order))
  }

  /** The store a vault file loads as with `pass`: the error of the input
      chain, or the records read from the start of the plaintext into an
      empty store. */
  function LoadVault(h: Hasher, pass: seq<Byte>, disk: seq<Byte>): (r: Result<map<Field, Record>, ReadError>)
    ensures r.Success? <==> DecodeFile(h, pass, disk).Success?
    ensures r.Failure? ==> r.error == IncorrectPassword
    ensures r.Success? ==> NamesAreKeys(r.value)
  {
    match DecodeFile(h, pass, disk)
    case Failure(e) => Failure(e)
    case Success(plain) => Success(LoadAll(plain, Start, map[]))
  }

  // ---------------------------------------------------------------------
  // Properties of loading and saving

  /** Dumping one more record appends its bytes. */
  lemma {:induction false} DumpAllSnoc(order: seq<Record>, r: Record)
    ensures DumpAll(order + [r]) == DumpAll(order) + RecordBytes(r)
  {
    if order != [] {
      var tail := order[1..];
      assert (order + [r])[1..] == tail + [r];
      DumpAllSnoc(tail, r);
      calc {
        DumpAll(order + [r]);
        RecordBytes(order[0]) + DumpAll(tail + [r]);
        RecordBytes(order[0]) + (DumpAll(tail) + RecordBytes(r));
      }
    }
  }

  /** Visiting one more record adds its name. */
  lemma {:induction false} NamesSnoc(order: seq<Record>, r: Record)
    ensures Names(order + [r]) == Names(order) + {r.name}
  {
    if order != [] {
      assert (order + [r])[1..] == order[1..] + [r];
      NamesSnoc(order[1..], r);
    }
  }

  /** Loading at the very end of the data reads no record. */
  lemma LoadAllAtEnd(data: seq<Byte>, m: map<Field, Record>)
    ensures LoadAll(data, StreamState(|data|, false, false), m) == m
  {
    var st := StreamState(|data|, false, false);
    ReadFieldTruncatedPrefix(data, st);
    LoadStops(data, st, st, st);
  }

  /** Where each record of `order` starts when they are dumped from `at`
      on, followed by where the last one ends. */
  function Offsets(at: nat, order: seq<Record>): (pos: seq<nat>)
    ensures |pos| == |order| + 1 && pos[0] == at
    ensures pos[|order|] == at + |DumpAll(order)|
    decreases |order|
  {
    if order == [] then [at] else [at] + Offsets(at + |RecordBytes(order[0])|, order[1..])
  }

  /** `order[i]` is written in `data` from `pos[i]` up to `pos[i + 1]`,
      for every record of `order`. */
  ghost predicate LaidOut(data: seq<Byte>, pos: seq<nat>, order: seq<Record>)
    decreases |order|
  {
    && |pos| == |order| + 1
    && pos[0] <= |data|
    && (order != [] ==>
          && pos[1] == pos[0] + |RecordBytes(order[0])| <= |data|
          && data[pos[0]..pos[1]] == RecordBytes(order[0])
          && LaidOut(data, pos[1..], order[1..]))
  }

  /** Loading along records laid out one after the other adds them in order. */
  lemma {:induction false} LoadAllLaidOut(data: seq<Byte>, pos: seq<nat>, order: seq<Record>,
                                          m: map<Field, Record>)
    requires LaidOut(data, pos, order) && pos[|order|] <= |data|
    ensures LoadAll(data, StreamState(pos[0], false, false), m)
      == LoadAll(data, StreamState(pos[|order|], false, false), AddAll(m, order))
    decreases |order|
  {
    if order != [] {
      LoadAt(data, pos[0], order[0], pos[1]);
      LoadAllLaidOut(data, pos[1..], order[1..], Inserted(m, order[0]));
      LoadAllStep(data, StreamState(pos[0], false, false), m);
    }
  }

  /** Where the first record and the rest sit inside a dump. */
  lemma DumpSlices(data: seq<Byte>, at: nat, order: seq<Record>)
    requires order != []
    requires at + |DumpAll(order)| <= |data| && data[at..at + |DumpAll(order)|] == DumpAll(order)
    ensures var next := at + |RecordBytes(order[0])|;
      && next + |DumpAll(order[1..])| == at + |DumpAll(order)|
      && data[at..next] == RecordBytes(order[0])
      && data[next..next + |DumpAll(order[1..])|] == DumpAll(order[1..])
      && Offsets(at, order)[1..] == Offsets(next, order[1..])
  {
    var next := at + |RecordBytes(order[0])|;
    var whole := data[at..at + |DumpAll(order)|];
    assert data[at..next] == whole[..|RecordBytes(order[0])|];
    assert data[next..at + |DumpAll(order)|] == whole[|RecordBytes(order[0])|..];
  }

  /** A dump lays its records out at their offsets. */
  lemma {:induction false} DumpLaidOut(data: seq<Byte>, at: nat, order: seq<Record>)
    requires at + |DumpAll(order)| <= |data| && data[at..at + |DumpAll(order)|] == DumpAll(order)
    ensures LaidOut(data, Offsets(at, order), order)
    decreases |order|
  {
    if order != [] {
      var next := at + |RecordBytes(order[0])|;
      DumpSlices(data, at, order);
      DumpLaidOut(data, next, order[1..]);
      LaidOutCons(data, Offsets(at, order), order, Offsets(next, order[1..]), at, next);
    }
  }

  /** The first record written from `at` to `next`, followed by the rest
      laid out from `next` on. */
  lemma LaidOutCons(data: seq<Byte>, pos: seq<nat>, order: seq<Record>, rest: seq<nat>,
                    at: nat, next: nat)
    requires order != [] && |pos| == |order| + 1 && pos[0] == at && pos[1..] == rest
    requires LaidOut(data, rest, order[1..]) && rest[0] == next
    requires next == at + |RecordBytes(order[0])| <= |data| && data[at..next] == RecordBytes(order[0])
    ensures LaidOut(data, pos, order)
  {
  }

  /** Loading from the start of data that begins with a dump adds the
      dumped records and goes on just after them. */
  lemma LoadAllAfterDump(data: seq<Byte>, order: seq<Record>, at: nat, m: map<Field, Record>)
    requires at == |DumpAll(order)| <= |data| && data[0..at] == DumpAll(order)
    ensures LoadAll(data, StreamState(0, false, false), m)
      == LoadAll(data, StreamState(at, false, false), AddAll(m, order))
  {
    DumpLaidOut(data, 0, order);
    LoadAllLaidOut(data, Offsets(0, order), order, m);
  }

  /** `initialize` reads back exactly the records the destructor dumped. */
  lemma LoadAllDumpAll(order: seq<Record>, m: map<Field, Record>)
    ensures LoadAll(DumpAll(order), Start, m) == AddAll(m, order)
  {
    var data := DumpAll(order);
    assert data[0..|data|] == data;
    LoadAllAfterDump(data, order, |data|, m);
    LoadAllAtEnd(data, AddAll(m, order));
  }

  /** A load that reaches eof ends loading, adding nothing. */
  lemma LoadAllStops(data: seq<Byte>, at: nat, m: map<Field, Record>)
    requires at <= |data| && LoadSpec(data, StreamState(at, false, false)).1.eof
    ensures LoadAll(data, StreamState(at, false, false), m) == m
  {
  }

  /** Where the dump and the cut record sit in the plaintext. */
  lemma CutSlices(order: seq<Record>, r: Record, k: nat)
    requires k < |RecordBytes(r)|
    ensures var data, at := DumpAll(order) + RecordBytes(r)[..k], |DumpAll(order)|;
      && at <= |data| < at + |RecordBytes(r)|
      && data[0..at] == DumpAll(order)
      && data[at..] == RecordBytes(r)[..|data| - at]
  {
    var data, at := DumpAll(order) + RecordBytes(r)[..k], |DumpAll(order)|;
    assert data[0..at] == DumpAll(order);
    assert data[at..] == RecordBytes(r)[..k];
  }

  /** Loading data that holds a dump and then part of one more record adds
      the dumped records and stops at the cut one. */
  lemma LoadAllStopsAtCut(data: seq<Byte>, order: seq<Record>, r: Record, at: nat,
                          m: map<Field, Record>)
    requires at == |DumpAll(order)| <= |data| < at + |RecordBytes(r)|
    requires data[0..at] == DumpAll(order) && data[at..] == RecordBytes(r)[..|data| - at]
    ensures LoadAll(data, StreamState(0, false, false), m) == AddAll(m, order)
  {
    LoadAllAfterDump(data, order, at, m);
    LoadCut(data, at, r);
    LoadAllStops(data, at, AddAll(m, order));
  }

  /** A record cut off by the end of the plaintext is not added: loading
      stops at it. */
  lemma LoadAllDropsCutRecord(order: seq<Record>, r: Record, k: nat, m: map<Field, Record>)
    requires k < |RecordBytes(r)|
    ensures LoadAll(DumpAll(order) + RecordBytes(r)[..k], Start, m) == AddAll(m, order)
  {
    CutSlices(order, r, k);
    LoadAllStopsAtCut(DumpAll(order) + RecordBytes(r)[..k], order, r, |DumpAll(order)|, m);
  }

  /** Every record of `order` has its name in `Names(order)`, and only those. */
  lemma {:induction false} InNames(order: seq<Record>)
    ensures forall i :: 0 <= i < |order| ==> order[i].name in Names(order)
    ensures forall n :: n in Names(order) ==> exists i :: 0 <= i < |order| && order[i].name == n
  {
    if order != [] {
      var tail := order[1..];
      InNames(tail);
      assert forall i :: 0 < i < |order| ==> order[i] == tail[i - 1];
      forall n | n in Names(order)
        ensures exists i :: 0 <= i < |order| && order[i].name == n
      {
        if n != order[0].name {
          var i :| 0 <= i < |tail| && tail[i].name == n;
          assert order[i + 1].name == n;
        }
      }
    }
  }

  /** Adding records with distinct names, none of them already present,
      files each of them under its name. */
  lemma {:induction false} AddAllDistinct(acc: map<Field, Record>, order: seq<Record>)
    requires forall i, j :: 0 <= i < j < |order| ==> order[i].name != order[j].name
    requires forall i :: 0 <= i < |order| ==> order[i].name !in acc
    ensures forall i :: 0 <= i < |order| ==>
      order[i].name in AddAll(acc, order) && AddAll(acc, order)[order[i].name] == order[i]
    decreases |order|
  {
    if order != [] {
      var first, tail := order[0], order[1..];
      var acc' := Inserted(acc, first);
      assert forall i :: 0 < i < |order| ==> order[i] == tail[i - 1];
      AddAllDistinct(acc', tail);
      forall i | 0 <= i < |order|
        ensures order[i].name in AddAll(acc, order) && AddAll(acc, order)[order[i].name] == order[i]
      {
        if i > 0 {
          assert tail[i - 1] == order[i];
        }
      }
    }
  }

  /** Adding the records of an enumeration of `m` to an empty store
      rebuilds `m`. */
  lemma AddAllRebuilds(order: seq<Record>, m: map<Field, Record>)
    requires Enumerates(order, m)
    ensures AddAll(map[], order) == m
  {
    AddAllDistinct(map[], order);
    InNames(order);
    var r := AddAll(map[], order);
    assert r.Keys == m.Keys;
    forall n | n in m
      ensures r[n] == m[n]
    {
      var i :| 0 <= i < |order| && order[i].name == n;
    }
  }

  /** The bookkeeping of the destructor's loop: `order` lists the records
      of `m` visited so far, each once, and `pending` names the others. */
  ghost predicate Visited(order: seq<Record>, pending: set<Field>, m: map<Field, Record>) {
    && pending <= m.Keys && m.Keys == pending + Names(order)
    && (forall i :: 0 <= i < |order| ==> order[i].name in m && m[order[i].name] == order[i])
    && (forall i :: 0 <= i < |order| ==> order[i].name !in pending)
    && (forall i, j :: 0 <= i < j < |order| ==> order[i].name != order[j].name)
  }

  /** Visiting one more pending record keeps the bookkeeping, and appends
      its bytes to the dump. */
  lemma VisitStep(order: seq<Record>, pending: set<Field>, m: map<Field, Record>, r: Record)
    requires Visited(order, pending, m) && r.name in pending && m[r.name] == r
    ensures Visited(order + [r], pending - {r.name}, m)
    ensures DumpAll(order + [r]) == DumpAll(order) + RecordBytes(r)
  {
    var next := order + [r];
    DumpAllSnoc(order, r);
    NamesSnoc(order, r);
    assert forall i :: 0 <= i < |order| ==> next[i] == order[i];
  }

  /** Once nothing is pending, every record has been visited exactly once. */
  lemma VisitedAll(order: seq<Record>, m: map<Field, Record>)
    requires Visited(order, {}, m)
    ensures Enumerates(order, m)
  {
  }

  /** Saving and loading: a vault saved from a store whose entries are filed
      under their names loads back, with the same password, as that store,
      whatever order the records were dumped in and whatever the seed. */
  lemma VaultRoundTrip(h: Hasher, pass: seq<Byte>, seed: seq<Byte>, order: seq<Record>,
                       m: map<Field, Record>)
    requires |seed| == DIGEST_SIZE && Enumerates(order, m)
    ensures LoadVault(h, pass, EncodeFile(h, pass, seed, DumpAll(order))) == Success(m)
  {
    DecodeEncode(h, pass, seed, DumpAll(order));
    LoadAllDumpAll(order, map[]);
    AddAllRebuilds(order, m);
  }

  /** A missing or empty vault file loads as an empty store. */
  lemma EmptyFileIsEmptyVault(h: Hasher, pass: seq<Byte>)
    ensures LoadVault(h, pass, []) == Success(map[])
  {
    ShortFileReadsEmpty(h, pass, []);
    LoadAllAtEnd([], map[]);
  }

  // ---------------------------------------------------------------------
  // The action table

  /** `actions_.insert`: a name already registered keeps its action. */
  function Registered(actions: map<string, Action>, name: string, action: Action): (r: map<string, Action>)
    ensures r.Keys == actions.Keys + {name}
    ensures forall n :: n in actions ==> r[n] == actions[n]
    ensures name !in actions ==> r[name] == action
  {
    if name in actions then actions else actions[name := action]
  }

  /** `get_action`: the handler registered under `name`, or `no_action`. */
  function Lookup(actions: map<string, Action>, name: string): (handler: Handler)
    ensures name in actions ==> handler == actions[name].handler
    ensures name !in actions ==> handler == NoActionHandler
  {
    if name in actions then actions[name].handler else NoActionHandler
  }

  /** First registration wins, and registering leaves every other name
      dispatching as before. */
  lemma RegisteredLookup(actions: map<string, Action>, name: string, action: Action, other: string)
    ensures Lookup(Registered(actions, name, action), name)
      == if name in actions then Lookup(actions, name) else action.handler
    ensures other != name ==> Lookup(Registered(actions, name, action), other) == Lookup(actions, other)
  {
  }

  /** The table the constructor registers: `quit` and `q` quit, `list`,
      `ls` and `?` list the actions. */
  function BuiltinActions(): map<string, Action> {
    var a := Registered(map[], "quit", Action("terminates application and saves state", QuitHandler));
    var a := Registered(a, "q", Action("alias for quit", QuitHandler));
    var a := Registered(a, "list", Action("prints possible actions", ListHandler));
    var a := Registered(a, "ls", Action("alias for list", ListHandler));
    Registered(a, "?", Action("alias for list", ListHandler))
  }

  /** The built-in names and what they dispatch to; every other name falls
      back to `no_action`. */
  lemma BuiltinDispatch(other: string)
    ensures BuiltinActions().Keys == {"quit", "q", "list", "ls", "?"}
    ensures Lookup(BuiltinActions(), "quit") == Lookup(BuiltinActions(), "q") == QuitHandler
    ensures Lookup(BuiltinActions(), "list") == Lookup(BuiltinActions(), "ls")
      == Lookup(BuiltinActions(), "?") == ListHandler
    ensures other !in {"quit", "q", "list", "ls", "?"} ==> Lookup(BuiltinActions(), other) == NoActionHandler
  {
  }

  // ---------------------------------------------------------------------
  // The application object

  /** `Application`: the vault file, the record store, the quit flag, the
      flag saying the vault was read, and the action table. */
  class Application {
    const file: KryptoFile
    const manager: Manager
    var quit: bool
    var initialized: bool
    var actions: map<string, Action>

    ghost function Repr(): set<object> {
      {this, manager} + file.Repr()
    }

    /** Between operations the file has no device attached. */
    ghost predicate Valid()
      reads this, manager, file, file.Repr()
    {
      && this !in file.Repr() && manager !in file.Repr()
      && file.Valid() && manager.Valid()
      && !file.inputComplete && !file.outputComplete
    }

    /** The store holds what the vault file decodes to when it could be
        read, and nothing otherwise; `initialized` says which. */
    ghost predicate Loaded()
      reads this, manager, file
    {
      && (initialized <==> LoadVault(file.h, file.pass, file.disk).Success?)
      && (initialized ==> manager.relations == LoadVault(file.h, file.pass, file.disk).value)
      && (!initialized ==> manager.relations == map[])
    }

    /** The constructor: load the vault, catching the read failure, then
        register the built-in actions. */
    constructor (h: Hasher, pass: seq<Byte>, disk: seq<Byte>)
      ensures Valid() && fresh(Repr())
      ensures file.h == h && file.pass == pass && file.disk == disk
      ensures !quit
      ensures Loaded()
      ensures actions == BuiltinActions()
    {
      file := new KryptoFile(h, pass, disk);
      manager := new Manager();
      quit, initialized, actions := false, false, map[];
      new;
      assert fresh(Repr());
      Initialize();
      RegisterBuiltins();
    }

    /** The constructor's registrations of the built-in actions. */
    method RegisterBuiltins()
      requires Valid() && actions == map[]
      modifies this
      ensures Valid() && actions == BuiltinActions()
      ensures quit == old(quit) && initialized == old(initialized)
      ensures unchanged(manager, file)
    {
      RegisterAction("quit", "terminates application and saves state", QuitHandler);
      RegisterAction("q", "alias for quit", QuitHandler);
      RegisterAction("list", "prints possible actions", ListHandler);
      RegisterAction("ls", "alias for list", ListHandler);
      RegisterAction("?", "alias for list", ListHandler);
    }

    /** `initialize`, with the constructor's catch: read the whole input
        chain, then load the records of the plaintext; a failure of the
        input chain leaves the store empty and the vault unread. Either
        way the lock detaches the file afterwards. */
    method Initialize()
      requires Valid() && !initialized && manager.relations == map[]
      modifies file.Repr(), manager, this
      ensures Valid() && quit == old(quit) && actions == old(actions)
      ensures file.disk == old(file.disk)
      ensures Loaded()
    {
      file.Input();
      var read := file.ReadAll();
      if read.Failure? {
        file.Reset();
        return;
      }
      var stream := new InStream(read.value);
      LoadRecords(stream);
      initialized := true;
      file.Reset();
    }

    /** The loop of `initialize`: load records one after the other and add
        each to the store, until a load leaves the stream at eof. */
    method LoadRecords(stream: InStream)
      requires stream.Valid() && stream.State().Good() && manager.Valid()
      modifies stream, manager
      ensures manager.Valid()
      ensures manager.relations == LoadAll(stream.data, old(stream.State()), old(manager.relations))
    {
      while true
        invariant stream.Valid() && stream.State().Good() && manager.Valid()
        invariant LoadAll(stream.data, stream.State(), manager.relations)
          == LoadAll(stream.data, old(stream.State()), old(manager.relations))
        decreases |stream.data| - stream.pos
      {
        ghost var st, m := stream.State(), manager.relations;
        var record := Load(stream);
        LoadAllStep(stream.data, st, m);
        if stream.eof {
          break;
        }
        manager.AddRecord(record);
      }
    }

    /** The destructor: nothing is written unless the vault was read; then
        the file is truncated and every record is dumped once, in some
        order, through the output chain, which the lock then closes. `seed`
        is what the random generator gives the encryption filter. */
    method Destroy(seed: seq<Byte>) returns (ghost order: seq<Record>)
      requires Valid() && |seed| == DIGEST_SIZE
      modifies file.Repr()
      ensures Valid() && manager.relations == old(manager.relations)
      ensures !initialized ==> file.disk == old(file.disk)
      ensures initialized ==> Enumerates(order, manager.relations)
      ensures initialized ==> file.disk == EncodeFile(file.h, file.pass, seed, DumpAll(order))
      ensures initialized ==> LoadVault(file.h, file.pass, file.disk) == Success(manager.relations)
    {
      order := [];
      if !initialized {
        return;
      }
      file.Output(seed);
      var stream := new OutStream();
      order := DumpRecords(stream);
      file.Write(stream.written);
      assert file.written == DumpAll(order) by {
        assert [] + stream.written == stream.written;
      }
      file.Reset();
      assert file.disk == EncodeFile(file.h, file.pass, seed, DumpAll(order));
      VaultRoundTrip(file.h, file.pass, seed, order, manager.relations);
    }

    /** The loop of the destructor: every record of the store is dumped
        once, in some order, into `stream`. */
    method DumpRecords(stream: OutStream) returns (ghost order: seq<Record>)
      requires manager.Valid() && stream.written == []
      modifies stream
      ensures stream.written == DumpAll(order)
      ensures Enumerates(order, manager.relations)
    {
      order := [];
      var m := manager.relations;
      var pending := m.Keys;
      while pending != {}
        invariant stream.written == DumpAll(order)
        invariant Visited(order, pending, m)
        decreases |pending|
      {
        var name :| name in pending;
        var record := manager.Find(name);
        Dump(record, stream);
        VisitStep(order, pending, m, record);
        order := order + [record];
        pending := pending - {name};
      }
      VisitedAll(order, m);
    }

    /** `register_action`: the first registration of a name wins. */
    method RegisterAction(name: string, description: string, handler: Handler)
      requires Valid()
      modifies this
      ensures Valid()
      ensures actions == Registered(old(actions), name, Action(description, handler))
      ensures quit == old(quit) && initialized == old(initialized)
    {
      actions := Registered(actions, name, Action(description, handler));
    }

    /** `quit`. */
    method Quit()
      modifies this
      ensures quit && actions == old(actions) && initialized == old(initialized)
    {
      quit := true;
    }

    /** `loop` over the commands the console yields: each is dispatched
        through the action table until one quits or the input ends;
        returns how many were run. */
    method Loop(commands: seq<string>) returns (executed: nat)
      modifies this
      ensures executed <= |commands|
      ensures old(quit) ==> quit && executed == 0
      ensures quit <==> old(quit) || (executed > 0 && Lookup(actions, commands[executed - 1]) == QuitHandler)
      ensures forall j :: 0 <= j < executed - 1 ==> Lookup(actions, commands[j]) != QuitHandler
      ensures !quit ==> executed == |commands|
      ensures actions == old(actions) && initialized == old(initialized)
    {
      executed := 0;
      while !quit && executed < |commands|
        invariant executed <= |commands|
        invariant old(quit) ==> quit && executed == 0
        invariant quit <==> old(quit) || (executed > 0 && Lookup(actions, commands[executed - 1]) == QuitHandler)
        invariant forall j :: 0 <= j < executed - 1 ==> Lookup(actions, commands[j]) != QuitHandler
        invariant !quit ==> forall j :: 0 <= j < executed ==> Lookup(actions, commands[j]) != QuitHandler
        invariant actions == old(actions) && initialized == old(initialized)
      {
        var handler := Lookup(actions, commands[executed]);
        if handler == QuitHandler {
          Quit();
        }
        executed := executed + 1;
      }
    }
  }
}
