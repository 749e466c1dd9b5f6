/** Open files and descriptor tables (kernel/fs/vfs.c): shared files are counted, and the backend is
    told to close a file exactly once, when the last reference goes. */
module VfsFiles {
  import opened Sequences
  import opened KernelAbi

  const MAXIMUM_FDS: nat := 65536

  /** A descriptor slot; a file is named by its address. */
  datatype Slot = Free | Used(file: nat, closeOnExec: bool)

  // ---------- counting slots ----------

  function HoldsFile(slot: Slot, file: nat): nat
  {
    if slot.Used? && slot.file == file then 1 else 0
  }

  /** How many slots of a table hold a file. */
  function InTable(slots: seq<Slot>, file: nat): nat
  {
    if slots == [] then 0 else InTable(slots[..|slots| - 1], file) + HoldsFile(slots[|slots| - 1], file)
  }

  /** How many slots of all tables hold it. */
  function InTables(tables: seq<seq<Slot>>, file: nat): nat
  {
    if tables == [] then 0 else InTables(tables[..|tables| - 1], file) + InTable(tables[|tables| - 1], file)
  }

  lemma {:induction false} InTableSet(slots: seq<Slot>, fd: nat, slot: Slot, file: nat)
    requires fd < |slots|
    ensures InTable(slots[fd := slot], file)
         == InTable(slots, file) - HoldsFile(slots[fd], file) + HoldsFile(slot, file)
  {
    hide HoldsFile;
    var n := |slots| - 1;
    if fd == n {
      assert slots[fd := slot][..n] == slots[..n];
    } else {
      assert slots[fd := slot][..n] == slots[..n][fd := slot];
      InTableSet(slots[..n], fd, slot, file);
    }
  }

  lemma {:induction false} InTableHas(slots: seq<Slot>, fd: nat, file: nat)
    requires fd < |slots| && slots[fd].Used? && slots[fd].file == file
    ensures InTable(slots, file) > 0
  {
    var n := |slots| - 1;
    if fd < n { InTableHas(slots[..n], fd, file); }
  }

  lemma {:induction false} InTableNone(slots: seq<Slot>, file: nat)
    requires forall fd :: 0 <= fd < |slots| ==> slots[fd].Free?
    ensures InTable(slots, file) == 0
  {
    if slots != [] { InTableNone(slots[..|slots| - 1], file); }
  }

  lemma {:induction false} InTablesSet(tables: seq<seq<Slot>>, t: nat, slots: seq<Slot>, file: nat)
    requires t < |tables|
    ensures InTables(tables[t := slots], file)
         == InTables(tables, file) - InTable(tables[t], file) + InTable(slots, file)
  {
    hide InTable;
    var n := |tables| - 1;
    if t == n {
      assert tables[t := slots][..n] == tables[..n];
    } else {
      assert tables[t := slots][..n] == tables[..n][t := slots];
      InTablesSet(tables[..n], t, slots, file);
    }
  }

  lemma {:induction false} InTablesHas(tables: seq<seq<Slot>>, t: nat, file: nat)
    requires t < |tables| && InTable(tables[t], file) > 0
    ensures InTables(tables, file) > 0
  {
    hide InTable;
    var n := |tables| - 1;
    if t < n { InTablesHas(tables[..n], t, file); }
  }

  lemma InTablesAppend(tables: seq<seq<Slot>>, slots: seq<Slot>, file: nat)
    ensures InTables(tables + [slots], file) == InTables(tables, file) + InTable(slots, file)
  {
    assert (tables + [slots])[..|tables|] == tables;
  }

  /** Replacing one slot of one table. */
  lemma SlotSet(tables: seq<seq<Slot>>, t: nat, fd: nat, slot: Slot, file: nat)
    requires t < |tables| && fd < |tables[t]|
    ensures InTables(tables[t := tables[t][fd := slot]], file)
         == InTables(tables, file) - HoldsFile(tables[t][fd], file) + HoldsFile(slot, file)
  {
    hide InTable, InTables, HoldsFile;
    InTablesSet(tables, t, tables[t][fd := slot], file);
    InTableSet(tables[t], fd, slot, file);
  }

  lemma SlotHas(tables: seq<seq<Slot>>, t: nat, fd: nat)
    requires t < |tables| && fd < |tables[t]| && tables[t][fd].Used?
    ensures InTables(tables, tables[t][fd].file) > 0
  {
    InTableHas(tables[t], fd, tables[t][fd].file);
    InTablesHas(tables, t, tables[t][fd].file);
  }

  // ---------- the files of a system ----------

  lemma OneMore(s: seq<nat>, x: nat)
    requires Distinct(s) && x !in s
    ensures Distinct(s + [x]) && forall f: nat :: f in s + [x] <==> f in s || f == x
  {
  }

  /** Everything the counting is about.  A file is named by its address, and addresses below
      nextFile have been handed out; a destroyed table has no slots; handles are the references held
      outside any table; closed lists the files the backend was told to close, in order. */
  datatype World = World(
    nextFile: nat, references: map<nat, nat>, tables: seq<seq<Slot>>, alive: seq<bool>, handles: multiset<nat>,
    closed: seq<nat>)

  /** The references there are to a file. */
  function Holders(w: World, file: nat): nat
  {
    InTables(w.tables, file) + w.handles[file]
  }

  predicate TablesOk(w: World)
  {
    && |w.alive| == |w.tables|
    && forall t :: 0 <= t < |w.tables| ==> if w.alive[t] then 0 < |w.tables[t]| <= MAXIMUM_FDS else w.tables[t] == []
  }

  ghost predicate Counted(w: World)
  {
    && (forall f: nat :: f in w.references <==> Holders(w, f) > 0)
    && (forall f :: f in w.references ==> w.references[f] == Holders(w, f) && f < w.nextFile)
  }

  ghost predicate ClosedOnce(w: World)
  {
    Distinct(w.closed) && forall f: nat :: f in w.closed <==> f < w.nextFile && f !in w.references
  }

  /** A file exists exactly while something refers to it, its count is the number of things that do,
      and every file that no longer exists was closed, once. */
  ghost predicate Inv(w: World)
  {
    TablesOk(w) && Counted(w) && ClosedOnce(w)
  }

  function Created(w: World): World
  {
    w.(nextFile := w.nextFile + 1, references := w.references[w.nextFile := 1],
      handles := w.handles + multiset{w.nextFile})
  }

  function Retained(w: World, file: nat): World
    requires file in w.references
  {
    w.(references := w.references[file := w.references[file] + 1], handles := w.handles + multiset{file})
  }

  /** Dropping a reference: the last one closes the file. */
  function Released(w: World, file: nat): World
    requires file in w.references && w.references[file] > 0
  {
    if w.references[file] == 1 then
      w.(references := w.references - {file}, handles := w.handles - multiset{file}, closed := w.closed + [file])
    else
      w.(references := w.references[file := w.references[file] - 1], handles := w.handles - multiset{file})
  }

  function Of(slot: Slot): multiset<nat>
  {
    if slot.Used? then multiset{slot.file} else multiset{}
  }

  /** Putting a slot in place hands it the reference it needs and gives back the one it had. */
  function Placed(w: World, t: nat, fd: nat, slot: Slot): World
    requires t < |w.tables| && fd < |w.tables[t]|
  {
    w.(tables := w.tables[t := w.tables[t][fd := slot]], handles := w.handles - Of(slot) + Of(w.tables[t][fd]))
  }

  lemma CreatedKeeps(w: World)
    requires Inv(w)
    ensures Inv(Created(w))
  {
    hide InTables, Distinct;
    var r := Created(w);
    assert w.nextFile !in w.references;
    forall f: nat
      ensures Holders(r, f) == Holders(w, f) + (if f == w.nextFile then 1 else 0)
    {
    }
  }

  lemma RetainedKeeps(w: World, file: nat)
    requires Inv(w) && file in w.references
    ensures Inv(Retained(w, file))
  {
    hide InTables, Distinct;
    var r := Retained(w, file);
    forall f: nat
      ensures Holders(r, f) == Holders(w, f) + (if f == file then 1 else 0)
    {
    }
  }

  lemma HandleCounts(w: World, file: nat)
    requires Inv(w) && file in w.handles
    ensures file in w.references && w.references[file] == Holders(w, file) > 0
  {
  }

  lemma SlotCounts(w: World, t: nat, fd: nat)
    requires Inv(w) && t < |w.tables| && fd < |w.tables[t]| && w.tables[t][fd].Used?
    ensures w.tables[t][fd].file in w.references
  {
    SlotHas(w.tables, t, fd);
    assert Holders(w, w.tables[t][fd].file) > 0;
  }

  /** The file goes, and is closed, exactly when nothing refers to it any more. */
  lemma ReleasedKeeps(w: World, file: nat)
    requires Inv(w) && file in w.handles
    ensures file in w.references && w.references[file] > 0 && Inv(Released(w, file))
    ensures file in Released(w, file).closed <==> Holders(Released(w, file), file) == 0
  {
    hide InTables, Distinct;
    HandleCounts(w, file);
    var r := Released(w, file);
    forall f: nat
      ensures Holders(r, f) == Holders(w, f) - (if f == file then 1 else 0)
    {
    }
    if w.references[file] == 1 {
      OneMore(w.closed, file);
    }
  }

  lemma Moved(handles: multiset<nat>, gone: Slot, back: Slot, file: nat)
    requires Of(gone) <= handles
    ensures (handles - Of(gone) + Of(back))[file] == handles[file] - HoldsFile(gone, file) + HoldsFile(back, file)
  {
  }

  lemma SameHolders(w: World, r: World)
    requires Inv(w) && TablesOk(r) && forall f: nat :: Holders(r, f) == Holders(w, f)
    requires r.references == w.references && r.nextFile == w.nextFile && r.closed == w.closed
    ensures Inv(r)
  {
    hide Holders, TablesOk, Distinct;
  }

  lemma PlacedKeeps(w: World, t: nat, fd: nat, slot: Slot)
    requires Inv(w) && t < |w.tables| && fd < |w.tables[t]| && Of(slot) <= w.handles
    ensures Inv(Placed(w, t, fd, slot))
  {
    hide InTables, Counted, ClosedOnce, Of, HoldsFile;
    var r := Placed(w, t, fd, slot);
    forall f: nat
      ensures Holders(r, f) == Holders(w, f)
    {
      SlotSet(w.tables, t, fd, slot, f);
      Moved(w.handles, slot, w.tables[t][fd], f);
    }
    SameHolders(w, r);
  }

  function Added(w: World, maximum: nat): World
  {
    w.(tables := w.tables + [NoFiles(maximum)], alive := w.alive + [true])
  }

  lemma AddedKeeps(w: World, maximum: nat)
    requires Inv(w) && 0 < maximum <= MAXIMUM_FDS
    ensures Inv(Added(w, maximum))
  {
    hide InTables, InTable, Distinct;
    var r := Added(w, maximum);
    forall f: nat
      ensures Holders(r, f) == Holders(w, f)
    {
      InTablesAppend(w.tables, NoFiles(maximum), f);
      InTableNone(NoFiles(maximum), f);
    }
  }

  function Removed(w: World, t: nat): World
    requires t < |w.tables| == |w.alive|
  {
    w.(tables := w.tables[t := []], alive := w.alive[t := false])
  }

  // ---------- runs ----------

  /** What every operation is made of. */
  datatype Step =
    | NewFile
    | Retain(file: nat)
    | Release(file: nat)
    | Place(t: nat, fd: nat, slot: Slot)
    | NewTable(maximum: nat)
    | DropTable(t: nat)

  /** A reference is only copied from one that exists and only dropped by its owner; a slot takes a
      reference that is in hand; a table goes when its slots are free. */
  predicate Enabled(w: World, step: Step)
  {
    match step
    case NewFile => true
    case Retain(file) => file in w.references
    case Release(file) => file in w.handles
    case Place(t, fd, slot) => t < |w.tables| && fd < |w.tables[t]| && Of(slot) <= w.handles
    case NewTable(maximum) => 0 < maximum <= MAXIMUM_FDS
    case DropTable(t) => t < |w.tables| && forall fd :: 0 <= fd < |w.tables[t]| ==> w.tables[t][fd].Free?
  }

  ghost function Apply(w: World, step: Step): World
    requires Inv(w) && Enabled(w, step)
  {
    match step
    case NewFile => Created(w)
    case Retain(file) => Retained(w, file)
    case Release(file) => HandleCounts(w, file); Released(w, file)
    case Place(t, fd, slot) => Placed(w, t, fd, slot)
    case NewTable(maximum) => Added(w, maximum)
    case DropTable(t) => Removed(w, t)
  }

  /** Every step keeps the counts right; closed files stay closed and their addresses are not
      handed out again. */
  lemma StepKeeps(w: World, step: Step)
    requires Inv(w) && Enabled(w, step)
    ensures Inv(Apply(w, step)) && w.closed <= Apply(w, step).closed && w.nextFile <= Apply(w, step).nextFile
  {
    hide Counted, ClosedOnce, TablesOk;
    match step
    case NewFile => CreatedKeeps(w);
    case Retain(file) => RetainedKeeps(w, file);
    case Release(file) =>
      HandleCounts(w, file);
      ReleasedKeeps(w, file);
    case Place(t, fd, slot) => PlacedKeeps(w, t, fd, slot);
    case NewTable(maximum) => AddedKeeps(w, maximum);
    case DropTable(t) => GoneKeeps(w, t);
  }

  const NOTHING: World := World(0, map[], [], [], multiset{}, [])

  ghost predicate Follows(worlds: seq<World>, steps: seq<Step>, k: nat)
    requires k < |steps| && |worlds| == |steps| + 1
  {
    Inv(worlds[k]) ==> Enabled(worlds[k], steps[k]) && worlds[k + 1] == Apply(worlds[k], steps[k])
  }

  ghost predicate IsRun(worlds: seq<World>, steps: seq<Step>)
  {
    |worlds| == |steps| + 1 && worlds[0] == NOTHING && forall k :: 0 <= k < |steps| ==> Follows(worlds, steps, k)
  }

  lemma {:induction false} RunKeeps(worlds: seq<World>, steps: seq<Step>, k: nat)
    requires IsRun(worlds, steps) && k <= |steps|
    ensures Inv(worlds[k])
    decreases k
  {
    if k > 0 {
      RunKeeps(worlds, steps, k - 1);
      assert Follows(worlds, steps, k - 1);
      StepKeeps(worlds[k - 1], steps[k - 1]);
    }
  }

  /** At every point of every run a file's count is the slots holding it plus the handles held, and
      a file that was ever made has been closed, once, exactly when that number is nought. */
  lemma CountsExactly(worlds: seq<World>, steps: seq<Step>, k: nat, file: nat)
    requires IsRun(worlds, steps) && k <= |steps|
    ensures var w := worlds[k]; var holders := InTables(w.tables, file) + w.handles[file];
      && (file in w.references <==> holders > 0) && (file in w.references ==> w.references[file] == holders)
      && (file < w.nextFile ==> multiset(w.closed)[file] == if holders == 0 then 1 else 0)
      && (file >= w.nextFile ==> multiset(w.closed)[file] == 0)
  {
    RunKeeps(worlds, steps, k);
    var w := worlds[k];
    assert Holders(w, file) == InTables(w.tables, file) + w.handles[file];
    OnceEach(w.closed, file);
  }

  lemma {:induction false} OnceEach(s: seq<nat>, x: nat)
    requires Distinct(s)
    ensures multiset(s)[x] == if x in s then 1 else 0
  {
    if s != [] {
      var n := |s| - 1;
      OnceEach(s[..n], x);
      assert s == s[..n] + [s[n]];
    }
  }

  class Files {
    var nextFile: nat
    var references: map<nat, nat>    // the count kept in each file that exists
    var tables: seq<seq<Slot>>
    var alive: seq<bool>
    ghost var handles: multiset<nat>
    ghost var closed: seq<nat>

    ghost function View(): World
      reads this
    {
      World(nextFile, references, tables, alive, handles, closed)
    }

    ghost predicate Valid()
      reads this
    {
      Inv(View())
    }

    constructor ()
      ensures Valid() && tables == [] && handles == multiset{} && closed == []
    {
      nextFile, references, tables, alive := 0, map[], [], [];
      handles, closed := multiset{}, [];
    }

    /** A new file with one reference, the caller's. */
    method Create() returns (file: nat)
      requires Valid()
      modifies this`nextFile, this`references, this`handles
      ensures Valid() && file == old(nextFile) && View() == Created(old(View()))
    {
      hide Inv;
      CreatedKeeps(View());
      file := nextFile;
      references := references[file := 1];
      nextFile := nextFile + 1;
      handles := handles + multiset{file};
    }

    /** ns_vfs_file_retain. */
    method Retain(file: nat)
      requires Valid() && file in references
      modifies this`references, this`handles
      ensures Valid() && View() == Retained(old(View()), file)
    {
      hide Inv;
      RetainedKeeps(View(), file);
      references := references[file := references[file] + 1];
      handles := handles + multiset{file};
    }

    /** ns_vfs_file_release: the backend closes the file exactly when this was the last reference. */
    method Release(file: nat)
      requires Valid() && file in handles
      modifies this`references, this`handles, this`closed
      ensures Valid() && old(file in references && references[file] > 0) && View() == Released(old(View()), file)
      ensures closed == old(closed) + (if Holders(View(), file) == 0 then [file] else [])
    {
      hide Inv, Holders;
      ReleasedKeeps(View(), file);
      ReleasedCloses(View(), file);
      references := references[file := references[file] - 1];
      handles := handles - multiset{file};
      if references[file] == 0 {
        references := references - {file};
        closed := closed + [file];
      } else {
        assert closed == closed + [];
      }
      assert View().references == Released(old(View()), file).references;
    }

    /** Writing a slot. */
    method Place(t: nat, fd: nat, slot: Slot)
      requires Valid() && t < |tables| && fd < |tables[t]| && Of(slot) <= handles
      modifies this`tables, this`handles
      ensures Valid() && View() == Placed(old(View()), t, fd, slot)
    {
      hide Inv;
      PlacedKeeps(View(), t, fd, slot);
      handles := handles - Of(slot) + Of(tables[t][fd]);
      tables := tables[t := tables[t][fd := slot]];
    }

    /** The table is there and the caller may use it. */
    predicate Usable(t: nat)
      reads this
    {
      t < |tables| && t < |alive| && alive[t]
    }

    /** ns_vfs_fdtable_create. */
    method CreateTable(maximum: nat) returns (status: int, t: nat)
      requires Valid()
      modifies this`tables, this`alive
      ensures Valid() && status == if maximum == 0 || maximum > MAXIMUM_FDS then EINVAL else OK
      ensures status != OK ==> unchanged(this)
      ensures status == OK ==>
        t == |old(tables)| && tables == old(tables) + [NoFiles(maximum)] && alive == old(alive) + [true]
    {
      if maximum == 0 || maximum > MAXIMUM_FDS {
        return EINVAL, 0;
      }
      hide Inv;
      AddedKeeps(View(), maximum);
      t := |tables|;
      tables := tables + [NoFiles(maximum)];
      alive := alive + [true];
      return OK, t;
    }

    /** ns_vfs_fd_install: the lowest free slot from the minimum on gets a reference of its own. */
    method Install(t: nat, file: nat, minimum: int, closeOnExec: bool) returns (fd: int)
      requires Valid() && Usable(t) && file in references && minimum <= |tables[t]|
      modifies this`references, this`tables, this`handles
      ensures Valid() && handles == old(handles)
      ensures fd == if minimum < 0 then EINVAL
                    else if LowestFree(old(tables[t]), minimum) == |old(tables[t])| then EMFILE
                    else LowestFree(old(tables[t]), minimum)
      ensures fd < 0 ==> unchanged(this)
      ensures fd >= 0 ==> tables == old(tables)[t := old(tables[t])[fd := Used(file, closeOnExec)]]
    {
      hide Inv;
      if minimum < 0 {
        return EINVAL;
      }
      var index := minimum;
      while index < |tables[t]| && tables[t][index].Used?
        invariant minimum <= index <= |tables[t]| && unchanged(this)
        invariant LowestFree(tables[t], minimum) == LowestFree(tables[t], index)
      {
        index := index + 1;
      }
      if index == |tables[t]| {
        return EMFILE;
      }
      Retain(file);
      Place(t, index, Used(file, closeOnExec));
      assert handles == old(handles);
      return index;
    }

    /** fd_get: looking a descriptor up takes a reference. */
    method Get(t: nat, fd: int) returns (found: bool, file: nat)
      requires Valid() && Usable(t)
      modifies this`references, this`handles
      ensures Valid() && (found <==> 0 <= fd < |tables[t]| && tables[t][fd].Used?)
      ensures !found ==> unchanged(this)
      ensures found ==> file == tables[t][fd].file && file in old(references) && View() == Retained(old(View()), file)
    {
      hide Inv;
      if fd < 0 || fd >= |tables[t]| || tables[t][fd].Free? {
        return false, 0;
      }
      SlotCounts(View(), t, fd);
      file := tables[t][fd].file;
      Retain(file);
      return true, file;
    }

    /** The end of ns_vfs_open, from the backend's answer on: a new file goes into the lowest free
        slot; with a full table it is closed again, and nothing is left behind. */
    method Open(t: nat, backend: int, closeOnExec: bool) returns (fd: int)
      requires Valid() && Usable(t)
      modifies this
      ensures Valid() && handles == old(handles) && alive == old(alive)
      ensures backend < 0 ==> fd == backend && unchanged(this)
      ensures backend >= 0 ==>
        && nextFile == old(nextFile) + 1
        && (fd == if LowestFree(old(tables[t]), 0) == |old(tables[t])| then EMFILE else LowestFree(old(tables[t]), 0))
        && (fd < 0 ==> tables == old(tables) && closed == old(closed) + [old(nextFile)])
        && (fd >= 0 ==> closed == old(closed))
        && (fd >= 0 ==> tables == old(tables)[t := old(tables[t])[fd := Used(old(nextFile), closeOnExec)]])
    {
      hide Inv, InTables;
      if backend < 0 {
        return backend;
      }
      NotYetHeld(View());
      var file := Create();
      fd := Install(t, file, 0, closeOnExec);
      if fd >= 0 { SlotHas(tables, t, fd); }
      Release(file);
      assert handles == old(handles);
    }

    /** ns_vfs_close. */
    method Close(t: nat, fd: int) returns (status: int)
      requires Valid() && Usable(t)
      modifies this`references, this`tables, this`handles, this`closed
      ensures Valid() && handles == old(handles)
      ensures status == if 0 <= fd < |old(tables[t])| && old(tables[t])[fd].Used? then OK else EBADF
      ensures status != OK ==> unchanged(this)
      ensures status == OK ==> var file := old(tables[t])[fd].file;
        && tables == old(tables)[t := old(tables[t])[fd := Free]]
        && closed == old(closed) + (if Holders(View(), file) == 0 then [file] else [])
    {
      hide Inv, InTables;
      if fd < 0 || fd >= |tables[t]| || tables[t][fd].Free? {
        return EBADF;
      }
      var file := tables[t][fd].file;
      Place(t, fd, Free);
      Release(file);
      assert handles == old(handles);
      return OK;
    }

    /** ns_vfs_dup: never closes anything. */
    method Dup(t: nat, oldFd: int, minimum: int, closeOnExec: bool) returns (fd: int)
      requires Valid() && Usable(t) && minimum <= |tables[t]|
      modifies this`references, this`tables, this`handles, this`closed
      ensures Valid() && handles == old(handles) && closed == old(closed)
      ensures fd == if !(0 <= oldFd < |old(tables[t])| && old(tables[t])[oldFd].Used?) then EBADF
                    else if minimum < 0 then EINVAL
                    else if LowestFree(old(tables[t]), minimum) == |old(tables[t])| then EMFILE
                    else LowestFree(old(tables[t]), minimum)
      ensures tables == if fd < 0 then old(tables)
                        else old(tables)[t := old(tables[t])[fd := Used(old(tables[t])[oldFd].file, closeOnExec)]]
    {
      hide Inv, InTables;
      var found, file := Get(t, oldFd);
      if !found {
        return EBADF;
      }
      fd := Install(t, file, minimum, closeOnExec);
      SlotHas(tables, t, oldFd);
      Release(file);
      assert handles == old(handles);
    }

    /** ns_vfs_dup2: the file that was in the slot loses one reference, which closes it exactly when
        that was the last; putting a file where it already is changes nothing. */
    method Dup2(t: nat, oldFd: int, newFd: int, closeOnExec: bool) returns (fd: int)
      requires Valid() && Usable(t)
      modifies this`references, this`tables, this`handles, this`closed
      ensures Valid() && handles == old(handles)
      ensures fd == if 0 <= oldFd < |old(tables[t])| && 0 <= newFd < |old(tables[t])| && old(tables[t])[oldFd].Used?
                    then newFd else EBADF
      ensures fd < 0 || oldFd == newFd ==> unchanged(this)
      ensures fd >= 0 && oldFd != newFd ==> var slots := old(tables[t]);
        && tables == old(tables)[t := slots[newFd := Used(slots[oldFd].file, closeOnExec)]]
        && closed == old(closed) + (if slots[newFd].Used? && Holders(View(), slots[newFd].file) == 0
                                    then [slots[newFd].file] else [])
    {
      hide Inv, InTables;
      if oldFd < 0 || newFd < 0 || oldFd >= |tables[t]| || newFd >= |tables[t]| || tables[t][oldFd].Free? {
        return EBADF;
      }
      if oldFd == newFd {
        return newFd;
      }
      SlotCounts(View(), t, oldFd);
      Replace(t, newFd, Used(tables[t][oldFd].file, closeOnExec));
      return newFd;
    }

    /** Puts another file's slot in place and drops the reference that was there. */
    method Replace(t: nat, fd: nat, slot: Slot)
      requires Valid() && t < |tables| && fd < |tables[t]| && slot.Used? && slot.file in references
      modifies this`references, this`tables, this`handles, this`closed
      ensures Valid() && handles == old(handles)
      ensures tables == old(tables)[t := old(tables[t])[fd := slot]]
      ensures var was := old(tables[t])[fd];
        closed == old(closed) + (if was.Used? && Holders(View(), was.file) == 0 then [was.file] else [])
    {
      hide Inv, InTables, Holders;
      Retain(slot.file);
      var replaced := tables[t][fd];
      Place(t, fd, slot);
      if replaced.Used? {
        Release(replaced.file);
        assert handles ==
          old(handles) + multiset{slot.file} - multiset{slot.file} + multiset{replaced.file} - multiset{replaced.file};
        assert handles == old(handles);
      } else {
        assert handles == old(handles);
        assert closed == old(closed) + [];
      }
    }

    /** ns_vfs_fdtable_clone: every slot copied takes its own reference. */
    method Clone(t: nat, dropCloseOnExec: bool) returns (copy: nat)
      requires Valid() && Usable(t)
      modifies this`references, this`tables, this`alive, this`handles
      ensures Valid() && handles == old(handles) && alive == old(alive) + [true]
      ensures copy == |old(tables)| && tables == old(tables) + [Kept(old(tables[t]), dropCloseOnExec)]
    {
      hide Inv;
      TableSize(View(), t);
      var size := |tables[t]|;
      var status, made := CreateTable(size);
      copy := made;
      ghost var slots := tables[t];
      assert KeptUpto(slots, dropCloseOnExec, 0) == NoFiles(size);
      var index := 0;
      while index < size
        invariant 0 <= index <= size && Valid() && handles == old(handles) && alive == old(alive) + [true]
        invariant tables == old(tables) + [KeptUpto(slots, dropCloseOnExec, index)]
      {
        CopySlot(t, copy, index, dropCloseOnExec, slots);
        assert tables == old(tables) + [KeptUpto(slots, dropCloseOnExec, index + 1)];
        index := index + 1;
      }
      assert KeptUpto(slots, dropCloseOnExec, size) == Kept(slots, dropCloseOnExec);
    }

    method CopySlot(t: nat, copy: nat, index: nat, dropCloseOnExec: bool, ghost slots: seq<Slot>)
      requires Valid() && t < |tables| && copy < |tables| && tables[t] == slots && index < |slots|
      requires tables[copy] == KeptUpto(slots, dropCloseOnExec, index)
      modifies this`references, this`tables, this`handles
      ensures Valid() && handles == old(handles)
      ensures tables == old(tables)[copy := KeptUpto(slots, dropCloseOnExec, index + 1)]
    {
      hide Inv, KeptUpto;
      KeptStep(slots, dropCloseOnExec, index);
      var slot := tables[t][index];
      if slot.Used? && !(dropCloseOnExec && slot.closeOnExec) {
        SlotCounts(View(), t, index);
        Retain(slot.file);
        Place(copy, index, slot);
        assert handles == old(handles);
      }
    }

    /** Clears one slot and drops its reference. */
    method Drop(t: nat, fd: nat)
      requires Valid() && t < |tables| && fd < |tables[t]| && tables[t][fd].Used?
      modifies this`references, this`tables, this`handles, this`closed
      ensures Valid() && handles == old(handles) && old(closed) <= closed
      ensures tables == old(tables)[t := old(tables[t])[fd := Free]]
    {
      hide Inv, InTables;
      var file := tables[t][fd].file;
      Place(t, fd, Free);
      Release(file);
      assert handles == old(handles);
    }

    /** ns_vfs_fdtable_close_cloexec. */
    method CloseOnExec(t: nat) returns (count: nat)
      requires Valid() && Usable(t)
      modifies this`references, this`tables, this`handles, this`closed
      ensures Valid() && handles == old(handles) && old(closed) <= closed
      ensures tables == old(tables)[t := Kept(old(tables[t]), true)]
      ensures count == Marked(old(tables[t]))
    {
      hide Inv;
      var slots := tables[t];
      count := 0;
      var index := 0;
      assert Mixed(slots, 0) == slots;
      while index < |slots|
        invariant 0 <= index <= |slots| && Valid() && handles == old(handles) && old(closed) <= closed
        invariant tables == old(tables)[t := Mixed(slots, index)]
        invariant count == Marked(slots[..index])
      {
        assert tables[t][index] == slots[index];
        assert slots[..index + 1] == slots[..index] + [slots[index]];
        MixedStep(slots, index);
        MarkedStep(slots[..index], slots[index]);
        if tables[t][index].Used? && tables[t][index].closeOnExec {
          Drop(t, index);
          count := count + 1;
        }
        assert tables == old(tables)[t := Mixed(slots, index + 1)];
        index := index + 1;
      }
      assert Mixed(slots, |slots|) == Kept(slots, true) && slots[..index] == slots;
    }

    /** ns_vfs_fdtable_destroy. */
    method Destroy(t: nat)
      requires Valid() && Usable(t)
      modifies this`references, this`tables, this`alive, this`handles, this`closed
      ensures Valid() && handles == old(handles) && old(closed) <= closed
      ensures tables == old(tables)[t := []] && alive == old(alive)[t := false]
    {
      hide Inv;
      var slots := tables[t];
      var index := 0;
      assert Emptied(slots, 0) == slots;
      while index < |slots|
        invariant 0 <= index <= |slots| && Valid() && handles == old(handles) && old(closed) <= closed
        invariant tables == old(tables)[t := Emptied(slots, index)] && alive == old(alive)
      {
        EmptiedStep(slots, index);
        if tables[t][index].Used? {
          Drop(t, index);
        }
        assert tables == old(tables)[t := Emptied(slots, index + 1)];
        index := index + 1;
      }
      GoneKeeps(View(), t);
      tables := tables[t := []];
      alive := alive[t := false];
    }
  }

  lemma ReleasedCloses(w: World, file: nat)
    requires Inv(w) && file in w.handles
    ensures file in w.references && w.references[file] > 0
    ensures w.references[file] == 1 <==> Holders(Released(w, file), file) == 0
  {
    HandleCounts(w, file);
  }

  lemma NotYetHeld(w: World)
    requires Inv(w)
    ensures Holders(w, w.nextFile) == 0
  {
  }

  lemma TableSize(w: World, t: nat)
    requires Inv(w) && t < |w.tables| && w.alive[t]
    ensures 0 < |w.tables[t]| <= MAXIMUM_FDS
  {
  }

  /** A table without files can go. */
  lemma GoneKeeps(w: World, t: nat)
    requires Inv(w) && t < |w.tables| && forall fd :: 0 <= fd < |w.tables[t]| ==> w.tables[t][fd].Free?
    ensures Inv(Removed(w, t))
  {
    hide InTables, InTable, Distinct;
    var r := Removed(w, t);
    forall f: nat
      ensures Holders(r, f) == Holders(w, f)
    {
      InTablesSet(w.tables, t, [], f);
      InTableNone(w.tables[t], f);
      InTableNone([], f);
    }
  }

  predicate Dropped(slot: Slot, dropCloseOnExec: bool)
  {
    slot.Free? || (dropCloseOnExec && slot.closeOnExec)
  }

  /** The slots without those marked to be closed on exec, if they are to go. */
  function Kept(slots: seq<Slot>, dropCloseOnExec: bool): (r: seq<Slot>)
    ensures |r| == |slots|
  {
    seq(|slots|, i requires 0 <= i < |slots| => if Dropped(slots[i], dropCloseOnExec) then Free else slots[i])
  }

  function KeptUpto(slots: seq<Slot>, dropCloseOnExec: bool, n: nat): (r: seq<Slot>)
    ensures |r| == |slots|
  {
    seq(|slots|, i requires 0 <= i < |slots| => if i < n && !Dropped(slots[i], dropCloseOnExec) then slots[i] else Free)
  }

  lemma KeptStep(slots: seq<Slot>, dropCloseOnExec: bool, n: nat)
    requires n < |slots|
    ensures KeptUpto(slots, dropCloseOnExec, n)[n] == Free
    ensures KeptUpto(slots, dropCloseOnExec, n + 1)
         == if Dropped(slots[n], dropCloseOnExec) then KeptUpto(slots, dropCloseOnExec, n)
            else KeptUpto(slots, dropCloseOnExec, n)[n := slots[n]]
  {
  }

  /** The marked slots below n are gone. */
  function Mixed(slots: seq<Slot>, n: nat): (r: seq<Slot>)
    ensures |r| == |slots|
  {
    seq(|slots|, i requires 0 <= i < |slots| => if i < n && Dropped(slots[i], true) then Free else slots[i])
  }

  lemma MixedStep(slots: seq<Slot>, n: nat)
    requires n < |slots|
    ensures Mixed(slots, n + 1) == if Dropped(slots[n], true) then Mixed(slots, n)[n := Free] else Mixed(slots, n)
    ensures slots[n].Free? ==> Mixed(slots, n + 1) == Mixed(slots, n)
  {
  }

  /** How many slots are marked. */
  function Marked(slots: seq<Slot>): nat
  {
    if slots == [] then 0
    else Marked(slots[..|slots| - 1]) + if slots[|slots| - 1].Used? && slots[|slots| - 1].closeOnExec then 1 else 0
  }

  lemma MarkedStep(slots: seq<Slot>, slot: Slot)
    ensures Marked(slots + [slot]) == Marked(slots) + if slot.Used? && slot.closeOnExec then 1 else 0
  {
    assert (slots + [slot])[..|slots|] == slots;
  }

  function Emptied(slots: seq<Slot>, n: nat): (r: seq<Slot>)
    ensures |r| == |slots|
  {
    seq(|slots|, i requires 0 <= i < |slots| => if i < n then Free else slots[i])
  }

  lemma EmptiedStep(slots: seq<Slot>, n: nat)
    requires n < |slots|
    ensures Emptied(slots, n + 1) == Emptied(slots, n)[n := Free] && Emptied(slots, n)[n] == slots[n]
    ensures slots[n].Free? ==> Emptied(slots, n + 1) == Emptied(slots, n)
  {
  }

  function NoFiles(maximum: nat): seq<Slot>
  {
    seq(maximum, _ => Free)
  }

  /** The first free slot at or after an index. */
  function LowestFree(slots: seq<Slot>, from: nat): (fd: nat)
    requires from <= |slots|
    ensures from <= fd <= |slots| && (fd < |slots| ==> slots[fd].Free?)
    ensures forall k :: from <= k < fd ==> slots[k].Used?
    decreases |slots| - from
  {
    if from == |slots| || slots[from].Free? then from else LowestFree(slots, from + 1)
  }
}
