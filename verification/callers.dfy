/** The store of CallersData.cpp: a directory of files, whose sets of definitions and declarations grow in place. */
module CallersData {
  import opened CallGraph

  class File {
    const filepath: string
    var defined: map<Sign, Def>
    var declared: map<Sign, Decl>
    var nbDefs: nat    // metrics
    var nbDecls: nat

    /** What add_defined_function and add_declared_function assert about the counters */
    predicate Counted()
      reads this
    {
      nbDefs == |defined| && nbDecls == |declared|
    }

    function View(): Functions
      reads this
    {
      Functions(defined, declared)
    }

    constructor (path: string)
      ensures filepath == path && Counted() && View() == NO_FUNCTIONS
    {
      filepath, defined, declared, nbDefs, nbDecls := path, map[], map[], 0, 0;
    }

    /** is_same_file, for source files */
    predicate IsSameFile(path: string) {
      filepath == path
    }

    /** get_or_create_local_defined_function, with add_defined_function for a new one */
    method GetOrCreateLocalDefined(fct: Fct)
      requires Counted() && IsSameFile(fct.loc.file)
      modifies this
      ensures Counted() && fct.sign in defined
      ensures View() == DefIn(old(View()), fct.sign)
    {
      if fct.sign !in defined {
        OneMore(defined, fct.sign, NO_CALLEES);
        defined := defined[fct.sign := NO_CALLEES];
        nbDefs := nbDefs + 1;
      }
    }

    /** get_or_create_local_declared_function, with add_declared_function for a new one */
    method GetOrCreateLocalDeclared(fct: Fct)
      requires Counted() && IsSameFile(fct.loc.file)
      modifies this
      ensures Counted() && fct.sign in declared
      ensures View() == DeclIn(old(View()), fct.sign)
    {
      if fct.sign !in declared {
        OneMore(declared, fct.sign, NO_CALLERS);
        declared := declared[fct.sign := NO_CALLERS];
        nbDecls := nbDecls + 1;
      }
    }

    /** add_local_callee */
    method AddLocalCallee(caller: Sign, callee: Sign)
      requires Counted() && caller in defined
      modifies this`defined
      ensures Counted()
      ensures View() == SetDef(old(View()), caller, CallGraph.AddLocalCallee(old(defined)[caller], caller, callee))
    {
      var d := defined[caller];
      if caller != callee {
        d := d.(locallees := d.locallees + {callee});
      }
      SameCount(defined, caller, d);
      defined := defined[caller := d];
    }

    /** add_external_callee and add_builtin_callee */
    method AddExternalCallee(caller: Sign, mangled: string, callee: Sign, loc: Location)
      requires Counted() && caller in defined
      modifies this`defined
      ensures Counted()
      ensures View() == SetDef(old(View()), caller, CallGraph.AddExternalCallee(old(defined)[caller], callee, Ext(mangled, loc)))
    {
      var d := defined[caller];
      if callee !in d.extcallees {
        d := d.(extcallees := d.extcallees[callee := Ext(mangled, loc)]);
      }
      SameCount(defined, caller, d);
      defined := defined[caller := d];
    }

    /** add_local_caller */
    method AddLocalCaller(callee: Sign, caller: Sign)
      requires Counted() && callee in declared
      modifies this`declared
      ensures Counted()
      ensures View() == SetDecl(old(View()), callee, CallGraph.AddLocalCaller(old(declared)[callee], callee, caller))
    {
      var d := declared[callee];
      if callee != caller {
        d := d.(locallers := d.locallers + {caller});
      }
      SameCount(declared, callee, d);
      declared := declared[callee := d];
    }

    /** add_external_caller */
    method AddExternalCaller(callee: Sign, mangled: string, caller: Sign, loc: Location)
      requires Counted() && callee in declared
      modifies this`declared
      ensures Counted()
      ensures View() == SetDecl(old(View()), callee, CallGraph.AddExternalCaller(old(declared)[callee], caller, Ext(mangled, loc)))
    {
      var d := declared[callee];
      if caller !in d.extcallers {
        d := d.(extcallers := d.extcallers[caller := Ext(mangled, loc)]);
      }
      SameCount(declared, callee, d);
      declared := declared[callee := d];
    }
  }

  lemma OneMore<T>(m: map<Sign, T>, s: Sign, d: T)
    requires s !in m
    ensures |m[s := d]| == |m| + 1
  {
    assert m[s := d].Keys == m.Keys + {s};
  }

  lemma SameCount<T>(m: map<Sign, T>, s: Sign, d: T)
    requires s in m
    ensures |m[s := d]| == |m|
  {
    assert m[s := d].Keys == m.Keys;
  }

  ghost predicate FileShows(file: File, p: string, v: Functions)
    reads file
  {
    file.filepath == p && file.Counted() && file.View() == v
  }

  class Dir {
    var files: map<string, File>
    ghost var store: Store
    ghost var Repr: set<File>

    ghost predicate Valid()
      reads this, Repr
    {
      (forall p :: p in store <==> p in files)
      && forall p :: p in files ==> files[p] in Repr && FileShows(files[p], p, store[p])
    }

    constructor ()
      ensures Valid() && Repr == {} && store == map[]
    {
      files, store, Repr := map[], map[], {};
    }

    /** create_or_get_file */
    method CreateOrGetFile(path: string) returns (file: File)
      requires Valid()
      modifies this
      ensures Valid() && fresh(Repr - old(Repr)) && old(Repr) <= Repr && store == WithFile(old(store), path)
      ensures path in files && files[path] == file && file in Repr && file.filepath == path
      ensures forall p :: p in old(files) ==> p in files && files[p] == old(files)[p]
    {
      if path in files {
        file := files[path];
      } else {
        file := new File(path);
        files := files[path := file];
        store := store[path := NO_FUNCTIONS];
        Repr := Repr + {file};
      }
    }

    /** After a change of the file at `path` alone */
    ghost method Follow(path: string)
      requires path in files && files[path] in Repr && files[path].filepath == path && files[path].Counted()
      requires forall p :: p in store <==> p in files
      requires forall p :: p in files && p != path ==> files[p] in Repr && FileShows(files[p], p, store[p])
      modifies this`store
      ensures Valid() && store == old(store)[path := files[path].View()]
    {
      store := store[path := files[path].View()];
    }

    ghost predicate Holds(file: File)
      reads this
    {
      file.filepath in files && files[file.filepath] == file
    }

    /** get_or_create_defined_function, in the file the function belongs to */
    method Define(file: File, fct: Fct)
      requires Valid() && file.IsSameFile(fct.loc.file) && Holds(file)
      modifies this`store, file
      ensures Valid() && store == WithDef(old(store), fct.Place()) && Defines(store, fct.Place())
    {
      hide DefIn;
      file.GetOrCreateLocalDefined(fct);
      Follow(file.filepath);
    }

    /** get_or_create_declared_function, in the file the function belongs to */
    method Declare(file: File, fct: Fct)
      requires Valid() && file.IsSameFile(fct.loc.file) && Holds(file)
      modifies this`store, file
      ensures Valid() && store == WithDecl(old(store), fct.Place()) && Declares(store, fct.Place())
    {
      hide DeclIn;
      file.GetOrCreateLocalDeclared(fct);
      Follow(file.filepath);
    }

    /** Both ends of a call inside `file` */
    method JoinLocal(file: File, f: Fct, g: Fct)
      requires Valid() && Holds(file) && file.IsSameFile(f.loc.file) && file.IsSameFile(g.loc.file)
      requires Defines(store, f.Place()) && Declares(store, g.Place())
      modifies this`store, file
      ensures Valid() && store == LinkLocal(old(store), f, g)
    {
      assert FileShows(file, file.filepath, store[file.filepath]);
      file.AddLocalCaller(g.sign, f.sign);
      file.AddLocalCallee(f.sign, g.sign);
      Follow(file.filepath);
    }

    /** Both ends of a call from one file to another */
    method JoinExternal(callerFile: File, calleeFile: File, f: Fct, g: Fct, mangled: string)
      requires Valid() && Holds(callerFile) && callerFile.IsSameFile(f.loc.file) && f.loc.file != g.loc.file
      requires Holds(calleeFile) && calleeFile.IsSameFile(g.loc.file)
      requires Defines(store, f.Place()) && Declares(store, g.Place())
      modifies this`store, callerFile, calleeFile
      ensures Valid() && store == LinkExternal(old(store), f, g, mangled)
    {
      assert FileShows(calleeFile, calleeFile.filepath, store[calleeFile.filepath]);
      calleeFile.AddExternalCaller(g.sign, f.mangled, f.sign, f.loc);
      Follow(calleeFile.filepath);
      assert FileShows(callerFile, callerFile.filepath, store[callerFile.filepath]);
      callerFile.AddExternalCallee(f.sign, mangled, g.sign, g.loc);
      Follow(callerFile.filepath);
    }

    /** add_function_call, made while visiting the file `current` */
    method AddFunctionCall(current: File, fc: Call)
      requires Valid() && Holds(current)
      modifies this, Repr
      ensures Valid() && fresh(Repr - old(Repr)) && store == Recorded(old(store), current.filepath, fc)
    {
      hide WithFile, WithDef, WithDecl, LinkLocal, LinkExternal, Defines, Declares, FileShows;
      var f, g := fc.caller, fc.callee;
      if current.IsSameFile(f.loc.file) {
        Define(current, f);
        if current.IsSameFile(g.loc.file) {
          Declare(current, g);
          JoinLocal(current, f, g);
        } else {
          var calleeFile := CreateOrGetFile(g.loc.file);
          Declare(calleeFile, g);
          JoinExternal(current, calleeFile, f, g, g.mangled);
        }
      } else {
        var callerFile := CreateOrGetFile(f.loc.file);
        Define(callerFile, f);
        if current.IsSameFile(g.loc.file) {
          Declare(current, g);
          JoinExternal(callerFile, current, f, g, f.mangled);
        } else {
          var calleeFile := CreateOrGetFile(g.loc.file);
          Declare(calleeFile, g);
          if f.loc.file == g.loc.file {
            JoinLocal(calleeFile, f, g);
          } else {
            JoinExternal(callerFile, calleeFile, f, g, g.mangled);
          }
        }
      }
    }
  }

  /** A whole run from the empty directory: the files hold exactly what the run calls for, and every edge has two ends. */
  method Replay(events: seq<Event>) returns (dir: Dir)
    ensures dir.Valid() && dir.store == Reached(events) && Symmetric(dir.store)
  {
    dir := new Dir();
    for i := 0 to |events|
      invariant dir.Valid() && fresh(dir) && fresh(dir.Repr) && dir.store == Reached(events[..i])
    {
      assert events[..i + 1][..i] == events[..i];
      Next(dir, events[i]);
    }
    assert events[..|events|] == events;
    EdgesAreSymmetric(events);
  }

  method Next(dir: Dir, e: Event)
    requires dir.Valid()
    modifies dir, dir.Repr
    ensures dir.Valid() && fresh(dir.Repr - old(dir.Repr)) && dir.store == Step(old(dir.store), e)
  {
    hide WithDef, WithDecl, Recorded, FileShows;
    match e {
      case Open(path) =>
        var file := dir.CreateOrGetFile(path);
      case Define(f) =>
        var file := dir.CreateOrGetFile(f.loc.file);
        dir.Define(file, f);
      case Declare(f) =>
        var file := dir.CreateOrGetFile(f.loc.file);
        dir.Declare(file, f);
      case Seen(cur, fc) =>
        var file := dir.CreateOrGetFile(cur);
        dir.AddFunctionCall(file, fc);
    }
  }
}
