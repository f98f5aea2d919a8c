/** What the files of CallersData.cpp hold about calls: every edge is written at both of its ends. */
module CallGraph {
  import opened Basics

  type Sign = string

  datatype Location = Location(file: string, begin: int, end: int)

  datatype Fct = Fct(mangled: string, sign: Sign, loc: Location)
  {
    function Place(): Key { Key(loc.file, sign) }
  }

  datatype Call = Call(caller: Fct, callee: Fct)

  /** A function in a file; the sets of a file compare functions by their signature alone. */
  datatype Key = Key(file: string, sign: Sign)

  /** An entry of a set of external functions, which compares them by signature as well */
  datatype Ext = Ext(mangled: string, loc: Location)

  datatype Def = Def(locallees: set<Sign>, extcallees: map<Sign, Ext>)
  datatype Decl = Decl(locallers: set<Sign>, extcallers: map<Sign, Ext>)
  datatype Functions = Functions(defined: map<Sign, Def>, declared: map<Sign, Decl>)

  /** The files by path */
  type Store = map<string, Functions>

  const NO_CALLEES := Def({}, map[])
  const NO_CALLERS := Decl({}, map[])
  const NO_FUNCTIONS := Functions(map[], map[])

  /** std::set::insert: an element that compares equal stays. */
  function Insert(m: map<Sign, Ext>, sign: Sign, e: Ext): map<Sign, Ext> {
    if sign in m then m else m[sign := e]
  }

  predicate Defines(s: Store, k: Key) {
    k.file in s && k.sign in s[k.file].defined
  }

  predicate Declares(s: Store, k: Key) {
    k.file in s && k.sign in s[k.file].declared
  }

  function SetDef(v: Functions, sign: Sign, d: Def): Functions {
    v.(defined := v.defined[sign := d])
  }

  function SetDecl(v: Functions, sign: Sign, d: Decl): Functions {
    v.(declared := v.declared[sign := d])
  }

  /** A function defined in a file, if it was not yet */
  function DefIn(v: Functions, sign: Sign): Functions {
    if sign in v.defined then v else SetDef(v, sign, NO_CALLEES)
  }

  function DeclIn(v: Functions, sign: Sign): Functions {
    if sign in v.declared then v else SetDecl(v, sign, NO_CALLERS)
  }

  /** create_or_get_file */
  function WithFile(s: Store, path: string): (r: Store)
    ensures path in r && forall k :: Defines(s, k) ==> Defines(r, k)
  {
    if path in s then s else s[path := NO_FUNCTIONS]
  }

  function WithDef(s: Store, k: Key): Store
    requires k.file in s
  {
    s[k.file := DefIn(s[k.file], k.sign)]
  }

  function WithDecl(s: Store, k: Key): (r: Store)
    requires k.file in s
    ensures forall k' :: Defines(s, k') ==> Defines(r, k')
  {
    s[k.file := DeclIn(s[k.file], k.sign)]
  }

  /** add_local_callee, which refuses a function that calls itself */
  function AddLocalCallee(d: Def, self: Sign, sign: Sign): Def {
    if self == sign then d else d.(locallees := d.locallees + {sign})
  }

  /** add_local_caller */
  function AddLocalCaller(d: Decl, self: Sign, sign: Sign): Decl {
    if self == sign then d else d.(locallers := d.locallers + {sign})
  }

  function AddExternalCallee(d: Def, sign: Sign, e: Ext): Def {
    d.(extcallees := Insert(d.extcallees, sign, e))
  }

  function AddExternalCaller(d: Decl, sign: Sign, e: Ext): Decl {
    d.(extcallers := Insert(d.extcallers, sign, e))
  }

  function ChangeDef(s: Store, k: Key, d: Def): Store
    requires k.file in s
  {
    s[k.file := SetDef(s[k.file], k.sign, d)]
  }

  function ChangeDecl(s: Store, k: Key, d: Decl): Store
    requires k.file in s
  {
    s[k.file := SetDecl(s[k.file], k.sign, d)]
  }

  function LinkLocal(s: Store, f: Fct, g: Fct): Store
    requires Defines(s, f.Place()) && Declares(s, g.Place())
  {
    var d, c := s[f.loc.file].defined[f.sign], s[g.loc.file].declared[g.sign];
    ChangeDef(ChangeDecl(s, g.Place(), AddLocalCaller(c, g.sign, f.sign)), f.Place(), AddLocalCallee(d, f.sign, g.sign))
  }

  /** add_external_caller and add_external_callee, the latter with the mangled name it is passed */
  function LinkExternal(s: Store, f: Fct, g: Fct, mangled: string): Store
    requires Defines(s, f.Place()) && Declares(s, g.Place())
  {
    var d, c := s[f.loc.file].defined[f.sign], s[g.loc.file].declared[g.sign];
    ChangeDef(ChangeDecl(s, g.Place(), AddExternalCaller(c, f.sign, Ext(f.mangled, f.loc))),
              f.Place(), AddExternalCallee(d, g.sign, Ext(mangled, g.loc)))
  }

  /** add_function_call on the file `cur`: four placements of the caller and the callee */
  function Recorded(s: Store, cur: string, fc: Call): Store
    requires cur in s
  {
    var f, g := fc.caller, fc.callee;
    if cur == f.loc.file then
      var s1 := WithDef(s, f.Place());
      if cur == g.loc.file then LinkLocal(WithDecl(s1, g.Place()), f, g)
      else LinkExternal(WithDecl(WithFile(s1, g.loc.file), g.Place()), f, g, g.mangled)
    else
      var s1 := WithDef(WithFile(s, f.loc.file), f.Place());
      if cur == g.loc.file then LinkExternal(WithDecl(s1, g.Place()), f, g, f.mangled)
      else
        var s2 := WithDecl(WithFile(s1, g.loc.file), g.Place());
        if f.loc.file == g.loc.file then LinkLocal(s2, f, g) else LinkExternal(s2, f, g, g.mangled)
  }

  // ---- reading a store ----

  function Locallees(s: Store, k: Key): set<Sign> {
    if Defines(s, k) then s[k.file].defined[k.sign].locallees else {}
  }

  function Extcallees(s: Store, k: Key): map<Sign, Ext> {
    if Defines(s, k) then s[k.file].defined[k.sign].extcallees else map[]
  }

  function Locallers(s: Store, k: Key): set<Sign> {
    if Declares(s, k) then s[k.file].declared[k.sign].locallers else {}
  }

  function Extcallers(s: Store, k: Key): map<Sign, Ext> {
    if Declares(s, k) then s[k.file].declared[k.sign].extcallers else map[]
  }

  /** The mangled name the callee entry gets: the caller's, if the callee alone is in the current file. */
  function MangledEntry(cur: string, fc: Call): string {
    if cur == fc.callee.loc.file then fc.caller.mangled else fc.callee.mangled
  }

  predicate Local(fc: Call) {
    fc.caller.loc.file == fc.callee.loc.file
  }

  /** The nodes of a call */
  function Prepared(s: Store, fc: Call): (r: Store)
    ensures Defines(r, fc.caller.Place()) && Declares(r, fc.callee.Place())
  {
    WithDecl(WithDef(WithFile(WithFile(s, fc.caller.loc.file), fc.callee.loc.file), fc.caller.Place()), fc.callee.Place())
  }

  lemma WithFileLater(s: Store, p: string, k: Key)
    requires k.file in s
    ensures WithFile(WithDef(s, k), p) == WithDef(WithFile(s, p), k)
  {
  }

  /** All placements do the same, but for the mangled name. */
  lemma RecordedIs(s: Store, cur: string, fc: Call)
    requires cur in s
    ensures Recorded(s, cur, fc) ==
      if Local(fc) then LinkLocal(Prepared(s, fc), fc.caller, fc.callee)
      else LinkExternal(Prepared(s, fc), fc.caller, fc.callee, MangledEntry(cur, fc))
  {
    hide LinkLocal, LinkExternal, WithDef, WithDecl;
    WithFileLater(WithFile(s, fc.caller.loc.file), fc.callee.loc.file, fc.caller.Place());
  }

  /** Equal for the readers */
  ghost predicate Same(s: Store, r: Store, k: Key) {
    && Locallees(r, k) == Locallees(s, k) && Extcallees(r, k) == Extcallees(s, k)
    && Locallers(r, k) == Locallers(s, k) && Extcallers(r, k) == Extcallers(s, k)
  }

  lemma OpenSame(s: Store, p: string, k: Key)
    ensures Same(s, WithFile(s, p), k)
  {
  }

  lemma DefSame(s: Store, d: Key, k: Key)
    requires d.file in s
    ensures Same(s, WithDef(s, d), k)
  {
  }

  lemma DeclSame(s: Store, d: Key, k: Key)
    requires d.file in s
    ensures Same(s, WithDecl(s, d), k)
  {
  }

  lemma PreparedSame(s: Store, fc: Call, k: Key)
    ensures Same(s, Prepared(s, fc), k)
  {
    var s1 := WithFile(s, fc.caller.loc.file);
    var s2 := WithFile(s1, fc.callee.loc.file);
    var s3 := WithDef(s2, fc.caller.Place());
    OpenSame(s, fc.caller.loc.file, k);
    OpenSame(s1, fc.callee.loc.file, k);
    DefSame(s2, fc.caller.Place(), k);
    DeclSame(s3, fc.callee.Place(), k);
    hide Locallees, Locallers, Extcallees, Extcallers;
  }

  /** What a call changes, whatever the placement: one pair of sets */
  ghost predicate Effect(s: Store, r: Store, fc: Call, mangled: string, k: Key) {
    var f, g := fc.caller, fc.callee;
    && Locallees(r, k) == (if k == f.Place() && Local(fc) && f.sign != g.sign then Locallees(s, k) + {g.sign}
                           else Locallees(s, k))
    && Locallers(r, k) == (if k == g.Place() && Local(fc) && f.sign != g.sign then Locallers(s, k) + {f.sign}
                           else Locallers(s, k))
    && Extcallees(r, k) == (if k == f.Place() && !Local(fc)
                            then Insert(Extcallees(s, k), g.sign, Ext(mangled, g.loc)) else Extcallees(s, k))
    && Extcallers(r, k) == (if k == g.Place() && !Local(fc)
                            then Insert(Extcallers(s, k), f.sign, Ext(f.mangled, f.loc)) else Extcallers(s, k))
  }

  lemma LinkLocalEffect(s: Store, fc: Call, k: Key)
    requires Local(fc) && Defines(s, fc.caller.Place()) && Declares(s, fc.callee.Place())
    ensures Effect(s, LinkLocal(s, fc.caller, fc.callee), fc, "", k)
  {
  }

  lemma LinkExternalEffect(s: Store, fc: Call, mangled: string, k: Key)
    requires !Local(fc) && Defines(s, fc.caller.Place()) && Declares(s, fc.callee.Place())
    ensures Effect(s, LinkExternal(s, fc.caller, fc.callee, mangled), fc, mangled, k)
  {
  }

  lemma RecordedEffect(s: Store, cur: string, fc: Call, k: Key)
    requires cur in s
    ensures Effect(s, Recorded(s, cur, fc), fc, MangledEntry(cur, fc), k)
  {
    hide Prepared, Recorded, LinkLocal, LinkExternal;
    RecordedIs(s, cur, fc);
    PreparedSame(s, fc, k);
    var m := Prepared(s, fc);
    if Local(fc) {
      LinkLocalEffect(m, fc, k);
    } else {
      LinkExternalEffect(m, fc, MangledEntry(cur, fc), k);
    }
  }

  // ---- runs ----

  datatype Event =
    | Open(path: string)
    | Define(fct: Fct)
    | Declare(fct: Fct)
    | Seen(cur: string, call: Call)

  function Step(s: Store, e: Event): Store {
    match e
    case Open(path) => WithFile(s, path)
    case Define(f) => WithDef(WithFile(s, f.loc.file), f.Place())
    case Declare(f) => WithDecl(WithFile(s, f.loc.file), f.Place())
    case Seen(cur, fc) => Recorded(WithFile(s, cur), cur, fc)
  }

  function Reached(events: seq<Event>): Store {
    if events == [] then map[] else Step(Reached(events[..|events| - 1]), events[|events| - 1])
  }

  predicate Calls(e: Event, f: Key, g: Key) {
    e.Seen? && e.call.caller.Place() == f && e.call.callee.Place() == g
  }

  /** Somewhere in the run `f` was seen calling `g`. */
  predicate Called(events: seq<Event>, f: Key, g: Key) {
    events != [] && (Calls(events[|events| - 1], f, g) || Called(events[..|events| - 1], f, g))
  }

  /** The edges between `f` and `g`, and the entries that name them, are those of the calls seen. */
  predicate ExactAt(s: Store, events: seq<Event>, f: Key, g: Key) {
    && (g.sign in Locallees(s, f) && f.file == g.file <==> f.file == g.file && f.sign != g.sign && Called(events, f, g))
    && (f.sign in Locallers(s, g) && f.file == g.file <==> f.file == g.file && f.sign != g.sign && Called(events, f, g))
    && (f.file != g.file && Called(events, f, g) ==> g.sign in Extcallees(s, f) && f.sign in Extcallers(s, g))
    && (g.sign in Extcallees(s, f) && Extcallees(s, f)[g.sign].loc.file == g.file ==>
          f.file != g.file && Called(events, f, g))
    && (f.sign in Extcallers(s, g) && Extcallers(s, g)[f.sign].loc.file == f.file ==>
          f.file != g.file && Called(events, f, g))
  }

  lemma StepSame(s: Store, e: Event, k: Key)
    requires !e.Seen?
    ensures Same(s, Step(s, e), k)
  {
    match e {
      case Open(p) =>
        OpenSame(s, p, k);
      case Define(f) =>
        OpenSame(s, f.loc.file, k);
        DefSame(WithFile(s, f.loc.file), f.Place(), k);
      case Declare(f) =>
        OpenSame(s, f.loc.file, k);
        DeclSame(WithFile(s, f.loc.file), f.Place(), k);
    }
    hide Locallees, Locallers, Extcallees, Extcallers;
  }

  lemma SeenEffect(s: Store, cur: string, fc: Call, k: Key)
    ensures Effect(s, Step(s, Seen(cur, fc)), fc, MangledEntry(cur, fc), k)
  {
    hide Recorded, WithFile, Locallees, Locallers, Extcallees, Extcallers;
    OpenSame(s, cur, k);
    RecordedEffect(WithFile(s, cur), cur, fc, k);
  }

  lemma {:induction false} EdgesAreTheCallsAt(events: seq<Event>, f: Key, g: Key)
    ensures ExactAt(Reached(events), events, f, g)
  {
    if events != [] {
      var before, e := events[..|events| - 1], events[|events| - 1];
      EdgesAreTheCallsAt(before, f, g);
      hide Step, Locallees, Locallers, Extcallees, Extcallers;
      if e.Seen? {
        SeenEffect(Reached(before), e.cur, e.call, f);
        SeenEffect(Reached(before), e.cur, e.call, g);
      } else {
        StepSame(Reached(before), e, f);
        StepSame(Reached(before), e, g);
      }
    }
  }

  /** In every reachable store each edge has both of its ends, and no function is its own local callee. */
  ghost predicate Symmetric(s: Store) {
    && (forall p: string, f: Sign, g: Sign ::
          (g in Locallees(s, Key(p, f)) <==> f in Locallers(s, Key(p, g))) && f !in Locallees(s, Key(p, f)))
    && (forall k: Key, g: Sign :: g in Extcallees(s, k) ==>
          var at := Extcallees(s, k)[g].loc.file; at != k.file && k.sign in Extcallers(s, Key(at, g)))
    && (forall k: Key, f: Sign :: f in Extcallers(s, k) ==>
          var at := Extcallers(s, k)[f].loc.file; at != k.file && k.sign in Extcallees(s, Key(at, f)))
  }

  lemma EdgesAreSymmetric(events: seq<Event>)
    ensures Symmetric(Reached(events))
  {
    var s := Reached(events);
    forall p: string, f: Sign, g: Sign
      ensures (g in Locallees(s, Key(p, f)) <==> f in Locallers(s, Key(p, g))) && f !in Locallees(s, Key(p, f))
    {
      EdgesAreTheCallsAt(events, Key(p, f), Key(p, g));
      EdgesAreTheCallsAt(events, Key(p, f), Key(p, f));
    }
    forall k: Key, g: Sign | g in Extcallees(s, k)
      ensures var at := Extcallees(s, k)[g].loc.file; at != k.file && k.sign in Extcallers(s, Key(at, g))
    {
      EdgesAreTheCallsAt(events, k, Key(Extcallees(s, k)[g].loc.file, g));
    }
    forall k: Key, f: Sign | f in Extcallers(s, k)
      ensures var at := Extcallers(s, k)[f].loc.file; at != k.file && k.sign in Extcallees(s, Key(at, f))
    {
      EdgesAreTheCallsAt(events, Key(Extcallers(s, k)[f].loc.file, f), k);
    }
  }

  // ---- which files and functions a run leaves ----

  predicate Mentions(e: Event, path: string) {
    match e
    case Open(p) => p == path
    case Define(f) => f.loc.file == path
    case Declare(f) => f.loc.file == path
    case Seen(cur, fc) => cur == path || fc.caller.loc.file == path || fc.callee.loc.file == path
  }

  predicate MakesDefinition(e: Event, k: Key) {
    (e.Define? && e.fct.Place() == k) || (e.Seen? && e.call.caller.Place() == k)
  }

  predicate MakesDeclaration(e: Event, k: Key) {
    (e.Declare? && e.fct.Place() == k) || (e.Seen? && e.call.callee.Place() == k)
  }

  lemma LinkingKeepsNodes(s: Store, f: Fct, g: Fct, mangled: string, k: Key)
    requires Defines(s, f.Place()) && Declares(s, g.Place())
    ensures var r := LinkLocal(s, f, g);
      (Defines(r, k) <==> Defines(s, k)) && (Declares(r, k) <==> Declares(s, k)) && (k.file in r <==> k.file in s)
    ensures var r := LinkExternal(s, f, g, mangled);
      (Defines(r, k) <==> Defines(s, k)) && (Declares(r, k) <==> Declares(s, k)) && (k.file in r <==> k.file in s)
  {
    hide AddLocalCallee, AddLocalCaller, AddExternalCallee, AddExternalCaller;
  }

  lemma OpenNodes(s: Store, p: string, k: Key)
    ensures var r := WithFile(s, p);
      (Defines(r, k) <==> Defines(s, k)) && (Declares(r, k) <==> Declares(s, k)) && (k.file in r <==> k.file in s || k.file == p)
  {
  }

  lemma DefNodes(s: Store, d: Key, k: Key)
    requires d.file in s
    ensures var r := WithDef(s, d);
      (Defines(r, k) <==> Defines(s, k) || k == d) && (Declares(r, k) <==> Declares(s, k)) && (k.file in r <==> k.file in s)
  {
  }

  lemma DeclNodes(s: Store, d: Key, k: Key)
    requires d.file in s
    ensures var r := WithDecl(s, d);
      (Defines(r, k) <==> Defines(s, k)) && (Declares(r, k) <==> Declares(s, k) || k == d) && (k.file in r <==> k.file in s)
  {
  }

  lemma RecordedNodes(s: Store, cur: string, fc: Call, k: Key)
    requires cur in s
    ensures var r := Recorded(s, cur, fc);
      && (Defines(r, k) <==> Defines(s, k) || k == fc.caller.Place())
      && (Declares(r, k) <==> Declares(s, k) || k == fc.callee.Place())
      && (k.file in r <==> k.file in s || k.file == fc.caller.loc.file || k.file == fc.callee.loc.file)
  {
    var f, g := fc.caller, fc.callee;
    RecordedIs(s, cur, fc);
    var s1 := WithFile(s, f.loc.file);
    var s2 := WithFile(s1, g.loc.file);
    var s3 := WithDef(s2, f.Place());
    OpenNodes(s, f.loc.file, k);
    OpenNodes(s1, g.loc.file, k);
    DefNodes(s2, f.Place(), k);
    DeclNodes(s3, g.Place(), k);
    LinkingKeepsNodes(Prepared(s, fc), f, g, MangledEntry(cur, fc), k);
    hide Recorded, LinkLocal, LinkExternal, WithFile, WithDef, WithDecl, Defines, Declares;
  }

  lemma StepNodes(s: Store, e: Event, k: Key)
    ensures Defines(Step(s, e), k) <==> Defines(s, k) || MakesDefinition(e, k)
    ensures Declares(Step(s, e), k) <==> Declares(s, k) || MakesDeclaration(e, k)
    ensures k.file in Step(s, e) <==> k.file in s || Mentions(e, k.file)
  {
    match e {
      case Open(p) =>
        OpenNodes(s, p, k);
      case Define(f) =>
        OpenNodes(s, f.loc.file, k);
        DefNodes(WithFile(s, f.loc.file), f.Place(), k);
      case Declare(f) =>
        OpenNodes(s, f.loc.file, k);
        DeclNodes(WithFile(s, f.loc.file), f.Place(), k);
      case Seen(cur, fc) =>
        OpenNodes(s, cur, k);
        RecordedNodes(WithFile(s, cur), cur, fc, k);
    }
    hide Recorded, WithFile, WithDef, WithDecl, Defines, Declares;
  }

  /** After any run the files are those mentioned, a file defines the functions defined in it or seen calling from it, and
      declares those declared in it or called in it, and no others. */
  lemma {:induction false} NodesAreThoseMentioned(events: seq<Event>, k: Key)
    ensures Defines(Reached(events), k) <==> exists i :: 0 <= i < |events| && MakesDefinition(events[i], k)
    ensures Declares(Reached(events), k) <==> exists i :: 0 <= i < |events| && MakesDeclaration(events[i], k)
    ensures k.file in Reached(events) <==> exists i :: 0 <= i < |events| && Mentions(events[i], k.file)
  {
    if events != [] {
      var n := |events| - 1;
      NodesAreThoseMentioned(events[..n], k);
      StepNodes(Reached(events[..n]), events[n], k);
      assert forall i :: 0 <= i < n ==> events[..n][i] == events[i];
      assert Reached(events) == Step(Reached(events[..n]), events[n]);
      hide Step, Reached, Defines, Declares, MakesDefinition, MakesDeclaration, Mentions;
    }
  }

  // ---- which call an external entry comes from ----

  predicate CallsOut(e: Event, f: Key, sign: Sign) {
    e.Seen? && !Local(e.call) && e.call.caller.Place() == f && e.call.callee.sign == sign
  }

  predicate CalledIn(e: Event, g: Key, sign: Sign) {
    e.Seen? && !Local(e.call) && e.call.callee.Place() == g && e.call.caller.sign == sign
  }

  /** The first call from `f` to a function of this signature in another file */
  function FirstOut(events: seq<Event>, f: Key, sign: Sign): (k: Option<nat>)
    ensures k.Some? ==> k.value < |events| && CallsOut(events[k.value], f, sign)
    ensures k.Some? ==> forall j :: 0 <= j < k.value ==> !CallsOut(events[j], f, sign)
    ensures k.None? ==> forall j :: 0 <= j < |events| ==> !CallsOut(events[j], f, sign)
  {
    if events == [] then None
    else
      var n := |events| - 1;
      var k := FirstOut(events[..n], f, sign);
      if k.Some? then k else if CallsOut(events[n], f, sign) then Some(n) else None
  }

  /** The first call to `g` from a function of this signature in another file */
  function FirstIn(events: seq<Event>, g: Key, sign: Sign): (k: Option<nat>)
    ensures k.Some? ==> k.value < |events| && CalledIn(events[k.value], g, sign)
    ensures k.Some? ==> forall j :: 0 <= j < k.value ==> !CalledIn(events[j], g, sign)
    ensures k.None? ==> forall j :: 0 <= j < |events| ==> !CalledIn(events[j], g, sign)
  {
    if events == [] then None
    else
      var n := |events| - 1;
      var k := FirstIn(events[..n], g, sign);
      if k.Some? then k else if CalledIn(events[n], g, sign) then Some(n) else None
  }

  function CalleeEntry(e: Event): Ext
    requires e.Seen?
  {
    var f, g := e.call.caller, e.call.callee;
    Ext(if e.cur == g.loc.file then f.mangled else g.mangled, g.loc)
  }

  function CallerEntry(e: Event): Ext
    requires e.Seen?
  {
    Ext(e.call.caller.mangled, e.call.caller.loc)
  }

  /** The external callees of a function are the signatures it was seen calling in other files, each with the entry of
      the first such call. */
  lemma {:induction false} CalleesAreTheFirstCalls(events: seq<Event>, f: Key, sign: Sign)
    ensures var k, m := FirstOut(events, f, sign), Extcallees(Reached(events), f);
      (sign in m <==> k.Some?) && (k.Some? ==> m[sign] == CalleeEntry(events[k.value]))
  {
    if events != [] {
      var before, e := events[..|events| - 1], events[|events| - 1];
      CalleesAreTheFirstCalls(before, f, sign);
      hide Step, Locallees, Locallers, Extcallees, Extcallers;
      if e.Seen? {
        SeenEffect(Reached(before), e.cur, e.call, f);
      } else {
        StepSame(Reached(before), e, f);
      }
    }
  }

  lemma {:induction false} CallersAreTheFirstCalls(events: seq<Event>, g: Key, sign: Sign)
    ensures var k, m := FirstIn(events, g, sign), Extcallers(Reached(events), g);
      (sign in m <==> k.Some?) && (k.Some? ==> m[sign] == CallerEntry(events[k.value]))
  {
    if events != [] {
      var before, e := events[..|events| - 1], events[|events| - 1];
      CallersAreTheFirstCalls(before, g, sign);
      hide Step, Locallees, Locallers, Extcallees, Extcallers;
      if e.Seen? {
        SeenEffect(Reached(before), e.cur, e.call, g);
      } else {
        StepSame(Reached(before), e, g);
      }
    }
  }

  /** A function called in another file has an entry of its own exactly when no function of its signature was called
      before it in a third file. */
  lemma CalleeIsKeptExactlyWhen(events: seq<Event>, f: Key, g: Key)
    requires f.file != g.file && Called(events, f, g)
    ensures var m, k := Extcallees(Reached(events), f), FirstOut(events, f, g.sign);
      k.Some? && g.sign in m && (m[g.sign].loc.file == g.file <==> Calls(events[k.value], f, g))
  {
    CalleesAreTheFirstCalls(events, f, g.sign);
    EdgesAreTheCallsAt(events, f, g);
  }

  // ---- what the sets by signature lose, and what depends on the current file ----

  /** A function that calls two functions of one signature in different files keeps only the first, although both of
      those remember the caller. */
  lemma SecondFileIsDropped(s: Store, cur: string, fc: Call, other: string)
    requires cur in s && !Local(fc) && fc.callee.sign in Extcallees(s, fc.caller.Place())
    requires Extcallees(s, fc.caller.Place())[fc.callee.sign].loc.file == other
    ensures var r := Recorded(s, cur, fc);
      fc.caller.sign in Extcallers(r, fc.callee.Place())
      && (Extcallees(r, fc.caller.Place())[fc.callee.sign].loc.file == fc.callee.loc.file <==> fc.callee.loc.file == other)
  {
    RecordedEffect(s, cur, fc, fc.caller.Place());
    RecordedEffect(s, cur, fc, fc.callee.Place());
  }

  /** Which file is current makes no difference to what is recorded, except that a new entry for the callee gets the
      caller's mangled name when only the callee is in the current file. */
  lemma CurrentFileMattersExactlyWhen(s: Store, cur: string, cur': string, fc: Call)
    requires cur in s && cur' in s
    ensures Recorded(s, cur, fc) == Recorded(s, cur', fc) <==>
      Local(fc) || fc.callee.sign in Extcallees(s, fc.caller.Place())
      || (cur == fc.callee.loc.file <==> cur' == fc.callee.loc.file) || fc.caller.mangled == fc.callee.mangled
  {
    hide Recorded, LinkLocal, Prepared, WithDef, WithDecl;
    var f, g, m := fc.caller, fc.callee, Prepared(s, fc);
    RecordedIs(s, cur, fc);
    RecordedIs(s, cur', fc);
    PreparedSame(s, fc, f.Place());
    if !Local(fc) {
      LinkExternalEffect(m, fc, MangledEntry(cur, fc), f.Place());
      LinkExternalEffect(m, fc, MangledEntry(cur', fc), f.Place());
      if g.sign in Extcallees(s, f.Place()) {
        assert Extcallees(m, f.Place()) == m[f.loc.file].defined[f.sign].extcallees;
        assert Recorded(s, cur, fc) == Recorded(s, cur', fc);
      } else {
        assert Extcallees(Recorded(s, cur, fc), f.Place())[g.sign].mangled == MangledEntry(cur, fc);
        assert Extcallees(Recorded(s, cur', fc), f.Place())[g.sign].mangled == MangledEntry(cur', fc);
      }
    }
  }
}
