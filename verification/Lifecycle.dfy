/**
 Connections, statements and custom functions over whole runs. Handles are pointers, 0 being NULL; a custom function
 holds a global reference from its registration until SQLite destroys it.
 */
module Lifecycle {
  datatype Function = Function(conn: int, name: string, numArgs: int, ref: nat)

  datatype World = World(
    open: set<int>, statements: map<int, int>, functions: seq<Function>, globals: set<nat>, nextRef: nat)

  datatype Op =
    | Open(conn: int)
    | Close(conn: int)
    | Prepare(conn: int, stmt: int)  // stmt is 0 for an error and for empty SQL
    | Finalize(stmt: int)
    | Register(conn: int, name: string, numArgs: int)

  const EMPTY := World({}, map[], [], {}, 0)

  /** The functions SQLite destroys, and those it keeps. */
  function Select(functions: seq<Function>, which: Function -> bool): (r: seq<Function>)
    ensures forall f :: f in r <==> f in functions && which(f)
  {
    if functions == [] then []
    else
      var last := |functions| - 1;
      assert functions == functions[..last] + [functions[last]];
      if which(functions[last]) then Select(functions[..last], which) + [functions[last]]
      else Select(functions[..last], which)
  }

  ghost function Refs(functions: seq<Function>): set<nat> {
    set f | f in functions :: f.ref
  }

  function OfConnection(conn: int): Function -> bool {
    (f: Function) => f.conn == conn
  }

  /** What a registration overloads: same connection, name and number of arguments. */
  function Overloaded(conn: int, name: string, numArgs: int): Function -> bool {
    (f: Function) => f.conn == conn && f.name == name && f.numArgs == numArgs
  }

  function Not(which: Function -> bool): Function -> bool {
    (f: Function) => !which(f)
  }

  ghost function Destroy(w: World, which: Function -> bool): World {
    w.(functions := Select(w.functions, Not(which)), globals := w.globals - Refs(Select(w.functions, which)))
  }

  ghost predicate HasStatements(w: World, conn: int) {
    exists s :: s in w.statements && w.statements[s] == conn
  }

  ghost function Apply(w: World, op: Op): World {
    match op
    case Open(conn) => w.(open := w.open + {conn})
    case Close(conn) =>
      if conn == 0 || HasStatements(w, conn) then w
      else Destroy(w, OfConnection(conn)).(open := w.open - {conn})
    case Prepare(conn, stmt) => if stmt == 0 then w else w.(statements := w.statements[stmt := conn])
    case Finalize(stmt) => w.(statements := w.statements - {stmt})
    case Register(conn, name, numArgs) =>
      var d := Destroy(w, Overloaded(conn, name, numArgs));
      d.(functions := d.functions + [Function(conn, name, numArgs, w.nextRef)],
         globals := d.globals + {w.nextRef}, nextRef := w.nextRef + 1)
  }

  /** Callers pass live handles, and new objects get handles of their own. */
  ghost predicate Enabled(w: World, op: Op) {
    match op
    case Open(conn) => conn != 0 && conn !in w.open
    case Close(conn) => conn == 0 || conn in w.open
    case Prepare(conn, stmt) => conn in w.open && stmt !in w.statements
    case Finalize(stmt) => stmt == 0 || stmt in w.statements
    case Register(conn, _, _) => conn in w.open
  }

  ghost predicate DistinctRefs(functions: seq<Function>) {
    forall i, j :: 0 <= i < j < |functions| ==> functions[i].ref != functions[j].ref
  }

  ghost predicate DistinctSlots(functions: seq<Function>) {
    forall i, j :: 0 <= i < j < |functions| ==>
      !Overloaded(functions[i].conn, functions[i].name, functions[i].numArgs)(functions[j])
  }

  /**
   Statements and functions belong to open connections, no two functions answer to the same call, and the live global
   references are exactly those of the functions still registered, one each.
   */
  ghost predicate Inv(w: World) {
    && 0 !in w.open && 0 !in w.statements
    && (forall s :: s in w.statements ==> w.statements[s] in w.open)
    && (forall f :: f in w.functions ==> f.conn in w.open && f.ref < w.nextRef)
    && DistinctRefs(w.functions) && DistinctSlots(w.functions)
    && w.globals == Refs(w.functions)
  }

  lemma {:induction false} SelectKeepsDistinct(functions: seq<Function>, which: Function -> bool)
    requires DistinctRefs(functions) && DistinctSlots(functions)
    ensures DistinctRefs(Select(functions, which)) && DistinctSlots(Select(functions, which))
  {
    if functions != [] {
      var last := |functions| - 1;
      var init := functions[..last];
      assert DistinctRefs(init) && DistinctSlots(init);
      SelectKeepsDistinct(init, which);
      var kept := Select(init, which);
      forall i | 0 <= i < |kept| ensures exists j :: 0 <= j < last && functions[j] == kept[i] {
        assert kept[i] in kept;
        var j :| 0 <= j < |init| && init[j] == kept[i];
        assert functions[j] == kept[i];
      }
    }
  }

  lemma RefsAreUnique(functions: seq<Function>, f: Function, g: Function)
    requires DistinctRefs(functions) && f in functions && g in functions && f.ref == g.ref
    ensures f == g
  {
  }

  lemma RefsAppend(functions: seq<Function>, f: Function)
    ensures Refs(functions + [f]) == Refs(functions) + {f.ref}
  {
  }

  lemma SelectNext(functions: seq<Function>, i: nat, which: Function -> bool)
    requires i < |functions|
    ensures Select(functions[..i + 1], which) ==
            Select(functions[..i], which) + if which(functions[i]) then [functions[i]] else []
  {
    assert functions[..i + 1][..i] == functions[..i];
  }

  lemma SelectNothing(which: Function -> bool)
    ensures Select([], which) == []
  {
  }

  /** The reference of a function not yet visited has not been deleted. */
  lemma NotYetDeleted(functions: seq<Function>, i: nat, which: Function -> bool)
    requires DistinctRefs(functions) && i < |functions|
    ensures functions[i].ref !in Refs(Select(functions[..i], which))
  {
  }

  lemma DestroyKeepsInv(w: World, which: Function -> bool)
    requires Inv(w)
    ensures Inv(Destroy(w, which))
  {
    SelectKeepsDistinct(w.functions, Not(which));
    var kept, gone := Select(w.functions, Not(which)), Select(w.functions, which);
    forall f, g | f in kept && g in gone ensures f.ref != g.ref {
      if f.ref == g.ref { RefsAreUnique(w.functions, f, g); }
    }
    forall r: nat | r in w.globals - Refs(gone) ensures r in Refs(kept) {
      var f :| f in w.functions && f.ref == r;
      assert f in kept;
    }
  }

  lemma StepKeepsInv(w: World, op: Op)
    requires Inv(w) && Enabled(w, op)
    ensures Inv(Apply(w, op))
  {
    match op
    case Open(_) =>
    case Close(conn) =>
      if conn != 0 && !HasStatements(w, conn) { DestroyKeepsInv(w, OfConnection(conn)); }
    case Prepare(_, _) =>
    case Finalize(_) =>
    case Register(conn, name, numArgs) =>
      DestroyKeepsInv(w, Overloaded(conn, name, numArgs));
      RegisterKeepsInv(Destroy(w, Overloaded(conn, name, numArgs)), conn, name, numArgs);
  }

  lemma RegisterKeepsInv(d: World, conn: int, name: string, numArgs: int)
    requires Inv(d) && conn in d.open && forall f :: f in d.functions ==> !Overloaded(conn, name, numArgs)(f)
    ensures Inv(d.(functions := d.functions + [Function(conn, name, numArgs, d.nextRef)],
                   globals := d.globals + {d.nextRef}, nextRef := d.nextRef + 1))
  {
    var f := Function(conn, name, numArgs, d.nextRef);
    RefsAppend(d.functions, f);
    assert f.ref !in Refs(d.functions);
    forall i | 0 <= i < |d.functions|
      ensures d.functions[i].ref != f.ref && !Overloaded(conn, name, numArgs)(d.functions[i])
      ensures !Overloaded(d.functions[i].conn, d.functions[i].name, d.functions[i].numArgs)(f)
    {
      assert d.functions[i] in d.functions;
    }
    var all := d.functions + [f];
    assert forall i :: 0 <= i < |d.functions| ==> all[i] == d.functions[i];
  }

  // ---------- whole runs ----------

  ghost predicate IsRun(w: World, ops: seq<Op>)
    decreases ops
  {
    ops == [] || (IsRun(w, ops[..|ops| - 1]) && Enabled(After(w, ops[..|ops| - 1]), ops[|ops| - 1]))
  }

  ghost function After(w: World, ops: seq<Op>): World
    decreases ops
  {
    if ops == [] then w else Apply(After(w, ops[..|ops| - 1]), ops[|ops| - 1])
  }

  lemma {:induction false} RunKeepsInv(w: World, ops: seq<Op>)
    requires Inv(w) && IsRun(w, ops)
    ensures Inv(After(w, ops))
    decreases ops
  {
    if ops != [] {
      var before := ops[..|ops| - 1];
      RunKeepsInv(w, before);
      StepKeepsInv(After(w, before), ops[|ops| - 1]);
    }
  }

  lemma SomeMember(functions: seq<Function>)
    ensures functions == [] || exists f :: f in functions
  {
    if functions != [] { assert functions[0] in functions; }
  }

  /** After any run in which every connection has been closed again, nothing is left. */
  lemma NothingLeaks(ops: seq<Op>)
    requires IsRun(EMPTY, ops) && After(EMPTY, ops).open == {}
    ensures After(EMPTY, ops) == EMPTY.(nextRef := After(EMPTY, ops).nextRef)
  {
    RunKeepsInv(EMPTY, ops);
    var w := After(EMPTY, ops);
    assert forall s :: s !in w.statements;
    assert forall f :: f !in w.functions;
    SomeMember(w.functions);
  }

  // ---------- what a run leaves, read from its history ----------

  type Event = seq<Op> -> bool  // of the history up to and including an operation

  ghost predicate Happened(ops: seq<Op>, i: nat, event: Event) {
    i < |ops| && event(ops[..i + 1])
  }

  /** `begins` happened, and `ends` has not happened since. */
  ghost predicate Since(ops: seq<Op>, begins: Event, ends: Event) {
    exists i: nat :: Happened(ops, i, begins) && forall j: nat :: i < j ==> !Happened(ops, j, ends)
  }

  lemma SinceSnoc(ops: seq<Op>, before: seq<Op>, begins: Event, ends: Event)
    requires ops != [] && before == ops[..|ops| - 1]
    ensures Since(ops, begins, ends) <==> begins(ops) || (Since(before, begins, ends) && !ends(ops))
  {
    assert ops[..|before| + 1] == ops;
    assert Happened(ops, |before|, begins) == begins(ops) && Happened(ops, |before|, ends) == ends(ops);
    forall i: nat | i != |before|
      ensures Happened(ops, i, begins) == Happened(before, i, begins)
      ensures Happened(ops, i, ends) == Happened(before, i, ends)
    {
      if i < |before| { assert before[..i + 1] == ops[..i + 1]; }
    }
  }

  function Did(op: Op): Event {
    (ops: seq<Op>) => ops != [] && ops[|ops| - 1] == op
  }

  /** Statement `stmt` of connection `conn` has been prepared and not finalized. */
  ghost predicate IsOutstanding(ops: seq<Op>, conn: int, stmt: int) {
    stmt != 0 && Since(ops, Did(Prepare(conn, stmt)), Did(Finalize(stmt)))
  }

  ghost predicate HasOutstanding(ops: seq<Op>, conn: int) {
    exists stmt :: IsOutstanding(ops, conn, stmt)
  }

  /** A close that succeeds, because no statement of the connection is outstanding. */
  ghost function Closed(conn: int): Event {
    (ops: seq<Op>) => Did(Close(conn))(ops) && !HasOutstanding(ops[..|ops| - 1], conn)
  }

  function Registrations(ops: seq<Op>): nat {
    if ops == [] then 0
    else Registrations(ops[..|ops| - 1]) + if ops[|ops| - 1].Register? then 1 else 0
  }

  /** The registration that made `f`: of its slot, with the reference that was then next. */
  function Registered(f: Function): Event {
    (ops: seq<Op>) => Did(Register(f.conn, f.name, f.numArgs))(ops) && f.ref == Registrations(ops[..|ops| - 1])
  }

  /** The slot of `f` was registered again, or its connection was closed. */
  ghost function Replaced(f: Function): Event {
    (ops: seq<Op>) => Did(Register(f.conn, f.name, f.numArgs))(ops) || Closed(f.conn)(ops)
  }

  /** `f` answers calls of its slot. */
  ghost predicate Answers(ops: seq<Op>, f: Function) {
    Since(ops, Registered(f), Replaced(f))
  }

  lemma {:induction false} NextReference(ops: seq<Op>)
    ensures After(EMPTY, ops).nextRef == Registrations(ops)
    decreases ops
  {
    if ops != [] { NextReference(ops[..|ops| - 1]); }
  }

  /** The statements after a run are those prepared and not finalized since. */
  lemma {:induction false} StatementsOfRun(ops: seq<Op>, conn: int, stmt: int)
    requires IsRun(EMPTY, ops)
    ensures stmt in After(EMPTY, ops).statements && After(EMPTY, ops).statements[stmt] == conn <==>
            IsOutstanding(ops, conn, stmt)
    decreases ops
  {
    RunKeepsInv(EMPTY, ops);
    if ops != [] {
      var before := ops[..|ops| - 1];
      StatementsOfRun(before, conn, stmt);
      SinceSnoc(ops, before, Did(Prepare(conn, stmt)), Did(Finalize(stmt)));
      hide Since, Inv;
    }
  }

  lemma StatementsKeepOpen(ops: seq<Op>, conn: int)
    requires IsRun(EMPTY, ops)
    ensures HasStatements(After(EMPTY, ops), conn) <==> HasOutstanding(ops, conn)
  {
    forall stmt
      ensures stmt in After(EMPTY, ops).statements && After(EMPTY, ops).statements[stmt] == conn <==>
              IsOutstanding(ops, conn, stmt)
    {
      StatementsOfRun(ops, conn, stmt);
    }
  }

  /** A connection goes away only without statements; while it has some, closing changes nothing. */
  lemma CloseOutcome(w: World, conn: int)
    requires Inv(w) && conn in w.open
    ensures conn in Apply(w, Close(conn)).open <==> HasStatements(w, conn)
    ensures HasStatements(w, conn) ==> Apply(w, Close(conn)) == w
    ensures !HasStatements(w, conn) ==>
              forall f :: f in Apply(w, Close(conn)).functions <==> f in w.functions && f.conn != conn
  {
  }

  /** A registered function is the one that answers from then on; all the others stay. */
  lemma RegisterOutcome(w: World, conn: int, name: string, numArgs: int, f: Function)
    requires Inv(w) && conn in w.open
    ensures f in Apply(w, Register(conn, name, numArgs)).functions <==>
            if Overloaded(conn, name, numArgs)(f) then f.ref == w.nextRef else f in w.functions
  {
  }

  lemma LastClosed(ops: seq<Op>, before: seq<Op>, conn: int)
    requires IsRun(EMPTY, ops) && ops != [] && before == ops[..|ops| - 1]
    ensures Closed(conn)(ops) <==> ops[|ops| - 1] == Close(conn) && !HasStatements(After(EMPTY, before), conn)
  {
    hide HasStatements, HasOutstanding;
    StatementsKeepOpen(before, conn);
    assert Closed(conn)(ops) == (Did(Close(conn))(ops) && !HasOutstanding(before, conn));
  }

  /** The connections after a run are those opened and not since closed while without outstanding statements. */
  lemma {:induction false} ConnectionsOfRun(ops: seq<Op>, conn: int)
    requires IsRun(EMPTY, ops)
    ensures conn in After(EMPTY, ops).open <==> Since(ops, Did(Open(conn)), Closed(conn))
    decreases ops
  {
    if ops != [] {
      var before, last := ops[..|ops| - 1], ops[|ops| - 1];
      RunKeepsInv(EMPTY, before);
      ConnectionsOfRun(before, conn);
      LastClosed(ops, before, conn);
      SinceSnoc(ops, before, Did(Open(conn)), Closed(conn));
      if last == Close(conn) && conn != 0 { CloseOutcome(After(EMPTY, before), conn); }
      hide Since, HasStatements, Closed;
    }
  }

  /**
   A slot is answered after a run by the function of its latest registration, unless its connection has been closed
   since.
   */
  lemma {:induction false} FunctionsOfRun(ops: seq<Op>, f: Function)
    requires IsRun(EMPTY, ops)
    ensures f in After(EMPTY, ops).functions <==> Answers(ops, f)
    decreases ops
  {
    if ops != [] {
      var before, last := ops[..|ops| - 1], ops[|ops| - 1];
      var w := After(EMPTY, before);
      RunKeepsInv(EMPTY, before);
      FunctionsOfRun(before, f);
      LastClosed(ops, before, f.conn);
      NextReference(before);
      SinceSnoc(ops, before, Registered(f), Replaced(f));
      if last.Close? && last.conn != 0 { CloseOutcome(w, last.conn); }
      if last.Register? { RegisterOutcome(w, last.conn, last.name, last.numArgs, f); }
      hide Since, HasStatements, Closed;
    }
  }

  /** The live references after a run are those of the functions that answer calls. */
  lemma ReferencesOfRun(ops: seq<Op>, ref: nat)
    requires IsRun(EMPTY, ops)
    ensures ref in After(EMPTY, ops).globals <==> exists f: Function :: f.ref == ref && Answers(ops, f)
  {
    RunKeepsInv(EMPTY, ops);
    forall f ensures f in After(EMPTY, ops).functions <==> Answers(ops, f) {
      FunctionsOfRun(ops, f);
    }
  }

  // ---------- the native functions ----------

  class NativeLayer {
    var open: set<int>
    var statements: map<int, int>
    var functions: seq<Function>
    var globals: set<nat>
    var nextRef: nat

    ghost function Now(): World
      reads this
    {
      World(open, statements, functions, globals, nextRef)
    }

    constructor ()
      ensures Now() == EMPTY && Inv(Now())
    {
      open, statements, functions, globals, nextRef := {}, map[], [], {}, 0;
    }

    method NewGlobalRef() returns (ref: nat)
      modifies this`globals, this`nextRef
      ensures ref == old(nextRef) && nextRef == old(nextRef) + 1 && globals == old(globals) + {ref}
    {
      ref := nextRef;
      globals, nextRef := globals + {ref}, nextRef + 1;
    }

    /** A reference can only be deleted while it is live, hence once. */
    method CustomFunctionDestructor(ref: nat)
      requires ref in globals
      modifies this`globals
      ensures globals == old(globals) - {ref}
    {
      globals := globals - {ref};
    }

    /** SQLite destroying functions, running each one's destructor. */
    method DestroyFunctions(which: Function -> bool)
      requires DistinctRefs(functions) && Refs(functions) <= globals
      modifies this`functions, this`globals
      ensures Now() == Destroy(old(Now()), which)
    {
      hide Select;
      SelectNothing(which);
      SelectNothing(Not(which));
      var kept: seq<Function> := [];
      ghost var before := globals;
      var i := 0;
      while i < |functions|
        invariant i <= |functions| && functions == old(functions)
        invariant kept == Select(functions[..i], Not(which))
        invariant globals == before - Refs(Select(functions[..i], which))
      {
        var f := functions[i];
        SelectNext(functions, i, which);
        SelectNext(functions, i, Not(which));
        NotYetDeleted(functions, i, which);
        RefsAppend(Select(functions[..i], which), f);
        if which(f) {
          assert f in functions;
          CustomFunctionDestructor(f.ref);
        } else {
          kept := kept + [f];
        }
        i := i + 1;
      }
      assert functions[..i] == functions;
      functions := kept;
    }

    method NativeOpen(conn: int)
      requires Inv(Now()) && Enabled(Now(), Open(conn))
      modifies this
      ensures Now() == Apply(old(Now()), Open(conn)) && Inv(Now())
    {
      open := open + {conn};
    }

    /** `sqlite3_close` refuses while statements are outstanding; then an exception is thrown. */
    method NativeClose(conn: int) returns (threw: bool)
      requires Inv(Now()) && Enabled(Now(), Close(conn))
      modifies this
      ensures Now() == Apply(old(Now()), Close(conn)) && Inv(Now())
      ensures threw <==> conn != 0 && HasStatements(old(Now()), conn)
    {
      StepKeepsInv(Now(), Close(conn));
      threw := false;
      if conn != 0 {
        if exists s :: s in statements && statements[s] == conn { return true; }
        DestroyFunctions(OfConnection(conn));
        open := open - {conn};
      }
    }

    method NativePrepareStatement(conn: int, stmt: int)
      requires Inv(Now()) && Enabled(Now(), Prepare(conn, stmt))
      modifies this
      ensures Now() == Apply(old(Now()), Prepare(conn, stmt)) && Inv(Now())
    {
      if stmt != 0 { statements := statements[stmt := conn]; }
    }

    method NativeFinalizeStatement(stmt: int)
      requires Inv(Now()) && Enabled(Now(), Finalize(stmt))
      modifies this
      ensures Now() == Apply(old(Now()), Finalize(stmt)) && Inv(Now())
    {
      statements := statements - {stmt};
    }

    /** The new reference is made first; then SQLite destroys the function it overloads, if any. */
    method NativeRegisterCustomFunction(conn: int, name: string, numArgs: int)
      requires Inv(Now()) && Enabled(Now(), Register(conn, name, numArgs))
      modifies this
      ensures Now() == Apply(old(Now()), Register(conn, name, numArgs)) && Inv(Now())
    {
      StepKeepsInv(Now(), Register(conn, name, numArgs));
      assert nextRef !in Refs(functions);
      assert Refs(Select(functions, Overloaded(conn, name, numArgs))) <= Refs(functions);
      var ref := NewGlobalRef();
      DestroyFunctions(Overloaded(conn, name, numArgs));
      functions := functions + [Function(conn, name, numArgs, ref)];
    }
  }
}
