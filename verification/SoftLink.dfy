/** Lazy soft linking: dlopen and dlsym on first use, both remembered for ever. */
module SoftLink {

  // Pointers and handles are numbers, 0 being NULL.
  type Pointer = nat
  const NULL: Pointer := 0

  datatype Function = Function(dylib: string, symbol: string)

  /** One call of is<dylib><fn>Available(), with what dlopen and dlsym would answer at that moment. */
  datatype Call = Call(fn: Function, dlopen: Pointer, dlsym: Pointer)

  /** The foreign calls that were really made. */
  datatype Event =
    | Opened(dylib: string, result: Pointer)
    | LookedUp(handle: Pointer, fn: Function, result: Pointer)

  /** The static variables: a dylib or function is in its map once `tried` is set. */
  datatype State = State(handles: map<string, Pointer>, pointers: map<Function, Pointer>, log: seq<Event>)

  const START := State(map[], map[], [])

  function Library(s: State, dylib: string, dlopen: Pointer): State {
    if dylib in s.handles then s
    else s.(handles := s.handles[dylib := dlopen], log := s.log + [Opened(dylib, dlopen)])
  }

  function Resolve(s: State, c: Call): (r: State)
    ensures c.fn in r.pointers
  {
    if c.fn in s.pointers then s
    else
      var s1 := Library(s, c.fn.dylib, c.dlopen);
      var h := s1.handles[c.fn.dylib];
      if h != NULL
      then s1.(pointers := s1.pointers[c.fn := c.dlsym], log := s1.log + [LookedUp(h, c.fn, c.dlsym)])
      else s1.(pointers := s1.pointers[c.fn := NULL])
  }

  function Run(calls: seq<Call>): State {
    if calls == [] then START else Resolve(Run(calls[..|calls| - 1]), calls[|calls| - 1])
  }

  class Linker {
    var handles: map<string, Pointer>
    var pointers: map<Function, Pointer>
    ghost var log: seq<Event>
    ghost var history: seq<Call>

    ghost function View(): State
      reads this
    {
      State(handles, pointers, log)
    }

    ghost predicate Valid()
      reads this
    {
      View() == Run(history)
    }

    constructor ()
      ensures Valid() && history == []
    {
      handles, pointers, log, history := map[], map[], [], [];
    }

    method LibraryHandle(dylib: string, dlopen: Pointer) returns (h: Pointer)
      modifies this
      ensures View() == Library(old(View()), dylib, dlopen) && history == old(history)
      ensures dylib in handles && h == handles[dylib]
    {
      if dylib !in handles {
        handles := handles[dylib := dlopen];
        log := log + [Opened(dylib, dlopen)];
      }
      h := handles[dylib];
    }

    /** True exactly when the first open of the dylib and the first lookup of the symbol succeeded. */
    method Available(c: Call) returns (r: bool)
      requires Valid()
      modifies this
      ensures Valid() && history == old(history) + [c]
      ensures r <==> Target(history, c.fn) != NULL
    {
      if c.fn !in pointers {
        var h := LibraryHandle(c.fn.dylib, c.dlopen);
        pointers := pointers[c.fn := NULL];
        if h != NULL {
          pointers := pointers[c.fn := c.dlsym];
          log := log + [LookedUp(h, c.fn, c.dlsym)];
        }
      }
      r := pointers[c.fn] != NULL;
      assert (history + [c])[..|history|] == history;
      history := history + [c];
      StateOfRun(history, c.fn);
    }

    /** The alias calls through the pointer; the caller must have seen the predicate hold. */
    method Alias(fn: Function) returns (target: Pointer)
      requires Valid() && fn in pointers && pointers[fn] != NULL
      ensures target != NULL && target == Target(history, fn)
    {
      target := pointers[fn];
      StateOfRun(history, fn);
    }
  }

  // ----- What a run amounts to -----

  /** What dlopen answered to the first call that needed the dylib. */
  function FirstOpen(calls: seq<Call>, dylib: string): Pointer {
    if calls == [] then NULL
    else if UsesDylib(calls[..|calls| - 1], dylib) then FirstOpen(calls[..|calls| - 1], dylib)
    else if calls[|calls| - 1].fn.dylib == dylib then calls[|calls| - 1].dlopen
    else NULL
  }

  predicate UsesDylib(calls: seq<Call>, dylib: string) {
    calls != [] && (UsesDylib(calls[..|calls| - 1], dylib) || calls[|calls| - 1].fn.dylib == dylib)
  }

  predicate UsesFunction(calls: seq<Call>, fn: Function) {
    calls != [] && (UsesFunction(calls[..|calls| - 1], fn) || calls[|calls| - 1].fn == fn)
  }

  /** What dlsym had to answer to the first call for fn. */
  function FirstLookup(calls: seq<Call>, fn: Function): Pointer {
    if calls == [] then NULL
    else if UsesFunction(calls[..|calls| - 1], fn) then FirstLookup(calls[..|calls| - 1], fn)
    else if calls[|calls| - 1].fn == fn then calls[|calls| - 1].dlsym
    else NULL
  }

  /** Where calls of the alias go. */
  function Target(calls: seq<Call>, fn: Function): Pointer {
    if UsesFunction(calls, fn) && FirstOpen(calls, fn.dylib) != NULL then FirstLookup(calls, fn) else NULL
  }

  function Opens(log: seq<Event>, dylib: string): nat {
    if log == [] then 0
    else Opens(log[..|log| - 1], dylib)
         + (if log[|log| - 1].Opened? && log[|log| - 1].dylib == dylib then 1 else 0)
  }

  function Lookups(log: seq<Event>, fn: Function): nat {
    if log == [] then 0
    else Lookups(log[..|log| - 1], fn)
         + (if log[|log| - 1].LookedUp? && log[|log| - 1].fn == fn then 1 else 0)
  }

  lemma {:induction false} UsesFunctionUsesDylib(calls: seq<Call>, fn: Function)
    requires UsesFunction(calls, fn)
    ensures UsesDylib(calls, fn.dylib)
  {
    if calls[|calls| - 1].fn != fn {
      UsesFunctionUsesDylib(calls[..|calls| - 1], fn);
    }
  }

  lemma {:induction false} HandleOfRun(calls: seq<Call>, dylib: string)
    ensures var s := Run(calls);
            && (dylib in s.handles <==> UsesDylib(calls, dylib))
            && (dylib in s.handles ==> s.handles[dylib] == FirstOpen(calls, dylib))
            && (forall fn :: fn in s.pointers ==> fn.dylib in s.handles)
  {
    if calls != [] {
      HandleOfRun(calls[..|calls| - 1], dylib);
    }
  }

  /** The statics after any run, read off the run: each function is remembered iff it was asked for,
      and holds what the first open and the first lookup gave. */
  lemma {:induction false} StateOfRun(calls: seq<Call>, fn: Function)
    ensures var s := Run(calls);
            && (fn in s.pointers <==> UsesFunction(calls, fn))
            && (fn in s.pointers ==> s.pointers[fn] == Target(calls, fn))
  {
    if calls != [] {
      var before, c := calls[..|calls| - 1], calls[|calls| - 1];
      StateOfRun(before, fn);
      HandleOfRun(before, c.fn.dylib);
      HandleOfRun(calls, c.fn.dylib);
      if UsesFunction(before, fn) {
        UsesFunctionUsesDylib(before, fn);
      }
    }
  }

  /** Each dylib is opened exactly once if ever needed; each symbol is looked up exactly once if ever
      asked for in a dylib that opened, and never in one that did not. */
  lemma {:induction false} ForeignCalls(calls: seq<Call>, fn: Function)
    ensures var log := Run(calls).log;
            && Opens(log, fn.dylib) == (if UsesDylib(calls, fn.dylib) then 1 else 0)
            && Lookups(log, fn) == (if UsesFunction(calls, fn) && FirstOpen(calls, fn.dylib) != NULL then 1 else 0)
  {
    if calls != [] {
      var before, c := calls[..|calls| - 1], calls[|calls| - 1];
      ForeignCalls(before, fn);
      HandleOfRun(before, fn.dylib);
      HandleOfRun(before, c.fn.dylib);
      StateOfRun(before, fn);
      StateOfRun(before, c.fn);
      if UsesFunction(before, fn) {
        UsesFunctionUsesDylib(before, fn);
      }
      LogOfResolve(Run(before), c, fn);
    }
  }

  lemma {:induction false} LogAppend(log: seq<Event>, e: Event, fn: Function)
    ensures Opens(log + [e], fn.dylib) == Opens(log, fn.dylib) + (if e.Opened? && e.dylib == fn.dylib then 1 else 0)
    ensures Lookups(log + [e], fn) == Lookups(log, fn) + (if e.LookedUp? && e.fn == fn then 1 else 0)
  {
  }

  lemma {:induction false} LogOfResolve(s: State, c: Call, fn: Function)
    ensures var r := Resolve(s, c);
            var fresh' := c.fn !in s.pointers;
            && Opens(r.log, fn.dylib) == Opens(s.log, fn.dylib) +
               (if fresh' && c.fn.dylib == fn.dylib && fn.dylib !in s.handles then 1 else 0)
            && Lookups(r.log, fn) == Lookups(s.log, fn) +
               (if fresh' && c.fn == fn && Library(s, fn.dylib, c.dlopen).handles[fn.dylib] != NULL then 1 else 0)
  {
    if c.fn !in s.pointers {
      var s1 := Library(s, c.fn.dylib, c.dlopen);
      LogAppend(s.log, Opened(c.fn.dylib, c.dlopen), fn);
      LogAppend(s1.log, LookedUp(s1.handles[c.fn.dylib], c.fn, c.dlsym), fn);
    }
  }

  /** Every foreign call of a run: an open yields the handle that is kept for the dylib, and a lookup is
      made with the handle kept for the function's own dylib, never a null one, and yields the target. */
  lemma {:induction false} LookupsHaveHandles(calls: seq<Call>, i: nat)
    requires i < |Run(calls).log|
    ensures match Run(calls).log[i]
            case Opened(dylib, result) => UsesDylib(calls, dylib) && result == FirstOpen(calls, dylib)
            case LookedUp(handle, fn, result) =>
              && UsesFunction(calls, fn)
              && handle == FirstOpen(calls, fn.dylib) != NULL
              && result == FirstLookup(calls, fn) == Target(calls, fn)
  {
    var before, c := calls[..|calls| - 1], calls[|calls| - 1];
    HandleOfRun(before, c.fn.dylib);
    StateOfRun(before, c.fn);
    if i < |Run(before).log| {
      LookupsHaveHandles(before, i);
      if Run(before).log[i].LookedUp? {
        UsesFunctionUsesDylib(before, Run(before).log[i].fn);
      }
    }
  }

  /** Once asked, the target never changes, whatever is called next and whatever the system answers:
      the predicate's answer is stable, and a pointer seen to be good stays good. */
  lemma {:induction false} TargetStable(calls: seq<Call>, more: seq<Call>, fn: Function)
    requires UsesFunction(calls, fn)
    ensures UsesFunction(calls + more, fn) && Target(calls + more, fn) == Target(calls, fn)
    ensures fn in Run(calls).pointers && fn in Run(calls + more).pointers
    ensures Run(calls + more).pointers[fn] == Run(calls).pointers[fn]
    decreases |more|
  {
    if more == [] {
      assert calls + more == calls;
    } else {
      var all := calls + more;
      assert all[..|all| - 1] == calls + more[..|more| - 1];
      TargetStable(calls, more[..|more| - 1], fn);
      UsesFunctionUsesDylib(all[..|all| - 1], fn);
    }
    StateOfRun(calls + more, fn);
    StateOfRun(calls, fn);
  }
}
