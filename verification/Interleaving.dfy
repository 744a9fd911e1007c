/** Any number of modules being loaded and unloaded at the same time: each kernel call
    is one step, and the steps of different modules interleave in any order. */
module Interleaving {
  import opened Registry
  import opened Scripts

  datatype Phase =
    | Idle
    | Loading(pc: nat)
    | Undoing(todo: seq<Kind>)
    | Live
    | Unloading(todo: seq<Kind>)

  datatype Process = Process(phase: Phase, dev: Dev)

  /** Which script each module runs. Lemmas about a configuration switch automatic induction
      off, inductive or not: an induction hypothesis about other maps is of no use to them. */
  type Config = map<ModuleId, Script>

  datatype System = System(reg: set<Entry>, procs: map<ModuleId, Process>)

  /** Module m is scheduled, and the kernel answers o should it ask for something. */
  datatype Event = Event(m: ModuleId, o: Outcome)

  /** One step of one module: a load or unload begins or ends, or one kernel call is made. */
  function Advance(d: Script, m: ModuleId, p: Process, reg: set<Entry>, o: Outcome): (Process, set<Entry>) {
    match p.phase
    case Idle => (p.(phase := Loading(0)), reg)
    case Live => (p.(phase := Unloading(d.exit)), reg)
    case Undoing(todo) =>
      if todo == [] then (p.(phase := Idle), reg)
      else (p.(phase := Undoing(todo[1..])), Release(todo[0], m, p.dev, reg))
    case Unloading(todo) =>
      if todo == [] then (p.(phase := Idle), reg)
      else (p.(phase := Unloading(todo[1..])), Release(todo[0], m, p.dev, reg))
    case Loading(pc) =>
      if pc >= |d.steps| then (p.(phase := Live), reg)
      else
        match Acquire(d.steps[pc].kind, d.fixed, m, p.dev, reg, o)
        case Ok(reg', dev') => (Process(Loading(pc + 1), dev'), reg')
        case Err(_) =>
          if d.steps[pc].checked then (p.(phase := Undoing(d.steps[pc].undo)), reg)
          else (p.(phase := Loading(pc + 1)), reg)
  }

  function Next(cfg: Config, s: System, ev: Event): System
    requires s.procs.Keys == cfg.Keys
  {
    if ev.m !in cfg then s
    else
      var (p, reg) := Advance(cfg[ev.m], ev.m, s.procs[ev.m], s.reg, ev.o);
      System(reg, s.procs[ev.m := p])
  }

  function Run(cfg: Config, s: System, events: seq<Event>): (r: System)
    requires s.procs.Keys == cfg.Keys
    ensures r.procs.Keys == cfg.Keys
  {
    if events == [] then s else Next(cfg, Run(cfg, s, events[..|events| - 1]), events[|events| - 1])
  }

  function Boot(cfg: Config, reg: set<Entry>): System {
    System(reg, map m | m in cfg :: Process(Idle, Dev(0, 0)))
  }

  /** The step takes a failure branch that does not reverse what was acquired. */
  predicate ForgetsAt(d: Script, m: ModuleId, p: Process, reg: set<Entry>, o: Outcome) {
    && p.phase.Loading? && p.phase.pc < |d.steps|
    && d.steps[p.phase.pc].checked && !UndoComplete(d, p.phase.pc)
    && Acquire(d.steps[p.phase.pc].kind, d.fixed, m, p.dev, reg, o).Err?
  }

  predicate Forgets(cfg: Config, s: System, ev: Event)
    requires s.procs.Keys == cfg.Keys
  {
    ev.m in cfg && ForgetsAt(cfg[ev.m], ev.m, s.procs[ev.m], s.reg, ev.o)
  }

  /** The modules that took such a branch somewhere in the run. */
  function Forgetful(cfg: Config, s: System, events: seq<Event>): set<ModuleId>
    requires s.procs.Keys == cfg.Keys
  {
    if events == [] then {}
    else
      var before := events[..|events| - 1];
      Forgetful(cfg, s, before) + Blamed(cfg, Run(cfg, s, before), events[|events| - 1])
  }

  function Blamed(cfg: Config, s: System, ev: Event): set<ModuleId>
    requires s.procs.Keys == cfg.Keys
  {
    if Forgets(cfg, s, ev) then {ev.m} else {}
  }

  // ------------------------------------------------------------ the invariant

  /** What the module still has to give back before it is idle. */
  function Pending(d: Script, phase: Phase): seq<Kind> {
    match phase
    case Idle => []
    case Loading(pc) => if pc <= |d.steps| then Stack(d, pc) else []
    case Undoing(todo) => todo
    case Live => Stack(d, |d.steps|)
    case Unloading(todo) => todo
  }

  /** The kinds of the checked ones among the first n steps. */
  function CheckedKinds(d: Script, n: nat): set<Kind>
    requires n <= |d.steps|
  {
    if n == 0 then {} else CheckedKinds(d, n - 1) + if d.steps[n - 1].checked then {KindAt(d, n - 1)} else {}
  }

  /** Some step for this kind is checked: a module that got past it does hold it. */
  predicate Required(d: Script, k: Kind) {
    k in CheckedKinds(d, |d.steps|)
  }

  /** A list of releases that gives nothing back twice. */
  ghost predicate Tidy(d: Script, ks: seq<Kind>) {
    Lookup !in ks && Distinct(ks) && (Region in ks ==> Required(d, Region))
  }

  /** m holds what is pending, at its own device number, and nothing else but entries of
      a `spare` kind; only what comes from an unchecked step may be missing. */
  ghost predicate Holds(d: Script, m: ModuleId, dev: Dev, ks: seq<Kind>, spare: set<Kind>, reg: set<Entry>) {
    && (forall e <- reg :: e.owner == m ==> KindOf(e) in spare || (KindOf(e) in ks && e == EntryOf(KindOf(e), m, dev)))
    && (forall k <- ks :: k != Lookup && Required(d, k) ==> EntryOf(k, m, dev) in reg)
  }

  ghost predicate Owns(d: Script, m: ModuleId, dev: Dev, ks: seq<Kind>, spare: set<Kind>, reg: set<Entry>) {
    && Tidy(d, ks) && Holds(d, m, dev, ks, spare, reg)
    && (d.fixed != [] && Region in ks ==> dev == d.fixed[0])
  }

  ghost predicate Keeps(d: Script, m: ModuleId, p: Process, spare: set<Kind>, reg: set<Entry>) {
    && (p.phase.Loading? ==> p.phase.pc <= |d.steps|)
    && Owns(d, m, p.dev, Pending(d, p.phase), spare, reg)
  }

  ghost predicate IsStack(d: Script, ks: seq<Kind>) {
    exists n :: 0 <= n <= |d.steps| && ks == Stack(d, n)
  }

  /** A module that never forgot anything holds exactly what is pending, and what is
      pending reverses a prefix of its script. */
  ghost predicate ProcessInv(d: Script, m: ModuleId, p: Process, reg: set<Entry>) {
    Keeps(d, m, p, {}, reg) && IsStack(d, Pending(d, p.phase))
  }

  /** What a failure branch of the script may leave behind. */
  ghost function Forgettable(d: Script): set<Kind> {
    set n, k | 0 <= n < |d.steps| && k in Stack(d, n) && d.steps[n].checked && k !in d.steps[n].undo :: k
  }

  /** The entries that belong to none of the modules. */
  function Foreign(cfg: Config, reg: set<Entry>): set<Entry> {
    set e | e in reg && e.owner !in cfg
  }

  /** The invariant of a system whose modules `forgot` took incomplete failure branches. */
  ghost predicate Inv(cfg: Config, reg0: set<Entry>, forgot: set<ModuleId>, s: System) {
    && s.procs.Keys == cfg.Keys
    && Disjoint(s.reg)
    && Foreign(cfg, s.reg) == reg0
    && forall m <- cfg :: ModuleInv(cfg[m], m, s.procs[m], m in forgot, s.reg)
  }

  ghost predicate ModuleInv(d: Script, m: ModuleId, p: Process, forgot: bool, reg: set<Entry>) {
    if forgot then Keeps(d, m, p, Forgettable(d), reg) else ProcessInv(d, m, p, reg)
  }

  ghost predicate GoodScript(d: Script) {
    WellFormed(d) && d.exit == Stack(d, |d.steps|)
  }

  ghost predicate GoodConfig(cfg: Config) {
    forall m <- cfg :: GoodScript(cfg[m])
  }

  // ------------------------------------------------------------ what is pending, as a list

  lemma {:induction false} CheckedIn(d: Script, n: nat, i: nat)
    requires KindsDistinct(d) && i < |d.steps| && n <= |d.steps|
    ensures KindAt(d, i) in CheckedKinds(d, n) <==> i < n && d.steps[i].checked
  {
    if n > 0 {
      CheckedIn(d, n - 1, i);
      assert i != n - 1 ==> KindAt(d, i) != KindAt(d, n - 1);
    }
  }

  lemma CheckedIsRequired(d: Script, i: nat)
    requires WellFormed(d) && i < |d.steps|
    ensures Required(d, KindAt(d, i)) <==> d.steps[i].checked
  {
    CheckedIn(d, |d.steps|, i);
  }

  lemma TidyTail(d: Script, ks: seq<Kind>)
    requires Tidy(d, ks) && ks != []
    ensures ks[0] !in ks[1..] && Tidy(d, ks[1..])
  {
    assert ks == [ks[0]] + ks[1..];
  }

  lemma StackIsTidy(d: Script, n: nat)
    requires WellFormed(d) && n <= |d.steps|
    ensures Tidy(d, Stack(d, n))
  {
    StackMembers(d, n, Lookup);
    StackMembers(d, n, Region);
    StackDistinct(d, n);
    if Region in Stack(d, n) {
      var i :| 0 <= i < n && KindAt(d, i) == Region;
      CheckedIsRequired(d, i);
    }
  }

  lemma UndoIsTidy(d: Script, n: nat)
    requires WellFormed(d) && n < |d.steps|
    ensures Tidy(d, d.steps[n].undo)
  {
    UndoReleasesRealKinds(d, n);
    StackIsTidy(d, n);
    assert UndoSane(d, n);
  }

  lemma StackTop(d: Script, n: nat, k: Kind)
    requires n < |d.steps| && k == d.steps[n].kind
    ensures Stack(d, n + 1) == if k == Lookup then Stack(d, n) else [k] + Stack(d, n)
  {}

  lemma ConsTail(k: Kind, ks: seq<Kind>)
    ensures ([k] + ks)[1..] == ks
  {}

  lemma {:induction false} StackTail(d: Script, n: nat) returns (shorter: nat)
    requires n <= |d.steps| && Stack(d, n) != []
    ensures shorter < n && Stack(d, n)[1..] == Stack(d, shorter)
  {
    shorter := n - 1;
    var k := d.steps[n - 1].kind;
    StackTop(d, n - 1, k);
    if k == Lookup {
      shorter := StackTail(d, n - 1);
    } else {
      ConsTail(k, Stack(d, n - 1));
    }
  }

  /** A step that forgets nothing leaves a list that reverses a prefix of the script. */
  lemma AdvanceStacks(d: Script, m: ModuleId, p: Process, reg: set<Entry>, o: Outcome)
    requires d.exit == Stack(d, |d.steps|) && (p.phase.Loading? ==> p.phase.pc <= |d.steps|)
    requires IsStack(d, Pending(d, p.phase)) && !ForgetsAt(d, m, p, reg, o)
    ensures IsStack(d, Pending(d, Advance(d, m, p, reg, o).0.phase))
  {
    match p.phase
    case Idle => assert Stack(d, 0) == [];
    case Live =>
    case Undoing(todo) => TailIsStack(d, todo);
    case Unloading(todo) => TailIsStack(d, todo);
    case Loading(pc) =>
      var phase := Advance(d, m, p, reg, o).0.phase;
      if phase.Loading? {
        assert Pending(d, phase) == Stack(d, pc + 1);
      } else {
        assert Pending(d, phase) == Stack(d, pc);
      }
  }

  lemma TailIsStack(d: Script, ks: seq<Kind>)
    requires IsStack(d, ks)
    ensures IsStack(d, if ks == [] then [] else ks[1..])
  {
    var n :| 0 <= n <= |d.steps| && ks == Stack(d, n);
    if ks != [] {
      n := StackTail(d, n);
    } else {
      assert Stack(d, 0) == [];
    }
  }

  // ------------------------------------------------------------ one step of one module

  /** A step of m touched m's entries only. */
  ghost predicate OnlyTouches(m: ModuleId, reg: set<Entry>, reg': set<Entry>) {
    forall e: Entry :: e.owner != m ==> (e in reg <==> e in reg')
  }

  /** A release takes away exactly the module's own entry: in a disjoint registry no other
      region carries the same numbers. */
  lemma ReleaseExact(k: Kind, m: ModuleId, dev: Dev, reg: set<Entry>)
    requires k != Lookup && Disjoint(reg)
    requires k == Region ==> EntryOf(Region, m, dev) in reg
    ensures Release(k, m, dev, reg) == reg - {EntryOf(k, m, dev)}
  {
    if k == Region {
      forall e | e in reg && e.RegionEntry? && e.first == dev && e.count == 1
        ensures e == EntryOf(Region, m, dev)
      {
        assert Overlaps(e.first, e.count, dev, 1);
      }
    }
  }

  lemma RemoveTop(d: Script, m: ModuleId, dev: Dev, ks: seq<Kind>, spare: set<Kind>, reg: set<Entry>)
    requires Lookup !in ks && ks != [] && ks[0] !in ks[1..] && Holds(d, m, dev, ks, spare, reg)
    ensures Holds(d, m, dev, ks[1..], spare, reg - {EntryOf(ks[0], m, dev)})
  {
    var k0, rest := ks[0], ks[1..];
    assert ks == [k0] + rest;
    var reg' := reg - {EntryOf(k0, m, dev)};
    forall e | e in reg' && e.owner == m
      ensures KindOf(e) in spare || (KindOf(e) in rest && e == EntryOf(KindOf(e), m, dev))
    {
      assert e in reg;
    }
    forall k | k in rest && Required(d, k)
      ensures k != Lookup && EntryOf(k, m, dev) in reg'
    {
      assert k in ks && k != k0;
    }
  }

  lemma ReleaseKeeps(d: Script, m: ModuleId, dev: Dev, ks: seq<Kind>, spare: set<Kind>, reg: set<Entry>)
    requires ks != [] && Owns(d, m, dev, ks, spare, reg) && Disjoint(reg)
    ensures var reg' := Release(ks[0], m, dev, reg);
            Owns(d, m, dev, ks[1..], spare, reg') && Disjoint(reg') && OnlyTouches(m, reg, reg')
  {
    TidyTail(d, ks);
    assert ks[0] in ks;
    ReleaseExact(ks[0], m, dev, reg);
    RemoveTop(d, m, dev, ks, spare, reg);
    assert forall k :: k in ks[1..] ==> k in ks;
  }

  lemma AddTop(d: Script, m: ModuleId, dev: Dev, k: Kind, ks: seq<Kind>, spare: set<Kind>, reg: set<Entry>)
    requires k != Lookup && Holds(d, m, dev, ks, spare, reg)
    ensures Holds(d, m, dev, [k] + ks, spare, reg + {EntryOf(k, m, dev)})
  {
    var all, reg' := [k] + ks, reg + {EntryOf(k, m, dev)};
    forall e | e in reg' && e.owner == m
      ensures KindOf(e) in spare || (KindOf(e) in all && e == EntryOf(KindOf(e), m, dev))
    {
      assert e in reg || e == EntryOf(k, m, dev);
    }
    forall h | h in all && h != Lookup && Required(d, h)
      ensures EntryOf(h, m, dev) in reg'
    {
      assert h == k || h in ks;
    }
  }

  /** What is held before the region does not mention a device number. */
  lemma DevUnused(d: Script, m: ModuleId, pc: nat, dev: Dev, dev': Dev, spare: set<Kind>, reg: set<Entry>)
    requires WellFormed(d) && pc < |d.steps| && d.steps[pc].kind == Region
    requires Holds(d, m, dev, Stack(d, pc), spare, reg)
    ensures Holds(d, m, dev', Stack(d, pc), spare, reg)
  {
    forall h | h in Stack(d, pc)
      ensures h != Lookup && EntryOf(h, m, dev) == EntryOf(h, m, dev')
    {
      NoDevBeforeRegion(d, pc, h);
    }
  }

  lemma DisjointAdd(e: Entry, reg: set<Entry>)
    requires Disjoint(reg)
    requires e.RegionEntry? ==> e.count > 0 && RegionFree(reg, e.first, e.count)
    ensures Disjoint(reg + {e})
  {}

  lemma AcquireDisjoint(k: Kind, fixed: seq<Dev>, m: ModuleId, dev: Dev, reg: set<Entry>, o: Outcome)
    requires Disjoint(reg) && Acquire(k, fixed, m, dev, reg, o).Ok?
    ensures var a := Acquire(k, fixed, m, dev, reg, o); Disjoint(a.reg) && OnlyTouches(m, reg, a.reg)
  {
    if k != Lookup {
      DisjointAdd(EntryOf(k, m, Acquire(k, fixed, m, dev, reg, o).dev), reg);
    }
  }

  lemma AcquireHolds(d: Script, m: ModuleId, dev: Dev, pc: nat, spare: set<Kind>, reg: set<Entry>, o: Outcome)
    requires WellFormed(d) && pc < |d.steps| && Holds(d, m, dev, Stack(d, pc), spare, reg)
    requires Acquire(KindAt(d, pc), d.fixed, m, dev, reg, o).Ok?
    ensures var a := Acquire(KindAt(d, pc), d.fixed, m, dev, reg, o); Holds(d, m, a.dev, Stack(d, pc + 1), spare, a.reg)
  {
    var k := KindAt(d, pc);
    var a := Acquire(k, d.fixed, m, dev, reg, o);
    StackTop(d, pc, k);
    if k == Region {
      DevUnused(d, m, pc, dev, a.dev, spare, reg);
    }
    if k != Lookup {
      AddTop(d, m, a.dev, k, Stack(d, pc), spare, reg);
    }
  }

  /** A script with a fixed number has that number from its region step on. */
  lemma FixedStep(d: Script, m: ModuleId, dev: Dev, pc: nat, reg: set<Entry>, o: Outcome)
    requires pc < |d.steps| && Acquire(KindAt(d, pc), d.fixed, m, dev, reg, o).Ok?
    requires d.fixed != [] && Region in Stack(d, pc) ==> dev == d.fixed[0]
    ensures d.fixed != [] && Region in Stack(d, pc + 1) ==> Acquire(KindAt(d, pc), d.fixed, m, dev, reg, o).dev == d.fixed[0]
  {
    StackTop(d, pc, KindAt(d, pc));
  }

  /** After an acquisition that succeeded. */
  lemma AcquireKeeps(d: Script, m: ModuleId, dev: Dev, pc: nat, spare: set<Kind>, reg: set<Entry>, o: Outcome)
    requires WellFormed(d) && pc < |d.steps| && Owns(d, m, dev, Stack(d, pc), spare, reg)
    requires Acquire(KindAt(d, pc), d.fixed, m, dev, reg, o).Ok?
    ensures var a := Acquire(KindAt(d, pc), d.fixed, m, dev, reg, o); Owns(d, m, a.dev, Stack(d, pc + 1), spare, a.reg)
  {
    StackIsTidy(d, pc + 1);
    AcquireHolds(d, m, dev, pc, spare, reg, o);
    FixedStep(d, m, dev, pc, reg, o);
  }

  lemma UncheckedKind(d: Script, pc: nat)
    requires WellFormed(d) && pc < |d.steps| && !d.steps[pc].checked
    ensures KindAt(d, pc) !in {Region, Lookup} && !Required(d, KindAt(d, pc))
  {
    CheckedIsRequired(d, pc);
  }

  lemma SkipTop(d: Script, m: ModuleId, dev: Dev, k: Kind, ks: seq<Kind>, spare: set<Kind>, reg: set<Entry>)
    requires !Required(d, k) && Holds(d, m, dev, ks, spare, reg)
    ensures Holds(d, m, dev, [k] + ks, spare, reg)
  {
    var all := [k] + ks;
    forall e | e in reg && e.owner == m
      ensures KindOf(e) in spare || (KindOf(e) in all && e == EntryOf(KindOf(e), m, dev))
    {
      assert KindOf(e) in ks ==> KindOf(e) in all;
    }
    forall h | h in all && h != Lookup && Required(d, h)
      ensures EntryOf(h, m, dev) in reg
    {
      assert h == k || h in ks;
    }
  }

  lemma SkipHolds(d: Script, m: ModuleId, dev: Dev, pc: nat, spare: set<Kind>, reg: set<Entry>)
    requires WellFormed(d) && pc < |d.steps| && !d.steps[pc].checked && Holds(d, m, dev, Stack(d, pc), spare, reg)
    ensures Holds(d, m, dev, Stack(d, pc + 1), spare, reg)
    ensures Region in Stack(d, pc + 1) ==> Region in Stack(d, pc)
  {
    var k := KindAt(d, pc);
    UncheckedKind(d, pc);
    StackTop(d, pc, k);
    SkipTop(d, m, dev, k, Stack(d, pc), spare, reg);
  }

  /** A step whose acquisition failed unchecked: the kind becomes pending but is not held. */
  lemma SkipKeeps(d: Script, m: ModuleId, dev: Dev, pc: nat, spare: set<Kind>, reg: set<Entry>)
    requires WellFormed(d) && pc < |d.steps| && !d.steps[pc].checked && Owns(d, m, dev, Stack(d, pc), spare, reg)
    ensures Owns(d, m, dev, Stack(d, pc + 1), spare, reg)
  {
    StackIsTidy(d, pc + 1);
    SkipHolds(d, m, dev, pc, spare, reg);
  }

  lemma UndoHolds(d: Script, m: ModuleId, dev: Dev, ks: seq<Kind>, undo: seq<Kind>, spare: set<Kind>, reg: set<Entry>)
    requires Holds(d, m, dev, ks, spare, reg)
    requires (forall k <- undo :: k in ks) && forall k <- ks :: k in undo || k in spare
    ensures Holds(d, m, dev, undo, spare, reg)
  {}

  /** A failure branch begins: what it does not mention becomes spare. */
  lemma UndoKeeps(d: Script, m: ModuleId, dev: Dev, pc: nat, spare: set<Kind>, reg: set<Entry>)
    requires WellFormed(d) && pc < |d.steps| && d.steps[pc].checked && Owns(d, m, dev, Stack(d, pc), spare, reg)
    requires UndoComplete(d, pc) || Forgettable(d) <= spare
    ensures Owns(d, m, dev, d.steps[pc].undo, spare, reg)
  {
    UndoIsTidy(d, pc);
    assert UndoSane(d, pc);
    forall k | k in Stack(d, pc) && k !in d.steps[pc].undo
      ensures k in spare
    {
      assert k in Forgettable(d);
    }
    UndoHolds(d, m, dev, Stack(d, pc), d.steps[pc].undo, spare, reg);
  }

  lemma AdvanceKeeps(d: Script, m: ModuleId, p: Process, spare: set<Kind>, reg: set<Entry>, o: Outcome)
    requires GoodScript(d) && Keeps(d, m, p, spare, reg) && Disjoint(reg)
    requires ForgetsAt(d, m, p, reg, o) ==> Forgettable(d) <= spare
    ensures var (p', reg') := Advance(d, m, p, reg, o);
            Keeps(d, m, p', spare, reg') && Disjoint(reg') && OnlyTouches(m, reg, reg')
  {
    match p.phase
    case Idle => assert Stack(d, 0) == [];
    case Live =>
    case Undoing(todo) => if todo != [] { ReleaseKeeps(d, m, p.dev, todo, spare, reg); }
    case Unloading(todo) => if todo != [] { ReleaseKeeps(d, m, p.dev, todo, spare, reg); }
    case Loading(pc) =>
      LoadingKeeps(d, m, p.dev, pc, spare, reg, o);
      if pc < |d.steps| && Acquire(d.steps[pc].kind, d.fixed, m, p.dev, reg, o).Ok? {
        AcquireDisjoint(d.steps[pc].kind, d.fixed, m, p.dev, reg, o);
      }
  }

  lemma LoadingKeeps(d: Script, m: ModuleId, dev: Dev, pc: nat, spare: set<Kind>, reg: set<Entry>, o: Outcome)
    requires WellFormed(d) && pc <= |d.steps| && Owns(d, m, dev, Stack(d, pc), spare, reg)
    requires ForgetsAt(d, m, Process(Loading(pc), dev), reg, o) ==> Forgettable(d) <= spare
    ensures var (p', reg') := Advance(d, m, Process(Loading(pc), dev), reg, o);
            Keeps(d, m, p', spare, reg')
  {
    if pc < |d.steps| {
      var a := Acquire(d.steps[pc].kind, d.fixed, m, dev, reg, o);
      if a.Ok? {
        AcquireKeeps(d, m, dev, pc, spare, reg, o);
      } else if d.steps[pc].checked {
        UndoKeeps(d, m, dev, pc, spare, reg);
      } else {
        SkipKeeps(d, m, dev, pc, spare, reg);
      }
    }
  }

  // ------------------------------------------------------------ one step of the system

  lemma MoreSpare(d: Script, m: ModuleId, p: Process, spare: set<Kind>, reg: set<Entry>)
    requires Keeps(d, m, p, {}, reg)
    ensures Keeps(d, m, p, spare, reg)
  {}

  /** Steps of one module do not disturb what another one holds. */
  lemma OthersKeep(d: Script, m: ModuleId, m': ModuleId, p: Process, forgot: bool, reg: set<Entry>, reg': set<Entry>)
    requires m != m' && ModuleInv(d, m', p, forgot, reg) && OnlyTouches(m, reg, reg')
    ensures ModuleInv(d, m', p, forgot, reg')
  {}

  /** The stepping module itself; it is forgetful from its first forgetful step on. */
  lemma StepKeeps(d: Script, m: ModuleId, p: Process, forgot: bool, reg: set<Entry>, o: Outcome)
    requires GoodScript(d) && ModuleInv(d, m, p, forgot, reg) && Disjoint(reg)
    ensures var (p', reg') := Advance(d, m, p, reg, o);
            && ModuleInv(d, m, p', forgot || ForgetsAt(d, m, p, reg, o), reg')
            && Disjoint(reg') && OnlyTouches(m, reg, reg')
  {
    if forgot || ForgetsAt(d, m, p, reg, o) {
      if !forgot {
        MoreSpare(d, m, p, Forgettable(d), reg);
      }
      AdvanceKeeps(d, m, p, Forgettable(d), reg, o);
    } else {
      AdvanceKeeps(d, m, p, {}, reg, o);
      AdvanceStacks(d, m, p, reg, o);
    }
  }

  lemma {:induction false} NextKeepsModule(cfg: Config, forgot: set<ModuleId>, s: System, ev: Event, m: ModuleId)
    requires s.procs.Keys == cfg.Keys && ev.m in cfg && m in cfg && m != ev.m
    requires ModuleInv(cfg[m], m, s.procs[m], m in forgot, s.reg)
    requires OnlyTouches(ev.m, s.reg, Next(cfg, s, ev).reg)
    ensures ModuleInv(cfg[m], m, Next(cfg, s, ev).procs[m], m in forgot + Blamed(cfg, s, ev), Next(cfg, s, ev).reg)
  {
    OthersKeep(cfg[m], ev.m, m, s.procs[m], m in forgot, s.reg, Next(cfg, s, ev).reg);
  }

  /** One kernel call of any module. */
  lemma {:induction false} NextKeeps(cfg: Config, reg0: set<Entry>, forgot: set<ModuleId>, s: System, ev: Event)
    requires GoodConfig(cfg) && Inv(cfg, reg0, forgot, s)
    ensures Inv(cfg, reg0, forgot + Blamed(cfg, s, ev), Next(cfg, s, ev))
  {
    if ev.m in cfg {
      StepKeeps(cfg[ev.m], ev.m, s.procs[ev.m], ev.m in forgot, s.reg, ev.o);
      forall m | m in cfg && m != ev.m
        ensures ModuleInv(cfg[m], m, Next(cfg, s, ev).procs[m], m in forgot + Blamed(cfg, s, ev), Next(cfg, s, ev).reg)
      {
        NextKeepsModule(cfg, forgot, s, ev, m);
      }
      assert Foreign(cfg, Next(cfg, s, ev).reg) == Foreign(cfg, s.reg);
    }
  }

  // ------------------------------------------------------------ every run

  /** The registry modules start from: other parts of the kernel may own anything in it. */
  ghost predicate GoodBoot(cfg: Config, reg0: set<Entry>) {
    Disjoint(reg0) && forall e <- reg0 :: e.owner !in cfg
  }

  lemma {:induction false} BootIsGood(cfg: Config, reg0: set<Entry>)
    requires GoodBoot(cfg, reg0)
    ensures Inv(cfg, reg0, {}, Boot(cfg, reg0))
  {
    var s := Boot(cfg, reg0);
    forall m | m in cfg
      ensures ModuleInv(cfg[m], m, s.procs[m], false, reg0)
    {
      assert Stack(cfg[m], 0) == [];
    }
    assert Foreign(cfg, reg0) == reg0;
  }

  /** After every run whatever, forgetful failures included. */
  lemma {:induction false} EveryRunKeeps(cfg: Config, reg0: set<Entry>, events: seq<Event>)
    requires GoodConfig(cfg) && GoodBoot(cfg, reg0)
    ensures var s0 := Boot(cfg, reg0);
            Inv(cfg, reg0, Forgetful(cfg, s0, events), Run(cfg, s0, events))
  {
    if events == [] {
      BootIsGood(cfg, reg0);
    } else {
      var s0, before := Boot(cfg, reg0), events[..|events| - 1];
      EveryRunKeeps(cfg, reg0, before);
      NextKeeps(cfg, reg0, Forgetful(cfg, s0, before), Run(cfg, s0, before), events[|events| - 1]);
    }
  }

  // ------------------------------------------------------------ what the invariant means

  /** Ordering, at every instant of every run: while a module holds what step j acquired it
      also holds what any earlier checked step i did, loading, undoing and unloading alike. */
  lemma HeldInOrder(d: Script, m: ModuleId, p: Process, reg: set<Entry>, i: nat, j: nat, e: Entry)
    requires WellFormed(d) && ProcessInv(d, m, p, reg)
    requires i < j < |d.steps| && d.steps[i].checked && KindAt(d, i) != Lookup
    requires e in reg && e.owner == m && KindOf(e) == KindAt(d, j)
    ensures e == EntryOf(KindAt(d, j), m, p.dev) && EntryOf(KindAt(d, i), m, p.dev) in reg
  {
    var ks := Pending(d, p.phase);
    var n :| 0 <= n <= |d.steps| && ks == Stack(d, n);
    assert KindAt(d, j) in ks && KindAt(d, j) != Lookup;
    StackHas(d, n, j);
    StackHas(d, n, i);
    CheckedIsRequired(d, i);
  }

  lemma PendingIndex(d: Script, p: Process, k: Kind) returns (j: nat)
    requires IsStack(d, Pending(d, p.phase)) && k in Pending(d, p.phase)
    ensures j < |d.steps| && KindAt(d, j) == k
  {
    var n :| 0 <= n <= |d.steps| && Pending(d, p.phase) == Stack(d, n);
    StackMembers(d, n, k);
    j :| 0 <= j < n && KindAt(d, j) == k;
  }

  lemma RegionBefore(d: Script, j: nat) returns (i: nat)
    requires WellFormed(d) && j < |d.steps| && KindAt(d, j) == Cdev
    ensures i < j && KindAt(d, i) == Region && d.steps[i].checked
  {
    StackMembers(d, j, Region);
    i :| 0 <= i < j && KindAt(d, i) == Region;
  }

  /** A cdev of a module that never forgot anything lies inside a region that module holds. */
  lemma CdevInOwnRegion(d: Script, m: ModuleId, p: Process, reg: set<Entry>, e: Entry)
    requires WellFormed(d) && ProcessInv(d, m, p, reg)
    requires e in reg && e.CdevEntry? && e.owner == m
    ensures RegionEntry(m, e.dev, e.count) in reg
  {
    var j := PendingIndex(d, p, Cdev);
    var i := RegionBefore(d, j);
    HeldInOrder(d, m, p, reg, i, j, e);
  }

  /** Once every module is idle again, all that is left besides the registry they started
      from belongs to modules that forgot something, and is of a kind their failure
      branches forget. */
  lemma {:induction false} QuiescentIsInitial(cfg: Config, reg0: set<Entry>, forgot: set<ModuleId>, s: System)
    requires Inv(cfg, reg0, forgot, s) && forall m <- cfg :: s.procs[m].phase == Idle
    ensures reg0 <= s.reg
    ensures forall e <- s.reg - reg0 :: e.owner in cfg && e.owner in forgot && KindOf(e) in Forgettable(cfg[e.owner])
    ensures forgot == {} ==> s.reg == reg0
  {
    forall e | e in s.reg - reg0
      ensures e.owner in cfg && e.owner in forgot && KindOf(e) in Forgettable(cfg[e.owner])
    {
      assert e !in Foreign(cfg, s.reg);
      var m := e.owner;
      assert ModuleInv(cfg[m], m, s.procs[m], m in forgot, s.reg) && s.procs[m].phase == Idle;
    }
    assert reg0 <= s.reg;
  }

  // ------------------------------------------------------------ a module running alone

  lemma {:induction false} RunConcat(cfg: Config, s: System, a: seq<Event>, b: seq<Event>)
    requires s.procs.Keys == cfg.Keys
    ensures Run(cfg, s, a + b) == Run(cfg, Run(cfg, s, a), b)
    ensures Forgetful(cfg, s, a + b) == Forgetful(cfg, s, a) + Forgetful(cfg, Run(cfg, s, a), b)
  {
    if b == [] {
      assert a + b == a;
    } else {
      RunConcat(cfg, s, a, b[..|b| - 1]);
      assert (a + b)[..|a + b| - 1] == a + b[..|b| - 1];
    }
  }

  lemma {:induction false} RunFirst(cfg: Config, s: System, ev: Event, rest: seq<Event>)
    requires s.procs.Keys == cfg.Keys
    ensures Run(cfg, s, [ev] + rest) == Run(cfg, Next(cfg, s, ev), rest)
    ensures Forgetful(cfg, s, [ev] + rest) == Blamed(cfg, s, ev) + Forgetful(cfg, Next(cfg, s, ev), rest)
  {
    RunConcat(cfg, s, [ev], rest);
    assert [ev][..0] == [];
    assert Run(cfg, s, [ev]) == Next(cfg, Run(cfg, s, []), ev);
    assert Forgetful(cfg, s, [ev]) == Forgetful(cfg, s, []) + Blamed(cfg, Run(cfg, s, []), ev);
  }

  function With(s: System, m: ModuleId, p: Process, reg: set<Entry>): System {
    System(reg, s.procs[m := p])
  }

  /** One step of m, and then a run that moves m only. */
  lemma {:induction false} StepThen(cfg: Config, s: System, m: ModuleId, o: Outcome, rest: seq<Event>,
                                    p: Process, reg: set<Entry>)
    requires s.procs.Keys == cfg.Keys && m in cfg
    requires var (p', reg') := Advance(cfg[m], m, s.procs[m], s.reg, o);
             Run(cfg, With(s, m, p', reg'), rest) == With(With(s, m, p', reg'), m, p, reg)
    ensures Run(cfg, s, [Event(m, o)] + rest) == With(s, m, p, reg)
    ensures var (p', reg') := Advance(cfg[m], m, s.procs[m], s.reg, o);
            Forgetful(cfg, s, [Event(m, o)] + rest)
            == (if ForgetsAt(cfg[m], m, s.procs[m], s.reg, o) then {m} else {}) + Forgetful(cfg, With(s, m, p', reg'), rest)
  {
    var (p', reg') := Advance(cfg[m], m, s.procs[m], s.reg, o);
    RunFirst(cfg, s, Event(m, o), rest);
    assert Next(cfg, s, Event(m, o)) == With(s, m, p', reg');
    assert s.procs[m := p'][m := p] == s.procs[m := p];
  }

  lemma {:induction false} DrainAlone(cfg: Config, s: System, m: ModuleId) returns (events: seq<Event>)
    requires s.procs.Keys == cfg.Keys && m in cfg && (s.procs[m].phase.Undoing? || s.procs[m].phase.Unloading?)
    ensures var p := s.procs[m];
            Run(cfg, s, events) == With(s, m, p.(phase := Idle), ReleaseAll(p.phase.todo, m, p.dev, s.reg))
    ensures Forgetful(cfg, s, events) == {}
    decreases |s.procs[m].phase.todo|
  {
    var p := s.procs[m];
    var (p', reg') := Advance(cfg[m], m, p, s.reg, Succeed(0));
    var rest := [];
    if p.phase.todo != [] {
      rest := DrainAlone(cfg, With(s, m, p', reg'), m);
    }
    StepThen(cfg, s, m, Succeed(0), rest, p.(phase := Idle), ReleaseAll(p.phase.todo, m, p.dev, s.reg));
    events := [Event(m, Succeed(0))] + rest;
  }

  /** The load functions, which run without interruption, are schedules of this machine:
      there is a run of m's steps alone that ends where the script's load does, and it is
      forgetful exactly when that load fails at a step whose branch is incomplete. */
  lemma {:induction false} LoadAlone(cfg: Config, s: System, m: ModuleId, o: nat -> Outcome) returns (events: seq<Event>)
    requires s.procs.Keys == cfg.Keys && m in cfg
    requires s.procs[m].phase.Loading? && s.procs[m].phase.pc <= |cfg[m].steps|
    ensures var r := InitFrom(cfg[m], m, s.procs[m].phase.pc, s.procs[m].dev, s.reg, o);
            && Run(cfg, s, events) == With(s, m, Process(if r.Loaded? then Live else Idle, r.dev), r.reg)
            && Forgetful(cfg, s, events) == if r.Failed? && !UndoComplete(cfg[m], r.at) then {m} else {}
    decreases |cfg[m].steps| - s.procs[m].phase.pc
  {
    var d, p := cfg[m], s.procs[m];
    var pc := p.phase.pc;
    var (p', reg') := Advance(d, m, p, s.reg, o(pc));
    var r := InitFrom(d, m, pc, p.dev, s.reg, o);
    var rest := [];
    if pc < |d.steps| {
      Unfold(d, m, pc, p.dev, s.reg, o);
      if p'.phase.Loading? {
        rest := LoadAlone(cfg, With(s, m, p', reg'), m, o);
      } else {
        rest := DrainAlone(cfg, With(s, m, p', reg'), m);
      }
    }
    StepThen(cfg, s, m, o(pc), rest, Process(if r.Loaded? then Live else Idle, r.dev), r.reg);
    events := [Event(m, o(pc))] + rest;
  }

  /** And so are the exit functions. */
  lemma {:induction false} UnloadAlone(cfg: Config, s: System, m: ModuleId) returns (events: seq<Event>)
    requires s.procs.Keys == cfg.Keys && m in cfg && s.procs[m].phase == Live
    ensures var p := s.procs[m];
            Run(cfg, s, events) == With(s, m, p.(phase := Idle), ReleaseAll(cfg[m].exit, m, p.dev, s.reg))
    ensures Forgetful(cfg, s, events) == {}
  {
    var p := s.procs[m];
    var rest := DrainAlone(cfg, With(s, m, p.(phase := Unloading(cfg[m].exit)), s.reg), m);
    StepThen(cfg, s, m, Succeed(0), rest, p.(phase := Idle), ReleaseAll(cfg[m].exit, m, p.dev, s.reg));
    events := [Event(m, Succeed(0))] + rest;
  }

  // ------------------------------------------------------------ all modules at once

  /** The number module m ends up with when the kernel picks picks(m) for it. */
  function NumberOf(cfg: Config, picks: ModuleId -> nat, m: ModuleId): Dev
    requires m in cfg
  {
    Wanted(cfg[m].fixed, picks(m))
  }

  ghost predicate Apart(cfg: Config, picks: ModuleId -> nat, reg0: set<Entry>) {
    && (forall m <- cfg :: RegionFree(reg0, NumberOf(cfg, picks, m), 1))
    && forall a, b :: a in cfg && b in cfg && a != b ==> NumberOf(cfg, picks, a) != NumberOf(cfg, picks, b)
  }

  /** Exactly the modules ms are live, each with its own number; the others are idle. */
  ghost predicate LiveAre(cfg: Config, picks: ModuleId -> nat, reg0: set<Entry>, ms: set<ModuleId>, s: System) {
    && s.procs.Keys == cfg.Keys
    && (forall m <- cfg :: s.procs[m].phase == if m in ms then Live else Idle)
    && (forall e <- s.reg :: e.RegionEntry? ==>
          e in reg0 || (e.owner in cfg && e.owner in ms && e == RegionEntry(e.owner, NumberOf(cfg, picks, e.owner), 1)))
  }

  lemma {:induction false} NumberIsFree(cfg: Config, picks: ModuleId -> nat, reg0: set<Entry>, ms: set<ModuleId>,
                                        s: System, m: ModuleId)
    requires Apart(cfg, picks, reg0) && LiveAre(cfg, picks, reg0, ms, s) && m in cfg && m !in ms
    ensures RegionFree(s.reg, NumberOf(cfg, picks, m), 1)
  {
    var number := NumberOf(cfg, picks, m);
    forall e | e in s.reg && e.RegionEntry?
      ensures !Overlaps(e.first, e.count, number, 1)
    {
      if e !in reg0 {
        assert NumberOf(cfg, picks, e.owner) != number;
      }
    }
  }

  lemma {:induction false} OneMore(cfg: Config, picks: ModuleId -> nat, reg0: set<Entry>, ms: set<ModuleId>,
                                   s: System, m: ModuleId, dev: Dev, reg: set<Entry>)
    requires LiveAre(cfg, picks, reg0, ms, s) && m in cfg && m !in ms
    requires AtMostRegion(m, NumberOf(cfg, picks, m), s.reg, reg)
    ensures LiveAre(cfg, picks, reg0, ms + {m}, With(s, m, Process(Live, dev), reg))
  {}

  lemma {:induction false} LoadOneMore(cfg: Config, picks: ModuleId -> nat, reg0: set<Entry>, ms: set<ModuleId>,
                                       s: System, m: ModuleId)
    returns (events: seq<Event>)
    requires GoodConfig(cfg) && Apart(cfg, picks, reg0) && LiveAre(cfg, picks, reg0, ms, s) && m in cfg && m !in ms
    ensures LiveAre(cfg, picks, reg0, ms + {m}, Run(cfg, s, events)) && Forgetful(cfg, s, events) == {}
  {
    var d, p, o := cfg[m], s.procs[m], (_: nat) => Succeed(picks(m));
    var begun := With(s, m, p.(phase := Loading(0)), s.reg);
    NumberIsFree(cfg, picks, reg0, ms, s, m);
    LoadsWhenFree(d, m, 0, p.dev, s.reg, o, picks(m));
    var r := InitFrom(d, m, 0, p.dev, s.reg, o);
    var rest := LoadAlone(cfg, begun, m, o);
    StepThen(cfg, s, m, Succeed(0), rest, Process(Live, r.dev), r.reg);
    OneMore(cfg, picks, reg0, ms, s, m, r.dev, r.reg);
    events := [Event(m, Succeed(0))] + rest;
  }

  /** If the wanted numbers are free and different, there is a run after which the modules
      ms are live, all at once, and in which no failure branch is taken. */
  lemma {:induction false} AllLoad(cfg: Config, picks: ModuleId -> nat, reg0: set<Entry>, ms: set<ModuleId>)
    returns (events: seq<Event>)
    requires GoodConfig(cfg) && Apart(cfg, picks, reg0) && ms <= cfg.Keys
    ensures LiveAre(cfg, picks, reg0, ms, Run(cfg, Boot(cfg, reg0), events))
    ensures Forgetful(cfg, Boot(cfg, reg0), events) == {}
    decreases ms
  {
    events := [];
    if m :| m in ms {
      var before := AllLoad(cfg, picks, reg0, ms - {m});
      var next := LoadOneMore(cfg, picks, reg0, ms - {m}, Run(cfg, Boot(cfg, reg0), before), m);
      RunConcat(cfg, Boot(cfg, reg0), before, next);
      assert ms - {m} + {m} == ms;
      events := before + next;
    }
  }

  /** A live module holds its region, at the number it insists on if it does, whatever was
      forgotten along the way. */
  lemma LiveHoldsRegion(d: Script, m: ModuleId, p: Process, spare: set<Kind>, reg: set<Entry>)
    requires Keeps(d, m, p, spare, reg) && p.phase == Live && Region in Stack(d, |d.steps|)
    ensures RegionEntry(m, p.dev, 1) in reg && (d.fixed != [] ==> p.dev == d.fixed[0])
  {
    assert EntryOf(Region, m, p.dev) in reg;
  }
}
