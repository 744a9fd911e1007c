/** The seven drivers together: any number of modules, each running one of them. */
module Fleet {
  import opened Registry
  import opened Scripts
  import opened Drivers
  import opened Interleaving

  ghost predicate IsFleet(cfg: Config) {
    forall m <- cfg :: IsDriver(cfg[m])
  }

  lemma {:induction false} FleetIsGood(cfg: Config)
    requires IsFleet(cfg)
    ensures GoodConfig(cfg)
  {
    forall m | m in cfg
      ensures GoodScript(cfg[m])
    {
      DriverShape(cfg[m]);
    }
  }

  /** The only steps that forget something are the last two of etx, when refused. */
  lemma OnlyEtxForgets(d: Script, m: ModuleId, p: Process, reg: set<Entry>, o: Outcome)
    requires IsDriver(d)
    ensures ForgetsAt(d, m, p, reg, o)
       <==> d == EtxScript() && p.phase in {Loading(2), Loading(3)} && o.Fail?
  {
    DriverShape(d);
    EtxShape();
  }

  lemma ForgettableInDriver(d: Script)
    requires IsDriver(d)
    ensures Forgettable(d) == if d == EtxScript() then {Cdev} else {}
  {
    DriverShape(d);
    if d == EtxScript() {
      EtxStacks();
      assert Cdev in Stack(d, 2) && Cdev !in d.steps[2].undo && d.steps[2].checked;
    } else {
      forall n | 0 <= n < |d.steps|
        ensures d.steps[n].undo == Stack(d, n)
      {
        assert UndoComplete(d, n);
      }
    }
  }

  // ------------------------------------------------------------ every run

  /** Where a run of the modules takes them, and which of them forgot something on the way. */
  function After(cfg: Config, reg0: set<Entry>, events: seq<Event>): (s: System)
    ensures s.procs.Keys == cfg.Keys
  {
    Run(cfg, Boot(cfg, reg0), events)
  }

  function Forgot(cfg: Config, reg0: set<Entry>, events: seq<Event>): set<ModuleId> {
    Forgetful(cfg, Boot(cfg, reg0), events)
  }

  lemma {:induction false} ForgetfulAreEtx(cfg: Config, reg0: set<Entry>, events: seq<Event>, m: ModuleId)
    requires IsFleet(cfg) && m in Forgot(cfg, reg0, events)
    ensures m in cfg && cfg[m] == EtxScript()
  {
    var before := events[..|events| - 1];
    if m in Forgot(cfg, reg0, before) {
      ForgetfulAreEtx(cfg, reg0, before, m);
    } else {
      var s, ev := After(cfg, reg0, before), events[|events| - 1];
      OnlyEtxForgets(cfg[m], m, s.procs[m], s.reg, ev.o);
    }
  }

  /** At every instant of every interleaving of loads, unloads and failures: no two regions
      overlap and what belongs to others is untouched; every cdev of a module that took
      neither incomplete etx branch lies in a region that module holds; and as soon as all
      modules are idle the registry is the one they started from, except for cdevs of etx
      modules that did take such a branch. */
  lemma {:induction false} FleetIsSafe(cfg: Config, reg0: set<Entry>, events: seq<Event>)
    requires IsFleet(cfg) && GoodBoot(cfg, reg0)
    ensures var s, forgot := After(cfg, reg0, events), Forgot(cfg, reg0, events);
            && Disjoint(s.reg) && (forall e: Entry :: e.owner !in cfg ==> (e in s.reg <==> e in reg0))
            && (forall m <- forgot :: m in cfg && cfg[m] == EtxScript())
            && (forall e <- s.reg :: e.CdevEntry? && e.owner in cfg && e.owner !in forgot
                  ==> RegionEntry(e.owner, e.dev, e.count) in s.reg)
            && ((forall m <- cfg :: s.procs[m].phase == Idle)
                  ==> reg0 <= s.reg && forall e <- s.reg - reg0 :: e.CdevEntry? && e.owner in forgot)
  {
    var s, forgot := After(cfg, reg0, events), Forgot(cfg, reg0, events);
    FleetIsGood(cfg);
    EveryRunKeeps(cfg, reg0, events);
    assert forall e: Entry :: e.owner !in cfg ==> (e in s.reg <==> e in Foreign(cfg, s.reg));
    forall m | m in forgot
      ensures m in cfg && cfg[m] == EtxScript()
    {
      ForgetfulAreEtx(cfg, reg0, events, m);
    }
    forall e | e in s.reg && e.CdevEntry? && e.owner in cfg && e.owner !in forgot
      ensures RegionEntry(e.owner, e.dev, e.count) in s.reg
    {
      ModuleAfter(cfg, reg0, events, e.owner);
      CdevInOwnRegion(cfg[e.owner], e.owner, s.procs[e.owner], s.reg, e);
    }
    if forall m <- cfg :: s.procs[m].phase == Idle {
      Leftovers(cfg, reg0, events);
    }
  }

  /** In numbers: if no device number stood in two ranges at the start, then at every instant
      of every run none does. */
  lemma {:induction false} NumberHeldOnce(cfg: Config, reg0: set<Entry>, events: seq<Event>, a: Entry, b: Entry,
                                          major: nat, minor: nat)
    requires IsFleet(cfg) && forall e <- reg0 :: e.owner !in cfg && (e.RegionEntry? ==> e.count > 0)
    requires forall c, d :: c in reg0 && d in reg0 && c.RegionEntry? && d.RegionEntry? && c != d
               && c.first.major == d.first.major
               ==> c.first.minor + c.count <= d.first.minor || d.first.minor + d.count <= c.first.minor
    requires a in After(cfg, reg0, events).reg && b in After(cfg, reg0, events).reg && a.RegionEntry? && b.RegionEntry?
    requires a.first.major == major && a.first.minor <= minor < a.first.minor + a.count
    requires b.first.major == major && b.first.minor <= minor < b.first.minor + b.count
    ensures a == b
  {
    DisjointRanges(reg0);
    FleetIsSafe(cfg, reg0, events);
    DisjointRanges(After(cfg, reg0, events).reg);
  }

  lemma {:induction false} Leftovers(cfg: Config, reg0: set<Entry>, events: seq<Event>)
    requires IsFleet(cfg) && GoodBoot(cfg, reg0)
    requires var s := After(cfg, reg0, events); forall m <- cfg :: s.procs[m].phase == Idle
    ensures var s := After(cfg, reg0, events);
            reg0 <= s.reg && forall e <- s.reg - reg0 :: e.CdevEntry? && e.owner in Forgot(cfg, reg0, events)
  {
    var s, forgot := After(cfg, reg0, events), Forgot(cfg, reg0, events);
    FleetIsGood(cfg);
    EveryRunKeeps(cfg, reg0, events);
    QuiescentIsInitial(cfg, reg0, forgot, s);
    forall e | e in s.reg - reg0
      ensures e.CdevEntry? && e.owner in forgot
    {
      ForgettableInDriver(cfg[e.owner]);
    }
  }

  lemma {:induction false} ModuleAfter(cfg: Config, reg0: set<Entry>, events: seq<Event>, m: ModuleId)
    requires IsFleet(cfg) && GoodBoot(cfg, reg0) && m in cfg
    ensures var s := After(cfg, reg0, events);
            && GoodScript(cfg[m]) && Disjoint(s.reg) && Foreign(cfg, s.reg) == reg0
            && ModuleInv(cfg[m], m, s.procs[m], m in Forgot(cfg, reg0, events), s.reg)
  {
    FleetIsGood(cfg);
    EveryRunKeeps(cfg, reg0, events);
  }

  /** etx, unless it forgot something: at every instant a node implies the class and the
      cdev, and a cdev its region. */
  lemma {:induction false} EtxOrder(cfg: Config, reg0: set<Entry>, events: seq<Event>, m: ModuleId, e: Entry)
    requires IsFleet(cfg) && GoodBoot(cfg, reg0) && m in cfg && cfg[m] == EtxScript() && m !in Forgot(cfg, reg0, events)
    requires e in After(cfg, reg0, events).reg && e.owner == m
    ensures var reg := After(cfg, reg0, events).reg;
            && (e.NodeEntry? ==> ClassEntry(m) in reg && CdevEntry(m, e.dev, 1) in reg)
            && (e.CdevEntry? ==> RegionEntry(m, e.dev, 1) in reg)
  {
    ModuleAfter(cfg, reg0, events, m);
    var s := After(cfg, reg0, events);
    EtxHeldInOrder(m, s.procs[m], s.reg, e);
  }

  /** What an etx module may still have to give back, the incomplete branches included. */
  predicate EtxPending(ks: seq<Kind>) {
    ks in {[], [Region], [Cdev, Region], [Class, Cdev, Region], [Node, Class, Cdev, Region], [Class, Region]}
  }

  lemma EtxPendingTail(ks: seq<Kind>)
    requires EtxPending(ks) && ks != []
    ensures EtxPending(ks[1..])
  {
    assert [Region][1..] == [] && [Cdev, Region][1..] == [Region] && [Class, Region][1..] == [Region];
    assert [Class, Cdev, Region][1..] == [Cdev, Region] && [Node, Class, Cdev, Region][1..] == [Class, Cdev, Region];
  }

  lemma EtxPendingAdvances(m: ModuleId, p: Process, reg: set<Entry>, o: Outcome)
    requires EtxPending(Pending(EtxScript(), p.phase)) && (p.phase.Loading? ==> p.phase.pc <= 4)
    ensures var q := Advance(EtxScript(), m, p, reg, o).0;
            EtxPending(Pending(EtxScript(), q.phase)) && (q.phase.Loading? ==> q.phase.pc <= 4)
  {
    EtxStacks();
    match p.phase
    case Idle =>
    case Live =>
    case Loading(pc) =>
      if pc < 4 {
        EtxBranch(pc);
      }
    case Undoing(todo) => if todo != [] { EtxPendingTail(todo); }
    case Unloading(todo) => if todo != [] { EtxPendingTail(todo); }
  }

  lemma EtxBranch(pc: nat)
    requires pc < 4
    ensures EtxPending(EtxScript().steps[pc].undo) && EtxPending(Stack(EtxScript(), pc + 1))
  {
    EtxStacks();
  }

  lemma {:induction false} EtxPendingEver(cfg: Config, reg0: set<Entry>, events: seq<Event>, m: ModuleId)
    requires m in cfg && cfg[m] == EtxScript()
    ensures var phase := After(cfg, reg0, events).procs[m].phase;
            EtxPending(Pending(EtxScript(), phase)) && (phase.Loading? ==> phase.pc <= 4)
  {
    if events != [] {
      var before, ev := events[..|events| - 1], events[|events| - 1];
      EtxPendingEver(cfg, reg0, before, m);
      if ev.m == m {
        var s := After(cfg, reg0, before);
        EtxPendingAdvances(m, s.procs[m], s.reg, ev.o);
      }
    }
  }

  /** Even an etx module that forgot cdevs gives the rest back in the right order: at every
      instant of every run its node implies its class, and its class a region. */
  lemma {:induction false} EtxClassOrder(cfg: Config, reg0: set<Entry>, events: seq<Event>, m: ModuleId)
    requires IsFleet(cfg) && GoodBoot(cfg, reg0) && m in cfg && cfg[m] == EtxScript()
    ensures var s := After(cfg, reg0, events);
            && (forall dev :: NodeEntry(m, dev) in s.reg ==> ClassEntry(m) in s.reg)
            && (ClassEntry(m) in s.reg ==> RegionEntry(m, s.procs[m].dev, 1) in s.reg)
  {
    EtxPendingEver(cfg, reg0, events, m);
    ModuleAfter(cfg, reg0, events, m);
    var s := After(cfg, reg0, events);
    ForgettableInDriver(cfg[m]);
    EtxClassHeld(m, s.procs[m], if m in Forgot(cfg, reg0, events) then {Cdev} else {}, s.reg);
  }

  lemma EtxClassHeld(m: ModuleId, p: Process, spare: set<Kind>, reg: set<Entry>)
    requires WellFormed(EtxScript()) && spare <= {Cdev} && Keeps(EtxScript(), m, p, spare, reg)
    requires EtxPending(Pending(EtxScript(), p.phase))
    ensures forall dev :: NodeEntry(m, dev) in reg ==> ClassEntry(m) in reg
    ensures ClassEntry(m) in reg ==> RegionEntry(m, p.dev, 1) in reg
  {
    var d := EtxScript();
    assert KindAt(d, 0) == Region && KindAt(d, 2) == Class;
    CheckedIsRequired(d, 0);
    CheckedIsRequired(d, 2);
    PendingIsHeld(d, m, p, spare, reg, Class);
    PendingIsHeld(d, m, p, spare, reg, Region);
    var ks := Pending(d, p.phase);
    assert (Node in ks ==> Class in ks) && (Class in ks ==> Region in ks);
  }

  lemma PendingIsHeld(d: Script, m: ModuleId, p: Process, spare: set<Kind>, reg: set<Entry>, k: Kind)
    requires Keeps(d, m, p, spare, reg) && k != Lookup && Required(d, k)
    ensures k in Pending(d, p.phase) ==> EntryOf(k, m, p.dev) in reg
  {}

  lemma EtxHeldInOrder(m: ModuleId, p: Process, reg: set<Entry>, e: Entry)
    requires WellFormed(EtxScript()) && ProcessInv(EtxScript(), m, p, reg) && e in reg && e.owner == m
    ensures e.NodeEntry? ==> ClassEntry(m) in reg && CdevEntry(m, e.dev, 1) in reg
    ensures e.CdevEntry? ==> RegionEntry(m, e.dev, 1) in reg
  {
    var d := EtxScript();
    assert KindAt(d, 0) == Region && KindAt(d, 1) == Cdev && KindAt(d, 2) == Class && KindAt(d, 3) == Node;
    if e.NodeEntry? {
      HeldInOrder(d, m, p, reg, 2, 3, e);
      HeldInOrder(d, m, p, reg, 1, 3, e);
    }
    if e.CdevEntry? {
      HeldInOrder(d, m, p, reg, 0, 1, e);
    }
  }

  /** esp32 goes the other way round: a cdev implies the node, the class and the region. */
  lemma {:induction false} Esp32Order(cfg: Config, reg0: set<Entry>, events: seq<Event>, m: ModuleId, e: Entry)
    requires IsFleet(cfg) && GoodBoot(cfg, reg0) && m in cfg && cfg[m] == Esp32Script()
    requires e in After(cfg, reg0, events).reg && e.owner == m && e.CdevEntry?
    ensures var reg := After(cfg, reg0, events).reg;
            NodeEntry(m, e.dev) in reg && ClassEntry(m) in reg && RegionEntry(m, e.dev, 1) in reg
  {
    ModuleAfter(cfg, reg0, events, m);
    if m in Forgot(cfg, reg0, events) {
      ForgetfulAreEtx(cfg, reg0, events, m);
      assert false;
    }
    var s := After(cfg, reg0, events);
    Esp32HeldInOrder(m, s.procs[m], s.reg, e);
  }

  lemma Esp32HeldInOrder(m: ModuleId, p: Process, reg: set<Entry>, e: Entry)
    requires WellFormed(Esp32Script()) && ProcessInv(Esp32Script(), m, p, reg) && e in reg && e.owner == m && e.CdevEntry?
    ensures NodeEntry(m, e.dev) in reg && ClassEntry(m) in reg && RegionEntry(m, e.dev, 1) in reg
  {
    Esp32Earlier(m, p, reg, e, 0);
    Esp32Earlier(m, p, reg, e, 1);
    Esp32Earlier(m, p, reg, e, 2);
  }

  lemma Esp32Earlier(m: ModuleId, p: Process, reg: set<Entry>, e: Entry, i: nat)
    requires WellFormed(Esp32Script()) && ProcessInv(Esp32Script(), m, p, reg) && e in reg && e.owner == m && e.CdevEntry?
    requires i < 3
    ensures EntryOf([Region, Class, Node][i], m, e.dev) in reg
  {
    var d := Esp32Script();
    assert KindAt(d, 0) == Region && KindAt(d, 1) == Class && KindAt(d, 2) == Node && KindAt(d, 3) == Cdev;
    HeldInOrder(d, m, p, reg, i, 3, e);
  }

  // ------------------------------------------------------------ coexistence

  /** The number a driver insists on, if it does. */
  predicate Fixes(d: Script, number: Dev) {
    d.fixed == [number]
  }

  lemma {:induction false} LiveRegion(cfg: Config, reg0: set<Entry>, events: seq<Event>, m: ModuleId)
    requires IsFleet(cfg) && GoodBoot(cfg, reg0) && m in cfg && After(cfg, reg0, events).procs[m].phase == Live
    ensures var s := After(cfg, reg0, events);
            && RegionEntry(m, s.procs[m].dev, 1) in s.reg
            && (forall number :: Fixes(cfg[m], number) ==> s.procs[m].dev == number)
  {
    ModuleAfter(cfg, reg0, events, m);
    var s := After(cfg, reg0, events);
    var spare := if m in Forgot(cfg, reg0, events) then Forgettable(cfg[m]) else {};
    LiveHoldsRegion(cfg[m], m, s.procs[m], spare, s.reg);
  }

  /** While a CAN, Wi-Fi or Bluetooth module is live it holds its fixed number, and nobody
      else's region, dynamically allocated ones included, overlaps that number. */
  lemma {:induction false} FixedMajorIsExclusive(cfg: Config, reg0: set<Entry>, events: seq<Event>, m: ModuleId, major: nat,
                                                 e: Entry)
    requires IsFleet(cfg) && GoodBoot(cfg, reg0) && m in cfg && cfg[m] == FixedScript(major)
    requires After(cfg, reg0, events).procs[m].phase == Live
    requires e in After(cfg, reg0, events).reg && e.RegionEntry? && e.owner != m
    ensures RegionEntry(m, Dev(major, 0), 1) in After(cfg, reg0, events).reg
    ensures e.first.major == major ==> !(e.first.minor <= 0 < e.first.minor + e.count)
  {
    LiveRegion(cfg, reg0, events, m);
    assert Fixes(cfg[m], Dev(major, 0));
    ModuleAfter(cfg, reg0, events, m);
  }

  /** No two modules insist on the same number, and nobody else's region has one of them. */
  ghost predicate NumbersApart(cfg: Config, reg0: set<Entry>) {
    && (forall m, number :: m in cfg && Fixes(cfg[m], number) ==> RegionFree(reg0, number, 1))
    && forall a, b, number :: a in cfg && b in cfg && a != b && Fixes(cfg[a], number) ==> !Fixes(cfg[b], number)
  }

  ghost predicate AllLive(cfg: Config, reg0: set<Entry>, events: seq<Event>) {
    forall m <- cfg :: After(cfg, reg0, events).procs[m].phase == Live
  }

  lemma {:induction false} MajorBound(reg: set<Entry>) returns (bound: nat)
    ensures bound > 252 && forall e <- reg :: e.RegionEntry? ==> e.first.major < bound
    decreases reg
  {
    bound := 253;
    if e :| e in reg {
      bound := MajorBound(reg - {e});
      if e.RegionEntry? && e.first.major >= bound {
        bound := e.first.major + 1;
      }
    }
  }

  lemma {:induction false} PicksApart(cfg: Config, reg0: set<Entry>, bound: nat)
    requires IsFleet(cfg) && NumbersApart(cfg, reg0)
    requires bound > 252 && forall e <- reg0 :: e.RegionEntry? ==> e.first.major < bound
    ensures Apart(cfg, (m: ModuleId) => bound + m, reg0)
  {
    var picks := (m: ModuleId) => bound + m;
    forall m | m in cfg
      ensures if cfg[m].fixed == [] then NumberOf(cfg, picks, m) == Dev(bound + m, 0)
              else Fixes(cfg[m], NumberOf(cfg, picks, m)) && NumberOf(cfg, picks, m).major < bound
    {
      assert IsDriver(cfg[m]);
    }
  }

  /** A whole fleet can be live at once if and only if its fixed numbers are apart; and
      then there is a run to that state in which nobody forgets anything. */
  lemma {:induction false} FleetCoexists(cfg: Config, reg0: set<Entry>)
    requires IsFleet(cfg) && GoodBoot(cfg, reg0)
    ensures (exists events :: AllLive(cfg, reg0, events)) <==> NumbersApart(cfg, reg0)
    ensures NumbersApart(cfg, reg0) ==> exists events :: AllLive(cfg, reg0, events) && Forgot(cfg, reg0, events) == {}
  {
    if NumbersApart(cfg, reg0) {
      FleetIsGood(cfg);
      var bound := MajorBound(reg0);
      PicksApart(cfg, reg0, bound);
      var events := AllLoad(cfg, (m: ModuleId) => bound + m, reg0, cfg.Keys);
      assert AllLive(cfg, reg0, events) && Forgot(cfg, reg0, events) == {};
    }
    if events :| AllLive(cfg, reg0, events) {
      LiveMeansApart(cfg, reg0, events);
    }
  }

  lemma {:induction false} LiveMeansApart(cfg: Config, reg0: set<Entry>, events: seq<Event>)
    requires IsFleet(cfg) && GoodBoot(cfg, reg0) && AllLive(cfg, reg0, events)
    ensures NumbersApart(cfg, reg0)
  {
    var reg := After(cfg, reg0, events).reg;
    forall m, number | m in cfg && Fixes(cfg[m], number)
      ensures RegionEntry(m, number, 1) in reg && Disjoint(reg) && Foreign(cfg, reg) == reg0
    {
      LiveRegion(cfg, reg0, events, m);
      ModuleAfter(cfg, reg0, events, m);
    }
    forall m, number | m in cfg && Fixes(cfg[m], number)
      ensures RegionFree(reg0, number, 1)
    {
      assert RegionEntry(m, number, 1) in reg;
      assert forall e <- reg0 :: e in reg && e != RegionEntry(m, number, 1);
    }
    forall a, b, number | a in cfg && b in cfg && a != b && Fixes(cfg[a], number)
      ensures !Fixes(cfg[b], number)
    {
      if Fixes(cfg[b], number) {
        assert Overlaps(number, 1, number, 1);
        assert false;
      }
    }
  }

  function Seven(): Config {
    map[0 := EtxScript(), 1 := Esp32Script(), 2 := I2cScript(), 3 := SpiScript(),
        4 := FixedScript(CAN_MAJOR), 5 := FixedScript(WIFI_MAJOR), 6 := FixedScript(BLUETOOTH_MAJOR)]
  }

  lemma SevenApart()
    ensures IsFleet(Seven()) && NumbersApart(Seven(), {})
  {
    var cfg := Seven();
    forall a, b, number | a in cfg && b in cfg && a != b && Fixes(cfg[a], number)
      ensures !Fixes(cfg[b], number)
    {
      assert a in {4, 5, 6};
      assert b in {4, 5, 6} ==> cfg[a].fixed[0].major == 246 + a && cfg[b].fixed[0].major == 246 + b;
    }
  }

  lemma SevenHold(events: seq<Event>, m: ModuleId)
    requires AllLive(Seven(), {}, events) && 4 <= m <= 6
    ensures RegionEntry(m, Dev(246 + m, 0), 1) in After(Seven(), {}, events).reg
  {
    SevenApart();
    LiveRegion(Seven(), {}, events, m);
    assert Fixes(Seven()[m], Dev(246 + m, 0));
  }

  /** In particular the seven drivers can all be live together, and whenever they are, CAN,
      Wi-Fi and Bluetooth hold the numbers 250:0, 251:0 and 252:0. */
  lemma SevenTogether()
    ensures exists events :: AllLive(Seven(), {}, events) && Forgot(Seven(), {}, events) == {}
    ensures forall events :: AllLive(Seven(), {}, events) ==>
      && RegionEntry(4, Dev(250, 0), 1) in After(Seven(), {}, events).reg
      && RegionEntry(5, Dev(251, 0), 1) in After(Seven(), {}, events).reg
      && RegionEntry(6, Dev(252, 0), 1) in After(Seven(), {}, events).reg
  {
    SevenApart();
    FleetCoexists(Seven(), {});
    forall events | AllLive(Seven(), {}, events)
      ensures RegionEntry(4, Dev(250, 0), 1) in After(Seven(), {}, events).reg
      ensures RegionEntry(5, Dev(251, 0), 1) in After(Seven(), {}, events).reg
      ensures RegionEntry(6, Dev(252, 0), 1) in After(Seven(), {}, events).reg
    {
      SevenHold(events, 4);
      SevenHold(events, 5);
      SevenHold(events, 6);
    }
  }

  // ------------------------------------------------------------ what the two branches cost

  /** The run avoided above: module 0 (etx) gets its region and cdev, is refused its class
      and gives only the region back. */
  function LeakRun(o: Errno): seq<Event> {
    [Event(0, Succeed(7)), Event(0, Succeed(7)), Event(0, Succeed(7)), Event(0, Fail(o)),
     Event(0, Succeed(7)), Event(0, Succeed(7))]
  }

  /** One step of module m, spelled out. */
  lemma {:induction false} Steps(cfg: Config, s: System, m: ModuleId, o: Outcome, p: Process, reg: set<Entry>)
    requires s.procs.Keys == cfg.Keys && m in cfg
    requires Advance(cfg[m], m, s.procs[m], s.reg, o).0 == p && Advance(cfg[m], m, s.procs[m], s.reg, o).1 == reg
    ensures Next(cfg, s, Event(m, o)) == With(s, m, p, reg)
  {}

  lemma {:induction false} LeakRunEnds(cfg: Config, o: Errno)
    requires cfg.Keys == {0, 1} && cfg[0] == EtxScript()
    ensures var s := Run(cfg, Boot(cfg, {}), LeakRun(o));
            s == With(Boot(cfg, {}), 0, Process(Idle, Dev(7, 0)), {CdevEntry(0, Dev(7, 0), 1)})
  {
    var s0 := Boot(cfg, {});
    var ok, no := Event(0, Succeed(7)), Event(0, Fail(o));
    var dev := Dev(7, 0);
    var region, cdev := RegionEntry(0, dev, 1), CdevEntry(0, dev, 1);
    var s1 := With(s0, 0, Process(Loading(0), Dev(0, 0)), {});
    Steps(cfg, s0, 0, ok.o, s1.procs[0], s1.reg);
    var s2 := With(s1, 0, Process(Loading(1), dev), {region});
    Steps(cfg, s1, 0, ok.o, s2.procs[0], s2.reg);
    var s3 := With(s2, 0, Process(Loading(2), dev), {region, cdev});
    Steps(cfg, s2, 0, ok.o, s3.procs[0], s3.reg);
    var s4 := With(s3, 0, Process(Undoing([Region]), dev), {region, cdev});
    Steps(cfg, s3, 0, no.o, s4.procs[0], s4.reg);
    var s5 := With(s4, 0, Process(Undoing([]), dev), {cdev});
    assert [Region][1..] == [] && Release(Region, 0, dev, s4.reg) == {cdev};
    Steps(cfg, s4, 0, ok.o, s5.procs[0], s5.reg);
    var s6 := With(s5, 0, Process(Idle, dev), {cdev});
    Steps(cfg, s5, 0, ok.o, s6.procs[0], s6.reg);
    SixSteps(cfg, s0, ok, ok, ok, no, ok, ok);
  }

  /** After it etx is idle, yet its cdev is mapped; and when module 1 (esp32) then asks for
      a number it may get the same one, so that a region has a stranger's cdev in it. */
  lemma {:induction false} LeakedCdevMeetsStranger(cfg: Config, o: Errno)
    requires cfg.Keys == {0, 1} && cfg[0] == EtxScript() && cfg[1] == Esp32Script()
    ensures var s := Run(cfg, Boot(cfg, {}), LeakRun(o));
            var t := Next(cfg, Next(cfg, s, Event(1, Succeed(7))), Event(1, Succeed(7)));
            && s.procs[0].phase == Idle && s.reg == {CdevEntry(0, Dev(7, 0), 1)}
            && t.reg == {CdevEntry(0, Dev(7, 0), 1), RegionEntry(1, Dev(7, 0), 1)}
  {
    var dev, cdev := Dev(7, 0), CdevEntry(0, Dev(7, 0), 1);
    LeakRunEnds(cfg, o);
    var s := With(Boot(cfg, {}), 0, Process(Idle, dev), {cdev});
    var begun := With(s, 1, Process(Loading(0), Dev(0, 0)), {cdev});
    Steps(cfg, s, 1, Succeed(7), begun.procs[1], begun.reg);
    Steps(cfg, begun, 1, Succeed(7), Process(Loading(1), dev), {cdev, RegionEntry(1, dev, 1)});
  }

  lemma {:induction false} SixSteps(cfg: Config, s: System, a: Event, b: Event, c: Event, d: Event, e: Event, f: Event)
    requires s.procs.Keys == cfg.Keys
    ensures Run(cfg, s, [a, b, c, d, e, f])
         == Next(cfg, Next(cfg, Next(cfg, Next(cfg, Next(cfg, Next(cfg, s, a), b), c), d), e), f)
  {
    assert [a, b, c, d, e, f][..5] == [a, b, c, d, e] && [a, b, c, d, e][..4] == [a, b, c, d];
    assert [a, b, c, d][..3] == [a, b, c] && [a, b, c][..2] == [a, b] && [a, b][..1] == [a] && [a][..0] == [];
    assert Run(cfg, s, [a]) == Next(cfg, s, a);
    assert Run(cfg, s, [a, b]) == Next(cfg, Next(cfg, s, a), b);
    assert Run(cfg, s, [a, b, c]) == Next(cfg, Run(cfg, s, [a, b]), c);
    assert Run(cfg, s, [a, b, c, d]) == Next(cfg, Run(cfg, s, [a, b, c]), d);
    assert Run(cfg, s, [a, b, c, d, e]) == Next(cfg, Run(cfg, s, [a, b, c, d]), e);
  }
}
