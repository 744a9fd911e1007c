/** The seven character drivers: their load and unload functions as written, and the
    scripts they are instances of. */
module Drivers {
  import opened Registry
  import opened Scripts

  // ------------------------------------------------------------ scripts

  /** Ioctl_kernel_device_driver.c. The failure branches of `cdev_add` and `class_create`
      share one label, and neither later branch deletes the cdev. */
  function EtxScript(): Script {
    Script([],
           [Step(Region, true, [], [-1]), Step(Cdev, true, [Region], [-1]),
            Step(Class, true, [Region], [-1]), Step(Node, true, [Class, Region], [-1])],
           [Node, Class, Cdev, Region])
  }

  /** MyWi-fiDriver.c. */
  function Esp32Script(): Script {
    Script([],
           [Step(Region, true, [], []), Step(Class, true, [Region], []),
            Step(Node, true, [Class, Region], []), Step(Cdev, true, [Node, Class, Region], [])],
           [Cdev, Node, Class, Region])
  }

  /** I2c_driver_test.c. The result of `device_create` is ignored. */
  function I2cScript(): Script {
    Script([],
           [Step(BusDriver, true, [], []), Step(Region, true, [BusDriver], []),
            Step(Class, true, [Region, BusDriver], []), Step(Node, false, [Class, Region, BusDriver], [])],
           [Node, Class, Region, BusDriver])
  }

  /** CharSpiKS.c. `cdev_del` unmaps the cdev and drops the object `cdev_alloc` made. */
  function SpiScript(): Script {
    Script([],
           [Step(Region, true, [], []), Step(Lookup, true, [Region], [EOPNOTSUPP]),
            Step(CdevObject, true, [Region], [ENOMEM]), Step(Cdev, true, [CdevObject, Region], [])],
           [Cdev, CdevObject, Region])
  }

  /** MyCanDriver.c, Wi-fi_device_driver.c and MyBlutooth_Device_Driver.c, majors 250 to 252. */
  function FixedScript(major: nat): Script {
    Script([Dev(major, 0)],
           [Step(Region, true, [], []), Step(Cdev, true, [Region], [])],
           [Cdev, Region])
  }

  const CAN_MAJOR := 250
  const WIFI_MAJOR := 251
  const BLUETOOTH_MAJOR := 252

  lemma StackStep(d: Script, n: nat)
    requires n < |d.steps|
    ensures Stack(d, n + 1) == if d.steps[n].kind == Lookup then Stack(d, n) else [d.steps[n].kind] + Stack(d, n)
  {}

  lemma Esp32Stacks()
    ensures var d := Esp32Script();
            && Stack(d, 0) == [] && Stack(d, 1) == [Region] && Stack(d, 2) == [Class, Region]
            && Stack(d, 3) == [Node, Class, Region] && Stack(d, 4) == d.exit
  {
    var d := Esp32Script();
    StackStep(d, 0);
    StackStep(d, 1);
    StackStep(d, 2);
    StackStep(d, 3);
  }

  lemma Esp32Shape()
    ensures WellFormed(Esp32Script()) && Complete(Esp32Script())
  {
    Esp32Stacks();
    CompleteIsSane(Esp32Script());
  }

  lemma I2cStacks()
    ensures var d := I2cScript();
            && Stack(d, 0) == [] && Stack(d, 1) == [BusDriver] && Stack(d, 2) == [Region, BusDriver]
            && Stack(d, 3) == [Class, Region, BusDriver] && Stack(d, 4) == d.exit
  {
    var d := I2cScript();
    StackStep(d, 0);
    StackStep(d, 1);
    StackStep(d, 2);
    StackStep(d, 3);
  }

  lemma I2cShape()
    ensures WellFormed(I2cScript()) && Complete(I2cScript())
  {
    I2cStacks();
    CompleteIsSane(I2cScript());
  }

  lemma SpiStacks()
    ensures var d := SpiScript();
            && Stack(d, 0) == [] && Stack(d, 1) == [Region] && Stack(d, 2) == [Region]
            && Stack(d, 3) == [CdevObject, Region] && Stack(d, 4) == d.exit
  {
    var d := SpiScript();
    StackStep(d, 0);
    StackStep(d, 1);
    StackStep(d, 2);
    StackStep(d, 3);
  }

  lemma SpiShape()
    ensures WellFormed(SpiScript()) && Complete(SpiScript())
  {
    SpiStacks();
    CompleteIsSane(SpiScript());
  }

  lemma FixedShape(major: nat)
    ensures WellFormed(FixedScript(major)) && Complete(FixedScript(major))
  {
    var d := FixedScript(major);
    StackStep(d, 0);
    StackStep(d, 1);
    assert Stack(d, 1) == [Region];
    CompleteIsSane(d);
  }

  lemma EtxStacks()
    ensures var d := EtxScript();
            && Stack(d, 0) == [] && Stack(d, 1) == [Region] && Stack(d, 2) == [Cdev, Region]
            && Stack(d, 3) == [Class, Cdev, Region] && Stack(d, 4) == d.exit
  {
    var d := EtxScript();
    StackStep(d, 0);
    StackStep(d, 1);
    StackStep(d, 2);
    StackStep(d, 3);
  }

  lemma EtxUndos(n: nat)
    requires n < 4
    ensures UndoSane(EtxScript(), n)
  {
    EtxStacks();
    assert [Region][1..] == [] && [Class, Region][1..] == [Region];
  }

  /** The exit of etx is complete; of its failure branches only the first two are. */
  lemma EtxShape()
    ensures var d := EtxScript();
            && WellFormed(d) && d.exit == Stack(d, 4)
            && UndoComplete(d, 0) && UndoComplete(d, 1) && !UndoComplete(d, 2) && !UndoComplete(d, 3)
  {
    var d := EtxScript();
    forall n | 0 <= n < |d.steps|
      ensures UndoSane(d, n)
    {
      EtxUndos(n);
    }
    EtxStacks();
  }

  /** The seven drivers. */
  predicate IsDriver(d: Script) {
    d in {EtxScript(), Esp32Script(), I2cScript(), SpiScript(),
          FixedScript(CAN_MAJOR), FixedScript(WIFI_MAJOR), FixedScript(BLUETOOTH_MAJOR)}
  }

  /** Every exit reverses its load; so does every failure branch, but for the two in etx. */
  lemma DriverShape(d: Script)
    requires IsDriver(d)
    ensures WellFormed(d) && d.exit == Stack(d, |d.steps|)
    ensures d != EtxScript() ==> Complete(d)
  {
    EtxShape();
    Esp32Shape();
    I2cShape();
    SpiShape();
    FixedShape(CAN_MAJOR);
    FixedShape(WIFI_MAJOR);
    FixedShape(BLUETOOTH_MAJOR);
  }

  /** Loading any of the seven and unloading it again leaves the registry as it was, every
      other module's entries included. */
  lemma LoadThenUnload(d: Script, m: ModuleId, dev: Dev, reg: set<Entry>, o: nat -> Outcome)
    requires IsDriver(d) && MayLoad(m, reg) && Init(d, m, dev, reg, o).Loaded?
    ensures var r := Init(d, m, dev, reg, o); ReleaseAll(d.exit, m, r.dev, r.reg) == reg
  {
    DriverShape(d);
    ExitUndoesInit(d, m, dev, reg, o);
  }

  /** What a failed load of etx does not give back: nothing, or the cdev. */
  lemma EtxKept(m: ModuleId, dev: Dev, reg: set<Entry>, o: nat -> Outcome)
    requires MayLoad(m, reg) && Init(EtxScript(), m, dev, reg, o).Failed?
    requires Init(EtxScript(), m, dev, reg, o).at >= 2
    ensures var at := Init(EtxScript(), m, dev, reg, o).at;
            Granted(EtxScript(), at, o) - Kinds(EtxScript().steps[at].undo) == {Cdev}
  {
    var d := EtxScript();
    var at := Init(d, m, dev, reg, o).at;
    EtxShape();
    CheckedWereGranted(d, m, 0, dev, reg, o, 1);
    SucceededIsGranted(d, at, o, 1);
    forall k | k in Granted(d, at, o)
      ensures k == Cdev || k in d.steps[at].undo
    {
      GrantedInStack(d, at, o, k);
    }
  }

  /** The step at which a load of etx fails says what it leaves behind. */
  lemma EtxLeftBehind(m: ModuleId, dev: Dev, reg: set<Entry>, o: nat -> Outcome)
    requires MayLoad(m, reg) && Init(EtxScript(), m, dev, reg, o).Failed?
    ensures var r := Init(EtxScript(), m, dev, reg, o);
            if r.at < 2 then r.reg == reg
            else r.reg == reg + {CdevEntry(m, r.dev, 1)} && r.reg != reg && RegionFree(r.reg, r.dev, 1)
  {
    var at := Init(EtxScript(), m, dev, reg, o).at;
    EtxShape();
    if at < 2 {
      FailedInitIsAtomic(EtxScript(), m, dev, reg, o);
    } else {
      EtxLeavesCdev(m, dev, reg, o);
    }
  }

  lemma EtxLeavesCdev(m: ModuleId, dev: Dev, reg: set<Entry>, o: nat -> Outcome)
    requires WellFormed(EtxScript()) && MayLoad(m, reg) && Init(EtxScript(), m, dev, reg, o).Failed?
    requires Init(EtxScript(), m, dev, reg, o).at >= 2
    ensures var r := Init(EtxScript(), m, dev, reg, o);
            r.reg == reg + {CdevEntry(m, r.dev, 1)} && r.reg != reg && RegionFree(r.reg, r.dev, 1)
  {
    var d := EtxScript();
    var r := Init(d, m, dev, reg, o);
    InitOutcome(d, m, dev, reg, o);
    EtxKept(m, dev, reg, o);
    assert Entries({Cdev}, m, r.dev) == {CdevEntry(m, r.dev, 1)};
    assert KindAt(d, 0) == Region;
    StackHas(d, r.at, 0);
  }

  /** The kernel grants a load of etx its region and its cdev. */
  predicate EtxGetsCdev(reg: set<Entry>, o: nat -> Outcome) {
    o(0).Succeed? && RegionFree(reg, Dev(o(0).major, 0), 1) && o(1).Succeed?
  }

  lemma FourEntries(reg: set<Entry>, a: Entry, b: Entry, c: Entry, e: Entry)
    ensures reg + {a} + {b} + {c} + {e} == reg + {a, b, c, e}
    ensures reg + {a} + {b} + {c} == reg + {a, b, c}
  {}

  lemma EtxEndsAfterCdev(m: ModuleId, dev: Dev, reg: set<Entry>, o: nat -> Outcome)
    ensures var r := InitFrom(EtxScript(), m, 2, dev, reg, o);
            && r.dev == dev && (r.Loaded? <==> o(2).Succeed? && o(3).Succeed?)
            && (r.Loaded? ==> r.reg == reg + {ClassEntry(m)} + {NodeEntry(m, dev)})
  {
    var d := EtxScript();
    Unfold(d, m, 2, dev, reg, o);
    var a := Acquire(Class, [], m, dev, reg, o(2));
    if a.Ok? {
      Unfold(d, m, 3, a.dev, a.reg, o);
    }
  }

  /** Where a load of etx ends, by the kernel's answers. */
  lemma EtxEnds(m: ModuleId, dev: Dev, reg: set<Entry>, o: nat -> Outcome)
    ensures var r := Init(EtxScript(), m, dev, reg, o);
            && (r.Loaded? <==> EtxGetsCdev(reg, o) && o(2).Succeed? && o(3).Succeed?)
            && (r.Failed? ==> (r.at >= 2 <==> EtxGetsCdev(reg, o)))
            && (EtxGetsCdev(reg, o) ==> r.dev == Dev(o(0).major, 0))
            && (r.Loaded? ==> r.reg == reg + {RegionEntry(m, r.dev, 1), CdevEntry(m, r.dev, 1), ClassEntry(m), NodeEntry(m, r.dev)})
  {
    var d := EtxScript();
    Unfold(d, m, 0, dev, reg, o);
    var a := Acquire(Region, [], m, dev, reg, o(0));
    if a.Ok? {
      Unfold(d, m, 1, a.dev, a.reg, o);
      var b := Acquire(Cdev, [], m, a.dev, a.reg, o(1));
      if b.Ok? {
        EtxEndsAfterCdev(m, b.dev, b.reg, o);
        FourEntries(reg, RegionEntry(m, a.dev, 1), CdevEntry(m, a.dev, 1), ClassEntry(m), NodeEntry(m, a.dev));
      }
    }
  }

  /** A load of etx fails and leaves something behind exactly when the kernel grants it its
      region and its cdev and then refuses the class or the node. What it leaves is one
      cdev, at a number whose region it has given back. */
  lemma EtxFailure(m: ModuleId, dev: Dev, reg: set<Entry>, o: nat -> Outcome)
    requires MayLoad(m, reg)
    ensures var r := Init(EtxScript(), m, dev, reg, o);
            && (r.Failed? && r.reg != reg <==> EtxGetsCdev(reg, o) && (o(2).Fail? || o(3).Fail?))
            && (r.Failed? && r.reg != reg ==>
                  r.dev == Dev(o(0).major, 0) && r.reg == reg + {CdevEntry(m, r.dev, 1)} && RegionFree(r.reg, r.dev, 1))
            && (r.Failed? ==> r.code == -1)
  {
    EtxEnds(m, dev, reg, o);
    if Init(EtxScript(), m, dev, reg, o).Failed? {
      EtxLeftBehind(m, dev, reg, o);
    }
  }

  // ------------------------------------------------------------ loads, by the kernel's answers

  /** esp32: all four calls are checked, and the error of the one refused is returned. */
  lemma Esp32Ends(m: ModuleId, dev: Dev, reg: set<Entry>, o: nat -> Outcome)
    ensures var r := Init(Esp32Script(), m, dev, reg, o);
            if o(0).Fail? then r.Failed? && r.code == o(0).errno
            else if !RegionFree(reg, Dev(o(0).major, 0), 1) then r.Failed? && r.code == -16
            else if o(1).Fail? then r.Failed? && r.code == o(1).errno
            else if o(2).Fail? then r.Failed? && r.code == o(2).errno
            else if o(3).Fail? then r.Failed? && r.code == o(3).errno
            else
              var number := Dev(o(0).major, 0);
              r == Loaded(reg + {RegionEntry(m, number, 1), ClassEntry(m), NodeEntry(m, number), CdevEntry(m, number, 1)}, number)
  {
    Unfold(Esp32Script(), m, 0, dev, reg, o);
    var a := Acquire(Region, [], m, dev, reg, o(0));
    if a.Ok? {
      Esp32EndsAfterRegion(m, a.dev, a.reg, o);
      FourEntries(reg, RegionEntry(m, a.dev, 1), ClassEntry(m), NodeEntry(m, a.dev), CdevEntry(m, a.dev, 1));
    }
  }

  lemma Esp32EndsAfterRegion(m: ModuleId, dev: Dev, reg: set<Entry>, o: nat -> Outcome)
    ensures var r := InitFrom(Esp32Script(), m, 1, dev, reg, o);
            if o(1).Fail? then r.Failed? && r.code == o(1).errno
            else if o(2).Fail? then r.Failed? && r.code == o(2).errno
            else if o(3).Fail? then r.Failed? && r.code == o(3).errno
            else r == Loaded(reg + {ClassEntry(m)} + {NodeEntry(m, dev)} + {CdevEntry(m, dev, 1)}, dev)
  {
    var d := Esp32Script();
    Unfold(d, m, 1, dev, reg, o);
    var b := Acquire(Class, [], m, dev, reg, o(1));
    if b.Ok? {
      Unfold(d, m, 2, b.dev, b.reg, o);
      var c := Acquire(Node, [], m, b.dev, b.reg, o(2));
      if c.Ok? {
        Unfold(d, m, 3, c.dev, c.reg, o);
      }
    }
  }

  /** i2c: a refused node is not noticed, and the load succeeds without it. */
  lemma I2cEnds(m: ModuleId, dev: Dev, reg: set<Entry>, o: nat -> Outcome)
    ensures var r := Init(I2cScript(), m, dev, reg, o);
            if o(0).Fail? then r.Failed? && r.code == o(0).errno
            else if o(1).Fail? then r.Failed? && r.code == o(1).errno
            else if !RegionFree(reg, Dev(o(1).major, 0), 1) then r.Failed? && r.code == -16
            else if o(2).Fail? then r.Failed? && r.code == o(2).errno
            else
              var number := Dev(o(1).major, 0);
              r == Loaded(reg + {BusEntry(m), RegionEntry(m, number, 1), ClassEntry(m)}
                              + (if o(3).Succeed? then {NodeEntry(m, number)} else {}), number)
  {
    var d := I2cScript();
    Unfold(d, m, 0, dev, reg, o);
    var a := Acquire(BusDriver, [], m, dev, reg, o(0));
    if a.Ok? {
      Unfold(d, m, 1, a.dev, a.reg, o);
      var b := Acquire(Region, [], m, a.dev, a.reg, o(1));
      if o(1).Succeed? {
        BusNotInTheWay(m, reg, Dev(o(1).major, 0));
      }
      if b.Ok? {
        I2cEndsAfterRegion(m, b.dev, b.reg, o);
        FourEntries(reg, BusEntry(m), RegionEntry(m, b.dev, 1), ClassEntry(m), NodeEntry(m, b.dev));
      }
    }
  }

  lemma I2cEndsAfterRegion(m: ModuleId, dev: Dev, reg: set<Entry>, o: nat -> Outcome)
    ensures var r := InitFrom(I2cScript(), m, 2, dev, reg, o);
            if o(2).Fail? then r.Failed? && r.code == o(2).errno
            else r == Loaded(reg + {ClassEntry(m)} + (if o(3).Succeed? then {NodeEntry(m, dev)} else {}), dev)
  {
    var d := I2cScript();
    Unfold(d, m, 2, dev, reg, o);
    var c := Acquire(Class, [], m, dev, reg, o(2));
    if c.Ok? {
      Unfold(d, m, 3, c.dev, c.reg, o);
    }
  }

  lemma BusNotInTheWay(m: ModuleId, reg: set<Entry>, number: Dev)
    ensures RegionFree(reg + {BusEntry(m)}, number, 1) <==> RegionFree(reg, number, 1)
  {
    assert forall e <- reg :: e in reg + {BusEntry(m)};
  }

  /** spi: a missing device is -95 and a missing cdev object -12, whatever the kernel says. */
  lemma SpiEnds(m: ModuleId, dev: Dev, reg: set<Entry>, o: nat -> Outcome)
    ensures var r := Init(SpiScript(), m, dev, reg, o);
            if o(0).Fail? then r.Failed? && r.code == o(0).errno
            else if !RegionFree(reg, Dev(o(0).major, 0), 1) then r.Failed? && r.code == -16
            else if o(1).Fail? then r.Failed? && r.code == -95
            else if o(2).Fail? then r.Failed? && r.code == -12
            else if o(3).Fail? then r.Failed? && r.code == o(3).errno
            else
              var number := Dev(o(0).major, 0);
              r == Loaded(reg + {RegionEntry(m, number, 1), CdevObjectEntry(m), CdevEntry(m, number, 1)}, number)
  {
    Unfold(SpiScript(), m, 0, dev, reg, o);
    var a := Acquire(Region, [], m, dev, reg, o(0));
    if a.Ok? {
      SpiEndsAfterRegion(m, a.dev, a.reg, o);
      FourEntries(reg, RegionEntry(m, a.dev, 1), CdevObjectEntry(m), CdevEntry(m, a.dev, 1), CdevEntry(m, a.dev, 1));
    }
  }

  lemma SpiEndsAfterRegion(m: ModuleId, dev: Dev, reg: set<Entry>, o: nat -> Outcome)
    ensures var r := InitFrom(SpiScript(), m, 1, dev, reg, o);
            if o(1).Fail? then r.Failed? && r.code == -95
            else if o(2).Fail? then r.Failed? && r.code == -12
            else if o(3).Fail? then r.Failed? && r.code == o(3).errno
            else r == Loaded(reg + {CdevObjectEntry(m)} + {CdevEntry(m, dev, 1)}, dev)
  {
    var d := SpiScript();
    Unfold(d, m, 1, dev, reg, o);
    var b := Acquire(Lookup, [], m, dev, reg, o(1));
    if b.Ok? {
      Unfold(d, m, 2, b.dev, b.reg, o);
      var c := Acquire(CdevObject, [], m, b.dev, b.reg, o(2));
      if c.Ok? {
        Unfold(d, m, 3, c.dev, c.reg, o);
      }
    }
  }

  /** The fixed-number drivers: the number the kernel would pick does not matter. */
  lemma FixedEnds(major: nat, m: ModuleId, dev: Dev, reg: set<Entry>, o: nat -> Outcome)
    ensures var r := Init(FixedScript(major), m, dev, reg, o);
            if o(0).Fail? then r.Failed? && r.code == o(0).errno
            else if !RegionFree(reg, Dev(major, 0), 1) then r.Failed? && r.code == -16
            else if o(1).Fail? then r.Failed? && r.code == o(1).errno
            else r == Loaded(reg + {RegionEntry(m, Dev(major, 0), 1), CdevEntry(m, Dev(major, 0), 1)}, Dev(major, 0))
  {
    var d, number := FixedScript(major), Dev(major, 0);
    Unfold(d, m, 0, dev, reg, o);
    var a := Acquire(Region, d.fixed, m, dev, reg, o(0));
    if a.Ok? {
      Unfold(d, m, 1, a.dev, a.reg, o);
      assert reg + {RegionEntry(m, number, 1)} + {CdevEntry(m, number, 1)}
          == reg + {RegionEntry(m, number, 1), CdevEntry(m, number, 1)};
    }
  }

  // ------------------------------------------------------------ the functions as written

  /** A load function returned `ret` and left registry and device number as the script says. */
  ghost predicate Agrees(r: InitResult, ret: int, reg: set<Entry>, dev: Dev) {
    reg == r.reg && dev == r.dev && ret == if r.Loaded? then 0 else r.code
  }

  lemma EtxKeeps(m: ModuleId, dev: Dev, reg: set<Entry>, o: nat -> Outcome)
    ensures var r := Init(EtxScript(), m, dev, reg, o);
            MayLoad(m, reg) && r.Failed? ==>
              r.reg == reg + if EtxGetsCdev(reg, o) then {CdevEntry(m, Dev(o(0).major, 0), 1)} else {}
  {
    EtxEnds(m, dev, reg, o);
    if MayLoad(m, reg) {
      EtxFailure(m, dev, reg, o);
    }
  }

  /** Registry and number are what a successful load, begun with the registry reg0, left. */
  ghost predicate LoadedFrom(d: Script, m: ModuleId, reg0: set<Entry>, reg: set<Entry>, dev: Dev) {
    MayLoad(m, reg0) && exists dev0, o :: Init(d, m, dev0, reg0, o) == Loaded(reg, dev)
  }

  lemma LoadedIsFrom(d: Script, m: ModuleId, dev: Dev, reg: set<Entry>, o: nat -> Outcome)
    ensures var r := Init(d, m, dev, reg, o);
            MayLoad(m, reg) && r.Loaded? ==> LoadedFrom(d, m, reg, r.reg, r.dev)
  {}

  /** What a load promises when all failure branches are complete. */
  ghost predicate AllOrNothing(d: Script, m: ModuleId, reg0: set<Entry>, r: InitResult) {
    MayLoad(m, reg0) ==> if r.Loaded? then LoadedFrom(d, m, reg0, r.reg, r.dev) else r.reg == reg0
  }

  lemma CompleteIsAllOrNothing(d: Script, m: ModuleId, dev: Dev, reg: set<Entry>, o: nat -> Outcome)
    requires WellFormed(d) && Complete(d)
    ensures AllOrNothing(d, m, reg, Init(d, m, dev, reg, o))
  {
    LoadedIsFrom(d, m, dev, reg, o);
    var r := Init(d, m, dev, reg, o);
    if MayLoad(m, reg) && r.Failed? {
      assert UndoComplete(d, r.at);
      FailedInitIsAtomic(d, m, dev, reg, o);
    }
  }

  /** reg' is the registry that any successful load which left reg behind began with. */
  ghost predicate TakenBack(d: Script, m: ModuleId, reg: set<Entry>, dev: Dev, reg': set<Entry>) {
    forall reg0 :: LoadedFrom(d, m, reg0, reg, dev) ==> reg' == reg0
  }

  lemma ExitRestores(d: Script, m: ModuleId, reg: set<Entry>, dev: Dev)
    requires WellFormed(d) && d.exit == Stack(d, |d.steps|)
    ensures TakenBack(d, m, reg, dev, ReleaseAll(d.exit, m, dev, reg))
  {
    forall reg0 | LoadedFrom(d, m, reg0, reg, dev)
      ensures ReleaseAll(d.exit, m, dev, reg) == reg0
    {
      var dev0, o :| Init(d, m, dev0, reg0, o) == Loaded(reg, dev);
      ExitUndoesInit(d, m, dev0, reg0, o);
    }
  }

  /** Exactly those entries, and whatever region of one number stood at dev, are gone. */
  ghost predicate GivenBack(reg: set<Entry>, own: set<Entry>, dev: Dev, reg': set<Entry>) {
    forall e :: e in reg' <==> e in reg && e !in own && !(e.RegionEntry? && e.first == dev && e.count == 1)
  }

  lemma ReleaseFirst(k: Kind, rest: seq<Kind>, m: ModuleId, dev: Dev, reg: set<Entry>)
    ensures ReleaseAll([k] + rest, m, dev, reg) == ReleaseAll(rest, m, dev, Release(k, m, dev, reg))
  {
    assert ([k] + rest)[1..] == rest;
  }

  /** Up to four releases, in order. */
  lemma ReleaseSome(a: Kind, b: Kind, c: Kind, e: Kind, m: ModuleId, dev: Dev, reg: set<Entry>)
    ensures ReleaseAll([a], m, dev, reg) == Release(a, m, dev, reg)
    ensures ReleaseAll([a, b], m, dev, reg) == Release(b, m, dev, Release(a, m, dev, reg))
    ensures ReleaseAll([a, b, c], m, dev, reg) == Release(c, m, dev, Release(b, m, dev, Release(a, m, dev, reg)))
    ensures ReleaseAll([a, b, c, e], m, dev, reg)
         == Release(e, m, dev, Release(c, m, dev, Release(b, m, dev, Release(a, m, dev, reg))))
  {
    var r1 := Release(a, m, dev, reg);
    var r2 := Release(b, m, dev, r1);
    var r3 := Release(c, m, dev, r2);
    ReleaseFirst(a, [], m, dev, reg);
    ReleaseFirst(a, [b], m, dev, reg);
    ReleaseFirst(a, [b, c], m, dev, reg);
    ReleaseFirst(a, [b, c, e], m, dev, reg);
    ReleaseFirst(b, [], m, dev, r1);
    ReleaseFirst(b, [c], m, dev, r1);
    ReleaseFirst(b, [c, e], m, dev, r1);
    ReleaseFirst(c, [], m, dev, r2);
    ReleaseFirst(c, [e], m, dev, r2);
    ReleaseFirst(e, [], m, dev, r3);
    assert [a] + [] == [a] && [a] + [b] == [a, b] && [a] + [b, c] == [a, b, c] && [a] + [b, c, e] == [a, b, c, e];
    assert [b] + [] == [b] && [b] + [c] == [b, c] && [b] + [c, e] == [b, c, e];
    assert [c] + [] == [c] && [c] + [e] == [c, e] && [e] + [] == [e];
  }

  class EtxDriver {
    const kernel: Kernel
    const id: ModuleId
    var dev: Dev

    constructor (kernel: Kernel, id: ModuleId)
      ensures this.kernel == kernel && this.id == id && dev == Dev(0, 0)
    {
      this.kernel, this.id, dev := kernel, id, Dev(0, 0);
    }

    /** `etx_driver_init`. */
    method Load(o: nat -> Outcome) returns (ret: int)
      modifies this`dev, kernel
      ensures Agrees(Init(EtxScript(), id, old(dev), old(kernel.registry), o), ret, kernel.registry, dev)
      ensures ret == if o(0).Succeed? && RegionFree(old(kernel.registry), Dev(o(0).major, 0), 1) && o(1).Succeed?
                        && o(2).Succeed? && o(3).Succeed? then 0 else -1
      ensures ret == 0 ==>
        && dev == Dev(o(0).major, 0)
        && kernel.registry == old(kernel.registry)
             + {RegionEntry(id, dev, 1), CdevEntry(id, dev, 1), ClassEntry(id), NodeEntry(id, dev)}
      ensures ret < 0 && old(MayLoad(id, kernel.registry)) ==>
        kernel.registry == old(kernel.registry)
          + if o(0).Succeed? && RegionFree(old(kernel.registry), Dev(o(0).major, 0), 1) && o(1).Succeed?
            then {CdevEntry(id, Dev(o(0).major, 0), 1)} else {}
      ensures ret == 0 && old(MayLoad(id, kernel.registry)) ==>
        LoadedFrom(EtxScript(), id, old(kernel.registry), kernel.registry, dev)
    {
      ghost var d := EtxScript();
      LoadedIsFrom(d, id, dev, kernel.registry, o);
      EtxEnds(id, dev, kernel.registry, o);
      EtxKeeps(id, dev, kernel.registry, o);
      Unfold(d, id, 0, dev, kernel.registry, o);
      ret, dev := kernel.AskRegion([], id, dev, o(0)); // alloc_chrdev_region
      if ret < 0 {
        return -1;
      }
      Unfold(d, id, 1, dev, kernel.registry, o);
      ret := kernel.Ask(Cdev, id, dev, o(1)); // cdev_add
      if ret < 0 { // goto r_class
        ReleaseSome(Region, Region, Region, Region, id, dev, kernel.registry);
        kernel.Return(Region, id, dev);
        return -1;
      }
      Unfold(d, id, 2, dev, kernel.registry, o);
      ret := kernel.Ask(Class, id, dev, o(2)); // class_create
      if ret < 0 { // goto r_class
        ReleaseSome(Region, Region, Region, Region, id, dev, kernel.registry);
        kernel.Return(Region, id, dev);
        return -1;
      }
      Unfold(d, id, 3, dev, kernel.registry, o);
      ret := kernel.Ask(Node, id, dev, o(3)); // device_create
      if ret < 0 { // goto r_device
        ReleaseSome(Class, Region, Region, Region, id, dev, kernel.registry);
        kernel.Return(Class, id, dev);
        kernel.Return(Region, id, dev);
        return -1;
      }
    }

    /** `etx_driver_exit`. */
    method Unload()
      modifies kernel
      ensures kernel.registry == ReleaseAll(EtxScript().exit, id, dev, old(kernel.registry))
      ensures TakenBack(EtxScript(), id, old(kernel.registry), dev, kernel.registry)
      ensures GivenBack(old(kernel.registry), {NodeEntry(id, dev), ClassEntry(id), CdevEntry(id, dev, 1)}, dev, kernel.registry)
    {
      ghost var d := EtxScript();
      assert TakenBack(d, id, kernel.registry, dev, ReleaseAll(d.exit, id, dev, kernel.registry)) by {
        EtxShape();
        ExitRestores(d, id, kernel.registry, dev);
      }
      ReleaseSome(Node, Class, Cdev, Region, id, dev, kernel.registry);
      kernel.Return(Node, id, dev);
      kernel.Return(Class, id, dev);
      kernel.Return(Cdev, id, dev);
      kernel.Return(Region, id, dev);
    }
  }

  class Esp32Driver {
    const kernel: Kernel
    const id: ModuleId
    var dev: Dev

    constructor (kernel: Kernel, id: ModuleId)
      ensures this.kernel == kernel && this.id == id && dev == Dev(0, 0)
    {
      this.kernel, this.id, dev := kernel, id, Dev(0, 0);
    }

    /** `esp32_init`: a failed load gives everything back. */
    method Load(o: nat -> Outcome) returns (ret: int)
      modifies this`dev, kernel
      ensures Agrees(Init(Esp32Script(), id, old(dev), old(kernel.registry), o), ret, kernel.registry, dev)
      ensures ret == if o(0).Fail? then o(0).errno
                     else if !RegionFree(old(kernel.registry), Dev(o(0).major, 0), 1) then -16
                     else if o(1).Fail? then o(1).errno else if o(2).Fail? then o(2).errno
                     else if o(3).Fail? then o(3).errno else 0
      ensures ret == 0 ==>
        && dev == Dev(o(0).major, 0)
        && kernel.registry == old(kernel.registry)
             + {RegionEntry(id, dev, 1), ClassEntry(id), NodeEntry(id, dev), CdevEntry(id, dev, 1)}
      ensures ret == 0 && old(MayLoad(id, kernel.registry)) ==>
        LoadedFrom(Esp32Script(), id, old(kernel.registry), kernel.registry, dev)
      ensures ret < 0 && old(MayLoad(id, kernel.registry)) ==> kernel.registry == old(kernel.registry)
    {
      ghost var d := Esp32Script();
      assert AllOrNothing(d, id, kernel.registry, Init(d, id, dev, kernel.registry, o)) by {
        Esp32Shape();
        CompleteIsAllOrNothing(d, id, dev, kernel.registry, o);
      }
      Esp32Ends(id, dev, kernel.registry, o);
      Unfold(d, id, 0, dev, kernel.registry, o);
      ret, dev := kernel.AskRegion([], id, dev, o(0)); // alloc_chrdev_region
      if ret < 0 {
        return;
      }
      Unfold(d, id, 1, dev, kernel.registry, o);
      ret := kernel.Ask(Class, id, dev, o(1)); // class_create
      if ret < 0 {
        ReleaseSome(Region, Region, Region, Region, id, dev, kernel.registry);
        kernel.Return(Region, id, dev);
        return;
      }
      Unfold(d, id, 2, dev, kernel.registry, o);
      ret := kernel.Ask(Node, id, dev, o(2)); // device_create
      if ret < 0 {
        ReleaseSome(Class, Region, Region, Region, id, dev, kernel.registry);
        kernel.Return(Class, id, dev);
        kernel.Return(Region, id, dev);
        return;
      }
      Unfold(d, id, 3, dev, kernel.registry, o);
      ret := kernel.Ask(Cdev, id, dev, o(3)); // cdev_add
      if ret < 0 {
        ReleaseSome(Node, Class, Region, Region, id, dev, kernel.registry);
        kernel.Return(Node, id, dev);
        kernel.Return(Class, id, dev);
        kernel.Return(Region, id, dev);
        return;
      }
    }

    /** `esp32_exit`. */
    method Unload()
      modifies kernel
      ensures kernel.registry == ReleaseAll(Esp32Script().exit, id, dev, old(kernel.registry))
      ensures TakenBack(Esp32Script(), id, old(kernel.registry), dev, kernel.registry)
      ensures GivenBack(old(kernel.registry), {CdevEntry(id, dev, 1), NodeEntry(id, dev), ClassEntry(id)}, dev, kernel.registry)
    {
      ghost var d := Esp32Script();
      assert TakenBack(d, id, kernel.registry, dev, ReleaseAll(d.exit, id, dev, kernel.registry)) by {
        Esp32Shape();
        ExitRestores(d, id, kernel.registry, dev);
      }
      ReleaseSome(Cdev, Node, Class, Region, id, dev, kernel.registry);
      kernel.Return(Cdev, id, dev);
      kernel.Return(Node, id, dev);
      kernel.Return(Class, id, dev);
      kernel.Return(Region, id, dev);
    }
  }

  class I2cDriver {
    const kernel: Kernel
    const id: ModuleId
    var dev: Dev

    constructor (kernel: Kernel, id: ModuleId)
      ensures this.kernel == kernel && this.id == id && dev == Dev(0, 0)
    {
      this.kernel, this.id, dev := kernel, id, Dev(0, 0);
    }

    /** `i2c_char_driver_init`: a failed load gives everything back. */
    method Load(o: nat -> Outcome) returns (ret: int)
      modifies this`dev, kernel
      ensures Agrees(Init(I2cScript(), id, old(dev), old(kernel.registry), o), ret, kernel.registry, dev)
      ensures ret == if o(0).Fail? then o(0).errno else if o(1).Fail? then o(1).errno
                     else if !RegionFree(old(kernel.registry), Dev(o(1).major, 0), 1) then -16
                     else if o(2).Fail? then o(2).errno else 0
      ensures ret == 0 ==>
        && dev == Dev(o(1).major, 0)
        && kernel.registry == old(kernel.registry)
             + {BusEntry(id), RegionEntry(id, dev, 1), ClassEntry(id)} + (if o(3).Succeed? then {NodeEntry(id, dev)} else {})
      ensures ret == 0 && old(MayLoad(id, kernel.registry)) ==>
        LoadedFrom(I2cScript(), id, old(kernel.registry), kernel.registry, dev)
      ensures ret < 0 && old(MayLoad(id, kernel.registry)) ==> kernel.registry == old(kernel.registry)
    {
      ghost var d := I2cScript();
      assert AllOrNothing(d, id, kernel.registry, Init(d, id, dev, kernel.registry, o)) by {
        I2cShape();
        CompleteIsAllOrNothing(d, id, dev, kernel.registry, o);
      }
      I2cEnds(id, dev, kernel.registry, o);
      Unfold(d, id, 0, dev, kernel.registry, o);
      ret := kernel.Ask(BusDriver, id, dev, o(0)); // i2c_add_driver
      if ret < 0 {
        return;
      }
      Unfold(d, id, 1, dev, kernel.registry, o);
      ret, dev := kernel.AskRegion([], id, dev, o(1)); // alloc_chrdev_region
      if ret < 0 {
        ReleaseSome(BusDriver, Region, Region, Region, id, dev, kernel.registry);
        kernel.Return(BusDriver, id, dev);
        return;
      }
      Unfold(d, id, 2, dev, kernel.registry, o);
      ret := kernel.Ask(Class, id, dev, o(2)); // class_create
      if ret < 0 {
        ReleaseSome(Region, BusDriver, Region, Region, id, dev, kernel.registry);
        kernel.Return(Region, id, dev);
        kernel.Return(BusDriver, id, dev);
        return;
      }
      Unfold(d, id, 3, dev, kernel.registry, o);
      var _ := kernel.Ask(Node, id, dev, o(3)); // device_create, result unused
      ret := 0;
    }

    /** `i2c_char_driver_exit`. */
    method Unload()
      modifies kernel
      ensures kernel.registry == ReleaseAll(I2cScript().exit, id, dev, old(kernel.registry))
      ensures TakenBack(I2cScript(), id, old(kernel.registry), dev, kernel.registry)
      ensures GivenBack(old(kernel.registry), {NodeEntry(id, dev), ClassEntry(id), BusEntry(id)}, dev, kernel.registry)
    {
      ghost var d := I2cScript();
      assert TakenBack(d, id, kernel.registry, dev, ReleaseAll(d.exit, id, dev, kernel.registry)) by {
        I2cShape();
        ExitRestores(d, id, kernel.registry, dev);
      }
      ReleaseSome(Node, Class, Region, BusDriver, id, dev, kernel.registry);
      kernel.Return(Node, id, dev);
      kernel.Return(Class, id, dev);
      kernel.Return(Region, id, dev);
      kernel.Return(BusDriver, id, dev);
    }
  }

  class SpiDriver {
    const kernel: Kernel
    const id: ModuleId
    var dev: Dev

    constructor (kernel: Kernel, id: ModuleId)
      ensures this.kernel == kernel && this.id == id && dev == Dev(0, 0)
    {
      this.kernel, this.id, dev := kernel, id, Dev(0, 0);
    }

    /** `spi_char_init`: a failed load gives everything back. */
    method Load(o: nat -> Outcome) returns (ret: int)
      modifies this`dev, kernel
      ensures Agrees(Init(SpiScript(), id, old(dev), old(kernel.registry), o), ret, kernel.registry, dev)
      ensures ret == if o(0).Fail? then o(0).errno
                     else if !RegionFree(old(kernel.registry), Dev(o(0).major, 0), 1) then -16
                     else if o(1).Fail? then -95 else if o(2).Fail? then -12
                     else if o(3).Fail? then o(3).errno else 0
      ensures ret == 0 ==>
        && dev == Dev(o(0).major, 0)
        && kernel.registry == old(kernel.registry)
             + {RegionEntry(id, dev, 1), CdevObjectEntry(id), CdevEntry(id, dev, 1)}
      ensures ret == 0 && old(MayLoad(id, kernel.registry)) ==>
        LoadedFrom(SpiScript(), id, old(kernel.registry), kernel.registry, dev)
      ensures ret < 0 && old(MayLoad(id, kernel.registry)) ==> kernel.registry == old(kernel.registry)
    {
      ghost var d := SpiScript();
      assert AllOrNothing(d, id, kernel.registry, Init(d, id, dev, kernel.registry, o)) by {
        SpiShape();
        CompleteIsAllOrNothing(d, id, dev, kernel.registry, o);
      }
      SpiEnds(id, dev, kernel.registry, o);
      Unfold(d, id, 0, dev, kernel.registry, o);
      ret, dev := kernel.AskRegion([], id, dev, o(0)); // alloc_chrdev_region
      if ret < 0 {
        return;
      }
      Unfold(d, id, 1, dev, kernel.registry, o);
      ret := kernel.Ask(Lookup, id, dev, o(1)); // spi_bus_find_device
      if ret < 0 { // goto err_free_chrdev
        ReleaseSome(Region, Region, Region, Region, id, dev, kernel.registry);
        kernel.Return(Region, id, dev);
        return EOPNOTSUPP;
      }
      Unfold(d, id, 2, dev, kernel.registry, o);
      ret := kernel.Ask(CdevObject, id, dev, o(2)); // cdev_alloc
      if ret < 0 { // goto err_free_chrdev
        ReleaseSome(Region, Region, Region, Region, id, dev, kernel.registry);
        kernel.Return(Region, id, dev);
        return ENOMEM;
      }
      Unfold(d, id, 3, dev, kernel.registry, o);
      ret := kernel.Ask(Cdev, id, dev, o(3)); // cdev_add
      if ret < 0 { // goto err_free_cdev
        ReleaseSome(CdevObject, Region, Region, Region, id, dev, kernel.registry);
        kernel.Return(CdevObject, id, dev); // kobject_put
        kernel.Return(Region, id, dev);
        return;
      }
    }

    /** `spi_char_exit`: `cdev_del` is the first two releases. */
    method Unload()
      modifies kernel
      ensures kernel.registry == ReleaseAll(SpiScript().exit, id, dev, old(kernel.registry))
      ensures TakenBack(SpiScript(), id, old(kernel.registry), dev, kernel.registry)
      ensures GivenBack(old(kernel.registry), {CdevEntry(id, dev, 1), CdevObjectEntry(id)}, dev, kernel.registry)
    {
      ghost var d := SpiScript();
      assert TakenBack(d, id, kernel.registry, dev, ReleaseAll(d.exit, id, dev, kernel.registry)) by {
        SpiShape();
        ExitRestores(d, id, kernel.registry, dev);
      }
      ReleaseSome(Cdev, CdevObject, Region, Region, id, dev, kernel.registry);
      kernel.Return(Cdev, id, dev);
      kernel.Return(CdevObject, id, dev);
      kernel.Return(Region, id, dev);
    }
  }

  /** The CAN, Wi-Fi and Bluetooth drivers, which differ in their major number only. */
  class FixedMajorDriver {
    const kernel: Kernel
    const id: ModuleId
    const major: nat
    var dev: Dev

    constructor (kernel: Kernel, id: ModuleId, major: nat)
      ensures this.kernel == kernel && this.id == id && this.major == major && dev == Dev(0, 0)
    {
      this.kernel, this.id, this.major, dev := kernel, id, major, Dev(0, 0);
    }

    /** `can_init`, `wifi_init`, `bluetooth_init`: a failed load gives everything back. */
    method Load(o: nat -> Outcome) returns (ret: int)
      modifies this`dev, kernel
      ensures Agrees(Init(FixedScript(major), id, Dev(major, 0), old(kernel.registry), o), ret, kernel.registry, dev)
      ensures ret == if o(0).Fail? then o(0).errno
                     else if !RegionFree(old(kernel.registry), Dev(major, 0), 1) then -16
                     else if o(1).Fail? then o(1).errno else 0
      ensures ret == 0 ==>
        && dev == Dev(major, 0)
        && kernel.registry == old(kernel.registry)
             + {RegionEntry(id, dev, 1), CdevEntry(id, dev, 1)}
      ensures ret == 0 && old(MayLoad(id, kernel.registry)) ==>
        LoadedFrom(FixedScript(major), id, old(kernel.registry), kernel.registry, dev)
      ensures ret < 0 && old(MayLoad(id, kernel.registry)) ==> kernel.registry == old(kernel.registry)
    {
      ghost var d := FixedScript(major);
      dev := Dev(major, 0);
      assert AllOrNothing(d, id, kernel.registry, Init(d, id, dev, kernel.registry, o)) by {
        FixedShape(major);
        CompleteIsAllOrNothing(d, id, dev, kernel.registry, o);
      }
      FixedEnds(major, id, dev, kernel.registry, o);
      Unfold(d, id, 0, dev, kernel.registry, o);
      ret, dev := kernel.AskRegion([dev], id, dev, o(0)); // register_chrdev_region
      if ret < 0 {
        return;
      }
      Unfold(d, id, 1, dev, kernel.registry, o);
      ret := kernel.Ask(Cdev, id, dev, o(1)); // cdev_add
      if ret < 0 {
        ReleaseSome(Region, Region, Region, Region, id, dev, kernel.registry);
        kernel.Return(Region, id, dev);
        return;
      }
    }

    /** `can_exit`, `wifi_exit`, `bluetooth_exit`. */
    method Unload()
      modifies kernel
      ensures kernel.registry == ReleaseAll(FixedScript(major).exit, id, dev, old(kernel.registry))
      ensures TakenBack(FixedScript(major), id, old(kernel.registry), dev, kernel.registry)
      ensures GivenBack(old(kernel.registry), {CdevEntry(id, dev, 1)}, dev, kernel.registry)
    {
      ghost var d := FixedScript(major);
      assert TakenBack(d, id, kernel.registry, dev, ReleaseAll(d.exit, id, dev, kernel.registry)) by {
        FixedShape(major);
        ExitRestores(d, id, kernel.registry, dev);
      }
      ReleaseSome(Cdev, Region, Region, Region, id, dev, kernel.registry);
      kernel.Return(Cdev, id, dev);
      kernel.Return(Region, id, dev);
    }
  }
}
