/** Loading a driver as a script of acquisitions, each with the releases its failure
    branch performs, and unloading as a list of releases. */
module Scripts {
  import opened Registry

  /** One step of an init function. `undo` is what the failure branch releases, in order;
      `code` overrides the errno it returns. A step whose result the code ignores is not
      `checked` and has no failure branch. */
  datatype Step = Step(kind: Kind, checked: bool, undo: seq<Kind>, code: seq<Errno>)

  /** `fixed` holds the device number the driver insists on, if it does. */
  datatype Script = Script(fixed: seq<Dev>, steps: seq<Step>, exit: seq<Kind>)

  /** The releases that exactly reverse the first n steps. */
  function Stack(d: Script, n: nat): seq<Kind>
    requires n <= |d.steps|
  {
    if n == 0 then []
    else if d.steps[n - 1].kind == Lookup then Stack(d, n - 1)
    else [d.steps[n - 1].kind] + Stack(d, n - 1)
  }

  function Kinds(ks: seq<Kind>): set<Kind> {
    set k | k in ks
  }

  predicate UndoComplete(d: Script, n: nat)
    requires n < |d.steps|
  {
    d.steps[n].undo == Stack(d, n)
  }

  predicate Distinct(ks: seq<Kind>) {
    ks == [] || (ks[0] !in ks[1..] && Distinct(ks[1..]))
  }

  function KindAt(d: Script, i: nat): Kind
    requires i < |d.steps|
  {
    d.steps[i].kind
  }

  /** Each kind is acquired once. */
  ghost predicate KindsDistinct(d: Script) {
    forall i, j :: 0 <= i < j < |d.steps| ==> KindAt(d, i) != KindAt(d, j)
  }

  ghost predicate RegionChecked(d: Script) {
    forall i {:trigger KindAt(d, i)} :: 0 <= i < |d.steps| && KindAt(d, i) in {Region, Lookup} ==> d.steps[i].checked
  }

  /** What needs a device number comes after the region. */
  ghost predicate NumberFirst(d: Script) {
    forall j {:trigger KindAt(d, j)} :: 0 <= j < |d.steps| && KindAt(d, j) in {Node, Cdev} ==> Region in Stack(d, j)
  }

  /** A failure branch releases, once each, only what was acquired. */
  ghost predicate UndoSane(d: Script, n: nat)
    requires n < |d.steps|
  {
    Distinct(d.steps[n].undo) && forall k <- d.steps[n].undo :: k in Stack(d, n)
  }

  ghost predicate WellFormed(d: Script) {
    && KindsDistinct(d) && RegionChecked(d) && NumberFirst(d)
    && forall n :: 0 <= n < |d.steps| ==> UndoSane(d, n)
  }

  /** Failure branches and exit reverse everything. */
  predicate Complete(d: Script) {
    && d.exit == Stack(d, |d.steps|)
    && forall n :: 0 <= n < |d.steps| ==> UndoComplete(d, n)
  }

  lemma {:induction false} StackMembers(d: Script, n: nat, k: Kind)
    requires n <= |d.steps|
    ensures k in Stack(d, n) <==> k != Lookup && exists i :: 0 <= i < n && KindAt(d, i) == k
  {
    if n > 0 {
      StackMembers(d, n - 1, k);
      assert KindAt(d, n - 1) == d.steps[n - 1].kind;
    }
  }

  /** A kind is on the stack exactly once its step has been passed. */
  lemma StackHas(d: Script, n: nat, j: nat)
    requires WellFormed(d) && n <= |d.steps| && j < |d.steps| && KindAt(d, j) != Lookup
    ensures KindAt(d, j) in Stack(d, n) <==> j < n
  {
    StackMembers(d, n, KindAt(d, j));
  }

  lemma {:induction false} StackDistinct(d: Script, n: nat)
    requires KindsDistinct(d) && n <= |d.steps|
    ensures Distinct(Stack(d, n))
  {
    if n > 0 {
      var k := KindAt(d, n - 1);
      StackDistinct(d, n - 1);
      StackMembers(d, n - 1, k);
      if k != Lookup {
        DistinctCons(k, Stack(d, n - 1));
      }
    }
  }

  lemma DistinctCons(k: Kind, ks: seq<Kind>)
    requires Distinct(ks) && k !in ks
    ensures Distinct([k] + ks)
  {
    assert ([k] + ks)[1..] == ks;
  }

  /** A script whose branches reverse everything needs no further look at them. */
  lemma CompleteIsSane(d: Script)
    requires KindsDistinct(d) && RegionChecked(d) && NumberFirst(d) && Complete(d)
    ensures WellFormed(d)
  {
    forall n | 0 <= n < |d.steps|
      ensures UndoSane(d, n)
    {
      assert UndoComplete(d, n);
      StackDistinct(d, n);
    }
  }

  // ------------------------------------------------------------ loading, undisturbed

  /** The end of an init call: everything acquired, or the failing step and its error code. */
  datatype InitResult =
    | Loaded(reg: set<Entry>, dev: Dev)
    | Failed(reg: set<Entry>, dev: Dev, at: nat, code: Errno)

  /** Steps n, n+1, ... of an init function; `o` says how the kernel answers each call. */
  function InitFrom(d: Script, m: ModuleId, n: nat, dev: Dev, reg: set<Entry>, o: nat -> Outcome): (r: InitResult)
    requires n <= |d.steps|
    ensures r.Failed? ==> n <= r.at < |d.steps| && d.steps[r.at].checked
    ensures r.Failed? && d.steps[r.at].code != [] ==> r.code == d.steps[r.at].code[0]
    decreases |d.steps| - n
  {
    if n == |d.steps| then Loaded(reg, dev)
    else
      var step := d.steps[n];
      match Acquire(step.kind, d.fixed, m, dev, reg, o(n))
      case Ok(reg', dev') => InitFrom(d, m, n + 1, dev', reg', o)
      case Err(e) =>
        if step.checked then
          Failed(ReleaseAll(step.undo, m, dev, reg), dev, n, if step.code == [] then e else step.code[0])
        else InitFrom(d, m, n + 1, dev, reg, o)
  }

  /** One unfolding of the script: the next call and what follows it. */
  lemma Unfold(d: Script, m: ModuleId, n: nat, dev: Dev, reg: set<Entry>, o: nat -> Outcome)
    requires n < |d.steps|
    ensures InitFrom(d, m, n, dev, reg, o) ==
      match Acquire(d.steps[n].kind, d.fixed, m, dev, reg, o(n))
      case Ok(reg', dev') => InitFrom(d, m, n + 1, dev', reg', o)
      case Err(e) =>
        if d.steps[n].checked then
          Failed(ReleaseAll(d.steps[n].undo, m, dev, reg), dev, n, if d.steps[n].code == [] then e else d.steps[n].code[0])
        else InitFrom(d, m, n + 1, dev, reg, o)
  {}

  function Init(d: Script, m: ModuleId, dev: Dev, reg: set<Entry>, o: nat -> Outcome): (r: InitResult)
    ensures r.Failed? ==> r.at < |d.steps| && d.steps[r.at].checked
    ensures r.Failed? && d.steps[r.at].code != [] ==> r.code == d.steps[r.at].code[0]
  {
    InitFrom(d, m, 0, dev, reg, o)
  }

  /** The registry when a module may be loaded: it holds nothing yet. */
  ghost predicate MayLoad(m: ModuleId, reg: set<Entry>) {
    Disjoint(reg) && forall e <- reg :: e.owner != m
  }

  /** The kinds the kernel granted among the first n steps. */
  function Granted(d: Script, n: nat, o: nat -> Outcome): set<Kind>
    requires n <= |d.steps|
  {
    if n == 0 then {}
    else
      var k := d.steps[n - 1].kind;
      Granted(d, n - 1, o) + if o(n - 1).Succeed? && k != Lookup then {k} else {}
  }

  function Entries(ks: set<Kind>, m: ModuleId, dev: Dev): set<Entry> {
    set k | k in ks && k != Lookup :: EntryOf(k, m, dev)
  }

  lemma {:induction false} GrantedInStack(d: Script, n: nat, o: nat -> Outcome, k: Kind)
    requires n <= |d.steps| && k in Granted(d, n, o)
    ensures k in Stack(d, n)
  {
    if k in Granted(d, n - 1, o) {
      GrantedInStack(d, n - 1, o, k);
    }
  }

  /** Releasing one kind from a registry where m holds exactly `ks`. */
  lemma ReleaseOne(k: Kind, ks: set<Kind>, m: ModuleId, dev: Dev, reg: set<Entry>)
    requires (forall e <- reg :: e.owner != m) && k != Lookup
    requires k == Region ==> RegionFree(reg, dev, 1)
    ensures Release(k, m, dev, reg + Entries(ks, m, dev)) == reg + Entries(ks - {k}, m, dev)
  {
    var all := reg + Entries(ks, m, dev);
    var left := Release(k, m, dev, all);
    forall e
      ensures e in left <==> e in reg + Entries(ks - {k}, m, dev)
    {
      if e in reg && e.RegionEntry? && k == Region && e.first == dev && e.count == 1 {
        assert Overlaps(e.first, e.count, dev, 1);
        assert false;
      }
      if e in Entries(ks, m, dev) {
        assert e == EntryOf(KindOf(e), m, dev);
      }
    }
  }

  lemma {:induction false} ReleaseMany(undo: seq<Kind>, ks: set<Kind>, m: ModuleId, dev: Dev, reg: set<Entry>)
    requires forall e <- reg :: e.owner != m
    requires Lookup !in undo && (Region in undo ==> RegionFree(reg, dev, 1))
    ensures ReleaseAll(undo, m, dev, reg + Entries(ks, m, dev)) == reg + Entries(ks - Kinds(undo), m, dev)
  {
    if undo == [] {
      assert ks - Kinds(undo) == ks;
    } else {
      ReleaseOne(undo[0], ks, m, dev, reg);
      ReleaseMany(undo[1..], ks - {undo[0]}, m, dev, reg);
      assert ks - {undo[0]} - Kinds(undo[1..]) == ks - Kinds(undo);
    }
  }

  /** What m holds after n granted-or-ignored steps, seen from the registry at entry. */
  ghost predicate Reached(d: Script, m: ModuleId, n: nat, dev: Dev, reg0: set<Entry>, reg: set<Entry>, o: nat -> Outcome)
    requires n <= |d.steps|
  {
    && MayLoad(m, reg0)
    && reg == reg0 + Entries(Granted(d, n, o), m, dev)
    && (Region in Stack(d, n) ==> RegionFree(reg0, dev, 1))
  }

  lemma ReachedNext(d: Script, m: ModuleId, n: nat, dev: Dev, reg0: set<Entry>, reg: set<Entry>, o: nat -> Outcome)
    requires WellFormed(d) && n < |d.steps| && Reached(d, m, n, dev, reg0, reg, o)
    ensures match Acquire(d.steps[n].kind, d.fixed, m, dev, reg, o(n))
      case Ok(reg', dev') => Reached(d, m, n + 1, dev', reg0, reg', o)
      case Err(_) => d.steps[n].checked || Reached(d, m, n + 1, dev, reg0, reg, o)
  {
    var k := KindAt(d, n);
    StackMembers(d, n, k);
    match Acquire(k, d.fixed, m, dev, reg, o(n))
    case Err(_) =>
    case Ok(reg', dev') =>
      var before := Granted(d, n, o);
      if k == Region {
        forall h | h in before
          ensures h != Lookup && EntryOf(h, m, dev) == EntryOf(h, m, dev')
        {
          GrantedInStack(d, n, o, h);
          NoDevBeforeRegion(d, n, h);
        }
        assert Entries(before, m, dev) == Entries(before, m, dev');
      }
      if k != Lookup {
        assert Entries(before + {k}, m, dev') == Entries(before, m, dev') + {EntryOf(k, m, dev')};
      }
  }

  lemma NoDevBeforeRegion(d: Script, n: nat, h: Kind)
    requires WellFormed(d) && n < |d.steps| && d.steps[n].kind == Region && h in Stack(d, n)
    ensures h !in {Region, Node, Cdev, Lookup}
  {
    StackMembers(d, n, h);
    var i :| 0 <= i < n && KindAt(d, i) == h;
    assert KindAt(d, n) == Region;
    if h in {Node, Cdev} {
      StackMembers(d, i, Region);
      assert false;
    }
  }

  lemma UndoReleasesRealKinds(d: Script, n: nat)
    requires WellFormed(d) && n < |d.steps|
    ensures Lookup !in d.steps[n].undo
    ensures Region in d.steps[n].undo ==> Region in Stack(d, n)
  {
    assert UndoSane(d, n);
    StackMembers(d, n, Lookup);
  }

  // ------------------------------------------------------------ the theorems, for every script

  /** On success m holds exactly what was granted; on failure exactly what was granted
      before the failing step and is not released by its branch. */
  ghost predicate Accounted(d: Script, m: ModuleId, reg0: set<Entry>, o: nat -> Outcome, r: InitResult) {
    if r.Loaded? then
      Reached(d, m, |d.steps|, r.dev, reg0, r.reg, o)
    else
      && r.at < |d.steps|
      && Reached(d, m, r.at, r.dev, reg0, reg0 + Entries(Granted(d, r.at, o), m, r.dev), o)
      && r.reg == reg0 + Entries(Granted(d, r.at, o) - Kinds(d.steps[r.at].undo), m, r.dev)
  }

  lemma {:induction false} InitOutcomeFrom(d: Script, m: ModuleId, n: nat, dev: Dev, reg0: set<Entry>, reg: set<Entry>,
                                           o: nat -> Outcome)
    requires WellFormed(d) && n <= |d.steps| && Reached(d, m, n, dev, reg0, reg, o)
    ensures Accounted(d, m, reg0, o, InitFrom(d, m, n, dev, reg, o))
    decreases |d.steps| - n
  {
    if n < |d.steps| {
      var step := d.steps[n];
      ReachedNext(d, m, n, dev, reg0, reg, o);
      match Acquire(step.kind, d.fixed, m, dev, reg, o(n))
      case Ok(reg', dev') => InitOutcomeFrom(d, m, n + 1, dev', reg0, reg', o);
      case Err(_) =>
        if step.checked {
          UndoReleasesRealKinds(d, n);
          ReleaseMany(step.undo, Granted(d, n, o), m, dev, reg0);
        } else {
          InitOutcomeFrom(d, m, n + 1, dev, reg0, reg, o);
        }
    }
  }

  /** A load gets past a checked step only if the kernel granted it. */
  lemma {:induction false} CheckedWereGranted(d: Script, m: ModuleId, n: nat, dev: Dev, reg: set<Entry>, o: nat -> Outcome,
                                              i: nat)
    requires n <= i < |d.steps| && d.steps[i].checked
    requires var r := InitFrom(d, m, n, dev, reg, o); r.Loaded? || i < r.at
    ensures o(i).Succeed?
    decreases |d.steps| - n
  {
    match Acquire(d.steps[n].kind, d.fixed, m, dev, reg, o(n))
    case Ok(reg', dev') => if n < i { CheckedWereGranted(d, m, n + 1, dev', reg', o, i); }
    case Err(_) => if n < i { CheckedWereGranted(d, m, n + 1, dev, reg, o, i); }
  }

  lemma {:induction false} SucceededIsGranted(d: Script, n: nat, o: nat -> Outcome, i: nat)
    requires i < n <= |d.steps| && o(i).Succeed? && d.steps[i].kind != Lookup
    ensures d.steps[i].kind in Granted(d, n, o)
  {
    if i < n - 1 {
      SucceededIsGranted(d, n - 1, o, i);
    }
  }

  /** The only region that reg' may have and reg has not is m's, at that number. */
  ghost predicate AtMostRegion(m: ModuleId, number: Dev, reg: set<Entry>, reg': set<Entry>) {
    forall e <- reg' :: e.RegionEntry? ==> e in reg || e == RegionEntry(m, number, 1)
  }

  /** Nothing but a taken number keeps a load from succeeding when the kernel refuses
      nothing of its own accord, and the only region it adds is the wanted one. */
  lemma {:induction false} LoadsWhenFree(d: Script, m: ModuleId, n: nat, dev: Dev, reg: set<Entry>, o: nat -> Outcome,
                                         major: nat)
    requires WellFormed(d) && n <= |d.steps| && forall i: nat :: o(i) == Succeed(major)
    requires Region in Stack(d, n) || RegionFree(reg, Wanted(d.fixed, major), 1)
    ensures var r := InitFrom(d, m, n, dev, reg, o);
            r.Loaded? && AtMostRegion(m, Wanted(d.fixed, major), reg, r.reg)
    decreases |d.steps| - n
  {
    if n < |d.steps| {
      var k := KindAt(d, n);
      assert k == Region ==> Region !in Stack(d, n) by {
        if k == Region { StackHas(d, n, n); }
      }
      Unfold(d, m, n, dev, reg, o);
      var a := Acquire(k, d.fixed, m, dev, reg, o(n));
      assert a.Ok?;
      assert AtMostRegion(m, Wanted(d.fixed, major), reg, a.reg);
      assert Region in Stack(d, n + 1) || RegionFree(a.reg, Wanted(d.fixed, major), 1);
      LoadsWhenFree(d, m, n + 1, a.dev, a.reg, o, major);
    }
  }

  /** The failure branch of step `at` releases everything granted before it. */
  predicate Covered(d: Script, at: nat, o: nat -> Outcome)
    requires at < |d.steps|
  {
    forall k <- Granted(d, at, o) :: k in d.steps[at].undo
  }

  /** What an init function leaves behind, whatever its failure branches do, and exactly
      when a failed one leaves nothing. */
  lemma InitOutcome(d: Script, m: ModuleId, dev: Dev, reg: set<Entry>, o: nat -> Outcome)
    requires WellFormed(d) && MayLoad(m, reg)
    ensures Accounted(d, m, reg, o, Init(d, m, dev, reg, o))
    ensures var r := Init(d, m, dev, reg, o); r.Failed? ==> (r.reg == reg <==> Covered(d, r.at, o))
  {
    assert reg + Entries({}, m, dev) == reg;
    InitOutcomeFrom(d, m, 0, dev, reg, reg, o);
    var r := Init(d, m, dev, reg, o);
    if r.Failed? {
      var kept := Granted(d, r.at, o) - Kinds(d.steps[r.at].undo);
      if k :| k in kept {
        GrantedInStack(d, r.at, o, k);
        StackMembers(d, r.at, k);
        assert EntryOf(k, m, r.dev) in Entries(kept, m, r.dev);
        assert EntryOf(k, m, r.dev) !in reg;
      } else {
        forall k | k in Granted(d, r.at, o)
          ensures k in d.steps[r.at].undo
        {
          assert k !in kept;
        }
        assert Entries(kept, m, r.dev) == {};
      }
    }
  }

  /** Complete failure branches make a failed load atomic, for scripts of any length. */
  lemma FailedInitIsAtomic(d: Script, m: ModuleId, dev: Dev, reg: set<Entry>, o: nat -> Outcome)
    requires WellFormed(d) && MayLoad(m, reg) && Init(d, m, dev, reg, o).Failed?
    requires UndoComplete(d, Init(d, m, dev, reg, o).at)
    ensures Init(d, m, dev, reg, o).reg == reg
  {
    InitOutcome(d, m, dev, reg, o);
    var at := Init(d, m, dev, reg, o).at;
    forall k | k in Granted(d, at, o)
      ensures k in d.steps[at].undo
    {
      GrantedInStack(d, at, o, k);
    }
  }

  /** Loading and then unloading is the identity, also when an unchecked step failed. */
  lemma ExitUndoesInit(d: Script, m: ModuleId, dev: Dev, reg: set<Entry>, o: nat -> Outcome)
    requires WellFormed(d) && d.exit == Stack(d, |d.steps|) && MayLoad(m, reg) && Init(d, m, dev, reg, o).Loaded?
    ensures var r := Init(d, m, dev, reg, o); ReleaseAll(d.exit, m, r.dev, r.reg) == reg
  {
    assert reg + Entries({}, m, dev) == reg;
    InitOutcomeFrom(d, m, 0, dev, reg, reg, o);
    var r := Init(d, m, dev, reg, o);
    var granted := Granted(d, |d.steps|, o);
    StackMembers(d, |d.steps|, Lookup);
    ReleaseMany(d.exit, granted, m, r.dev, reg);
    forall k | k in granted
      ensures k in d.exit
    {
      GrantedInStack(d, |d.steps|, o, k);
    }
    assert granted - Kinds(d.exit) == {};
  }
}
