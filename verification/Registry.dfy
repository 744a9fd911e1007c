/** The kernel state the character drivers share, and the kernel calls that acquire
    and release pieces of it. */
module Registry {
  type ModuleId = nat
  type Errno = e: int | e < 0 witness -1

  const EBUSY: Errno := -16
  const ENOMEM: Errno := -12
  const EOPNOTSUPP: Errno := -95

  datatype Dev = Dev(major: nat, minor: nat)

  /** What one call acquires. `Lookup` (finding an SPI device) acquires nothing. */
  datatype Kind = BusDriver | Region | Class | Node | CdevObject | Cdev | Lookup

  datatype Entry =
    | BusEntry(owner: ModuleId)
    | RegionEntry(owner: ModuleId, first: Dev, count: nat)
    | ClassEntry(owner: ModuleId)
    | NodeEntry(owner: ModuleId, dev: Dev)
    | CdevObjectEntry(owner: ModuleId)
    | CdevEntry(owner: ModuleId, dev: Dev, count: nat)

  function KindOf(e: Entry): Kind {
    match e
    case BusEntry(_) => BusDriver
    case RegionEntry(_, _, _) => Region
    case ClassEntry(_) => Class
    case NodeEntry(_, _) => Node
    case CdevObjectEntry(_) => CdevObject
    case CdevEntry(_, _, _) => Cdev
  }

  /** The entry module m holds for a kind; every driver here asks for a single device number. */
  function EntryOf(k: Kind, m: ModuleId, dev: Dev): (e: Entry)
    requires k != Lookup
    ensures KindOf(e) == k && e.owner == m
  {
    match k
    case BusDriver => BusEntry(m)
    case Region => RegionEntry(m, dev, 1)
    case Class => ClassEntry(m)
    case Node => NodeEntry(m, dev)
    case CdevObject => CdevObjectEntry(m)
    case Cdev => CdevEntry(m, dev, 1)
  }

  predicate Overlaps(a: Dev, n: nat, b: Dev, k: nat) {
    a.major == b.major && a.minor < b.minor + k && b.minor < a.minor + n
  }

  predicate RegionFree(reg: set<Entry>, dev: Dev, count: nat) {
    forall e <- reg :: e.RegionEntry? ==> !Overlaps(e.first, e.count, dev, count)
  }

  /** No two device-number regions in the registry overlap. */
  ghost predicate Disjoint(reg: set<Entry>) {
    && (forall e <- reg :: e.RegionEntry? ==> e.count > 0)
    && forall a, b :: a in reg && b in reg && a.RegionEntry? && b.RegionEntry? && a != b
         ==> !Overlaps(a.first, a.count, b.first, b.count)
  }

  /** What the kernel will answer: an error of its own, or success (with the major number
      it would pick, should the call be `alloc_chrdev_region`). */
  datatype Outcome = Fail(errno: Errno) | Succeed(major: nat)

  datatype Answer = Err(errno: Errno) | Ok(reg: set<Entry>, dev: Dev)

  /** The number a module is after: the fixed one, or the one the kernel picks. */
  function Wanted(fixed: seq<Dev>, major: nat): Dev {
    if fixed != [] then fixed[0] else Dev(major, 0)
  }

  /** One acquiring call. `fixed` is the number asked for (`register_chrdev_region`), if any;
      a region is refused when any part of it is taken, whatever else the kernel decides. */
  function Acquire(k: Kind, fixed: seq<Dev>, m: ModuleId, dev: Dev, reg: set<Entry>, o: Outcome): Answer {
    if o.Fail? then Err(o.errno)
    else match k
      case Lookup => Ok(reg, dev)
      case Region =>
        var wanted := Wanted(fixed, o.major);
        if RegionFree(reg, wanted, 1) then Ok(reg + {EntryOf(Region, m, wanted)}, wanted) else Err(EBUSY)
      case _ => Ok(reg + {EntryOf(k, m, dev)}, dev)
  }

  /** One releasing call. `unregister_chrdev_region` goes by device number only, whoever
      registered it; the others go by the module's own object and, where it has one, the
      number it was last given. */
  function Release(k: Kind, m: ModuleId, dev: Dev, reg: set<Entry>): (r: set<Entry>)
    ensures r <= reg
  {
    if k == Region then set e | e in reg && !(e.RegionEntry? && e.first == dev && e.count == 1)
    else if k == Lookup then reg
    else reg - {EntryOf(k, m, dev)}
  }

  function ReleaseAll(ks: seq<Kind>, m: ModuleId, dev: Dev, reg: set<Entry>): (r: set<Entry>)
    ensures r <= reg
  {
    if ks == [] then reg else ReleaseAll(ks[1..], m, dev, Release(ks[0], m, dev, reg))
  }

  /** What asking for a number comes to: it is granted exactly when the kernel agrees and
      the number lies in nobody's range; then exactly one region is new and it is the
      asker's. A taken number is EBUSY. */
  lemma RegionGranted(fixed: seq<Dev>, m: ModuleId, dev: Dev, reg: set<Entry>, o: Outcome)
    ensures o.Succeed? ==>
      var a := Acquire(Region, fixed, m, dev, reg, o);
      var number := if fixed != [] then fixed[0] else Dev(o.major, 0);
      && (a.Ok? <==> forall e <- reg :: e.RegionEntry? && e.first.major == number.major ==>
            !(e.first.minor <= number.minor < e.first.minor + e.count))
      && (a.Ok? ==> a.dev == number && a.reg == reg + {RegionEntry(m, number, 1)} && RegionEntry(m, number, 1) !in reg)
      && (a.Err? ==> a.errno == -16)
    ensures o.Fail? ==> Acquire(Region, fixed, m, dev, reg, o) == Err(o.errno)
    ensures var a := Acquire(Region, fixed, m, dev, reg, o); a.Ok? && Disjoint(reg) ==> Disjoint(a.reg)
  {
    if o.Succeed? {
      FreeInNumbers(reg, Wanted(fixed, o.major));
    }
  }

  /** A number is free when it lies in nobody's range. */
  lemma FreeInNumbers(reg: set<Entry>, number: Dev)
    ensures RegionFree(reg, number, 1)
       <==> forall e <- reg :: e.RegionEntry? && e.first.major == number.major ==>
              !(e.first.minor <= number.minor < e.first.minor + e.count)
  {
    forall e | e in reg && e.RegionEntry?
      ensures Overlaps(e.first, e.count, number, 1)
         <==> e.first.major == number.major && e.first.minor <= number.minor < e.first.minor + e.count
    {}
  }

  /** Disjointness in numbers: ranges under one major lie wholly before or behind each other. */
  lemma DisjointRanges(reg: set<Entry>)
    ensures Disjoint(reg)
       <==> && (forall e <- reg :: e.RegionEntry? ==> e.count > 0)
            && forall a, b :: a in reg && b in reg && a.RegionEntry? && b.RegionEntry? && a != b
                 && a.first.major == b.first.major
                 ==> a.first.minor + a.count <= b.first.minor || b.first.minor + b.count <= a.first.minor
  {}

  /** What giving back does: `unregister_chrdev_region` takes the region of that one number
      away whoever owns it, every other call one entry of the caller's own. */
  lemma Released(k: Kind, m: ModuleId, dev: Dev, reg: set<Entry>, e: Entry)
    ensures e in Release(k, m, dev, reg) <==> e in reg && match k
      case BusDriver => e != BusEntry(m)
      case Region => !(e.RegionEntry? && e.first == dev && e.count == 1)
      case Class => e != ClassEntry(m)
      case Node => e != NodeEntry(m, dev)
      case CdevObject => e != CdevObjectEntry(m)
      case Cdev => e != CdevEntry(m, dev, 1)
      case Lookup => true
  {}

  /** The registry as an object the drivers call into. */
  class Kernel {
    var registry: set<Entry>

    constructor (registry: set<Entry>)
      ensures this.registry == registry
    {
      this.registry := registry;
    }

    /** `alloc_chrdev_region`, or `register_chrdev_region` when a number is fixed. */
    method AskRegion(fixed: seq<Dev>, m: ModuleId, dev: Dev, o: Outcome) returns (ret: int, got: Dev)
      modifies this
      ensures match Acquire(Region, fixed, m, dev, old(registry), o)
        case Err(e) => ret == e && got == dev && registry == old(registry)
        case Ok(reg, d) => ret == 0 && got == d && registry == reg
    {
      match Acquire(Region, fixed, m, dev, registry, o)
      case Err(e) => ret, got := e, dev;
      case Ok(reg, d) => ret, got, registry := 0, d, reg;
    }

    /** Any other acquiring call: it leaves the caller's device number alone. */
    method Ask(k: Kind, m: ModuleId, dev: Dev, o: Outcome) returns (ret: int)
      requires k != Region
      modifies this
      ensures forall fixed :: match Acquire(k, fixed, m, dev, old(registry), o)
        case Err(e) => ret == e && registry == old(registry)
        case Ok(reg, d) => ret == 0 && d == dev && registry == reg
    {
      match Acquire(k, [], m, dev, registry, o)
      case Err(e) => ret := e;
      case Ok(reg, _) => ret, registry := 0, reg;
    }

    method Return(k: Kind, m: ModuleId, dev: Dev)
      modifies this
      ensures registry == Release(k, m, dev, old(registry))
    {
      registry := Release(k, m, dev, registry);
    }
  }
}
