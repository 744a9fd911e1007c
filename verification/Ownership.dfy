/** Who owns the kernel memory the network paths handle: socket buffers, kmalloc'ed
    buffers and the data handed over by the SPI transfer. */
module Ownership {
  type Handle = nat

  /** What one SPI transfer hands over, in bytes. */
  const DATA_SIZE := 16

  /** What a receive function reports. */
  datatype Verdict = Drop | Success

  /** Handle h was released exactly once, by `kfree` or by hand-off and never both, or it
      is live, or it was not allocated yet. */
  ghost predicate InOrder(h: Handle, next: Handle, live: set<Handle>, freed: multiset<Handle>, sent: multiset<Handle>) {
    freed[h] + sent[h] == if h < next && h !in live then 1 else 0
  }

  class Ledger {
    var next: Handle
    var live: set<Handle>
    var freed: multiset<Handle>
    var sent: multiset<Handle>

    /** Everything ever allocated is either live, or was released exactly once. */
    ghost predicate Valid()
      reads this
    {
      && (forall h <- live :: h < next)
      && forall h: Handle :: InOrder(h, next, live, freed, sent)
    }

    constructor ()
      ensures Valid() && next == 0
    {
      next, live, freed, sent := 0, {}, multiset{}, multiset{};
    }

    method Alloc() returns (h: Handle)
      requires Valid()
      modifies this
      ensures Valid()
      ensures h == old(next) && next == h + 1 && live == old(live) + {h} && h !in old(live)
      ensures freed == old(freed) && sent == old(sent)
    {
      ghost var was := live;
      h := next;
      next, live := next + 1, live + {next};
      forall k: Handle
        ensures InOrder(k, next, live, freed, sent)
      {
        assert InOrder(k, h, was, freed, sent);
      }
    }

    /** `kfree`, `dev_kfree_skb`. Only live memory may be freed. */
    method Free(h: Handle)
      requires Valid() && h in live
      modifies this
      ensures Valid()
      ensures next == old(next) && live == old(live) - {h}
      ensures freed == old(freed) + multiset{h} && sent == old(sent)
    {
      ghost var was, wasFreed := live, freed;
      live, freed := live - {h}, freed + multiset{h};
      forall k: Handle
        ensures InOrder(k, next, live, freed, sent)
      {
        assert InOrder(k, next, was, wasFreed, sent);
      }
    }

    /** `dev_queue_xmit`: the queue owns the buffer from here on. */
    method HandOff(h: Handle)
      requires Valid() && h in live
      modifies this
      ensures Valid()
      ensures next == old(next) && live == old(live) - {h}
      ensures freed == old(freed) && sent == old(sent) + multiset{h}
    {
      ghost var was, wasSent := live, sent;
      live, sent := live - {h}, sent + multiset{h};
      forall k: Handle
        ensures InOrder(k, next, live, freed, sent)
      {
        assert InOrder(k, next, was, freed, wasSent);
      }
    }
  }
}
