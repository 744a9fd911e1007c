/** What user space sees of two drivers: the shared value behind etx's ioctls
    (Ioctl_kernel_device_driver.c) and the SPI driver's read (CharSpiKS.c). */
module CharIo {
  import opened Ownership

  type Int32 = v: int | -0x8000_0000 <= v < 0x8000_0000

  const EFAULT := -14

  /** A call on an open handle. `copied` says whether the user-space copy went through; one
      that did not is taken to have moved nothing. */
  datatype Call =
    | Open
    | Close
    | Read(len: nat)
    | Write(len: nat)
    | WrValue(v: Int32, copied: bool)
    | RdValue(copied: bool)
    | UnknownIoctl

  datatype Request = Request(handle: nat, call: Call)

  /** The return value, and what reached user space. */
  datatype Reply = Reply(ret: int, delivered: seq<Int32>)

  predicate Stores(r: Request) {
    r.call.WrValue? && r.call.copied
  }

  /** The value of the latest write that went through, by any handle; 0 before there is one. */
  function Latest(history: seq<Request>): Int32 {
    if history == [] then 0
    else
      var last := history[|history| - 1];
      if Stores(last) then last.call.v else Latest(history[..|history| - 1])
  }

  lemma {:induction false} LatestIsTheLastStore(history: seq<Request>, j: nat)
    requires j < |history| && history[j].call.WrValue? && history[j].call.copied
    requires forall i :: j < i < |history| ==> !(history[i].call.WrValue? && history[i].call.copied)
    ensures Latest(history) == history[j].call.v
  {
    if j < |history| - 1 {
      LatestIsTheLastStore(history[..|history| - 1], j);
    }
  }

  lemma {:induction false} LatestOfNone(history: seq<Request>)
    requires forall r <- history :: !(r.call.WrValue? && r.call.copied)
    ensures Latest(history) == 0
  {
    if history != [] {
      LatestOfNone(history[..|history| - 1]);
    }
  }

  /** What a call is answered, after the calls in the history. */
  function Answer(history: seq<Request>, r: Request): Reply {
    Reply(if r.call.Write? then r.call.len else 0, if r.call == RdValue(true) then [Latest(history)] else [])
  }

  class EtxDevice {
    var value: Int32

    constructor ()
      ensures value == 0
    {
      value := 0;
    }

    /** The file operations. An ioctl returns 0 whether or not its copy went through. */
    method Handle(r: Request) returns (reply: Reply)
      modifies this
      ensures value == if r.call.WrValue? && r.call.copied then r.call.v else old(value)
      ensures reply.delivered == if r.call == RdValue(true) then [old(value)] else []
      ensures reply.ret == if r.call.Write? then r.call.len else 0
    {
      reply := Reply(0, []);
      match r.call
      case Write(len) => reply := Reply(len, []);
      case WrValue(v, copied) =>
        if copied {
          value := v;
        }
      case RdValue(copied) =>
        if copied {
          reply := Reply(0, [value]);
        }
      case _ =>
    }

    /** Over every run of calls on any number of handles, a read that goes through delivers
        the latest value whose write went through. */
    method Serve(run: seq<Request>) returns (replies: seq<Reply>)
      requires value == 0
      modifies this
      ensures |replies| == |run| && value == Latest(run)
      ensures forall i :: 0 <= i < |run| ==>
        replies[i].delivered == if run[i].call == RdValue(true) then [Latest(run[..i])] else []
      ensures forall i :: 0 <= i < |run| ==> replies[i].ret == if run[i].call.Write? then run[i].call.len else 0
    {
      replies := [];
      for n := 0 to |run|
        invariant |replies| == n && value == Latest(run[..n])
        invariant forall i :: 0 <= i < n ==> replies[i] == Answer(run[..i], run[i])
      {
        assert run[..n + 1][..n] == run[..n];
        var reply := Handle(run[n]);
        replies := replies + [reply];
      }
      assert run[..|run|] == run;
    }
  }

  /** `spi_char_read`: at most the transferred bytes are copied out, and the transfer
      buffer is freed exactly once on every path that got one. */
  method SpiCharRead(ledger: Ledger, data: seq<int>, transfers: bool, copies: bool, count: nat)
    returns (ret: int, delivered: seq<int>)
    requires ledger.Valid() && |data| == 16
    modifies ledger
    ensures ledger.Valid() && ledger.live == old(ledger.live) && ledger.sent == old(ledger.sent)
    ensures ledger.freed == old(ledger.freed) + if transfers then multiset{old(ledger.next)} else multiset{}
    ensures ret >= 0 <==> transfers && copies
    ensures ret >= 0 ==> ret == (if count < 16 then count else 16) && delivered == data[..ret]
    ensures ret < 0 ==> ret == -14 && delivered == []
  {
    delivered := [];
    if !transfers {
      return EFAULT, [];
    }
    var spiData := ledger.Alloc();
    var n := if count < DATA_SIZE then count else DATA_SIZE;
    if !copies {
      ledger.Free(spiData);
      return EFAULT, [];
    }
    delivered := data[..n];
    ledger.Free(spiData);
    ret := n;
  }
}
