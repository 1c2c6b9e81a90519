/** An abstract two-wire bus as the EPS 2.0 driver sees it: write
    transactions, a blocking delay and fixed-length read transactions to a
    7-bit subordinate address. The real bus hardware and the clock are not
    modelled; instead the bus records every operation in a ghost log, knows
    which addresses acknowledge, and serves the replies the subordinate device
    will give, in order. */
module I2c {

  /** One operation the driver performs on the bus. */
  datatype Event =
    | WriteTo(addr: int, data: seq<bv8>)
    | SleepMs(ms: nat)
    | ReadFrom(addr: int, nbytes: nat)

  class Bus {
    /** The addresses at which some device acknowledges. */
    const devices: set<int>
    /** The replies still to come, one per read transaction. */
    var replies: seq<seq<bv8>>
    /** Every operation performed on this bus so far. */
    ghost var log: seq<Event>

    constructor (devices: set<int>, replies: seq<seq<bv8>>)
      ensures this.devices == devices && this.replies == replies
      ensures log == []
    {
      this.devices := devices;
      this.replies := replies;
      log := [];
    }

    /** A read of `nbytes` from `addr` completes: the device acknowledges and
        has a reply of that length ready. */
    predicate CanRead(addr: int, nbytes: nat)
      reads this
    {
      addr in devices && replies != [] && |replies[0]| == nbytes
    }

    /** Writes `data` to `addr`; `acked` is false when no device acknowledges,
        the transport failure that the real bus raises. */
    method Write(addr: int, data: seq<bv8>) returns (acked: bool)
      modifies this
      ensures acked == (addr in devices)
      ensures log == old(log) + [WriteTo(addr, data)]
      ensures replies == old(replies)
    {
      acked := addr in devices;
      log := log + [WriteTo(addr, data)];
    }

    /** Blocks for `ms` milliseconds; nothing but the log changes. */
    method Sleep(ms: nat)
      modifies this
      ensures log == old(log) + [SleepMs(ms)]
      ensures replies == old(replies)
    {
      log := log + [SleepMs(ms)];
    }

    /** Reads `nbytes` from `addr`: on success the next queued reply, which is
        then consumed; otherwise a transport failure and nothing consumed. */
    method Read(addr: int, nbytes: nat) returns (acked: bool, data: seq<bv8>)
      modifies this
      ensures acked == old(CanRead(addr, nbytes))
      ensures acked ==> data == old(replies[0]) && |data| == nbytes && replies == old(replies[1..])
      ensures !acked ==> data == [] && replies == old(replies)
      ensures log == old(log) + [ReadFrom(addr, nbytes)]
    {
      acked := CanRead(addr, nbytes);
      if acked {
        data := replies[0];
        replies := replies[1..];
      } else {
        data := [];
      }
      log := log + [ReadFrom(addr, nbytes)];
    }
  }
}
