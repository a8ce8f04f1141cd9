/** The part of the test runner's run environment that the harness touches:
    its event log (messages, non-fatal failures, crashes), the instance count
    and the subnet handed to this test instance. */
module Runtime {
  import opened Base

  datatype Event =
    | Message(text: GoString)
    | Failure(text: GoString)
    | Crash(text: GoString)

  /** An IPv4 network (address and mask bytes), shared by reference. */
  class IPNet {
    var ip: seq<Byte>
    var mask: seq<Byte>

    constructor (ip: seq<Byte>, mask: seq<Byte>)
      ensures this.ip == ip && this.mask == mask
    {
      this.ip := ip;
      this.mask := mask;
    }
  }

  class RunEnv {
    const testSubnet: IPNet
    const testInstanceCount: nat
    /** Everything recorded so far, oldest first. */
    var events: seq<Event>

    constructor (testSubnet: IPNet, testInstanceCount: nat)
      ensures this.testSubnet == testSubnet && this.testInstanceCount == testInstanceCount
      ensures events == []
    {
      this.testSubnet := testSubnet;
      this.testInstanceCount := testInstanceCount;
      events := [];
    }

    method RecordMessage(msg: GoString)
      modifies this
      ensures events == old(events) + [Message(msg)]
    {
      events := events + [Message(msg)];
    }

    method RecordFailure(err: GoString)
      modifies this
      ensures events == old(events) + [Failure(err)]
    {
      events := events + [Failure(err)];
    }

    method RecordCrash(err: GoString)
      modifies this
      ensures events == old(events) + [Crash(err)]
    {
      events := events + [Crash(err)];
    }
  }
}
