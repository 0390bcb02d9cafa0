/** The bounded record queue as both its users see it (src/logger.rs): the answer of try_send and what
    the writer's error exit gives up. */
module RecordQueue {
  datatype Answer = Sent | QueueFull | ChannelClosed

  /** A closed queue refuses, then a full one. */
  function TrySend(length: nat, capacity: nat, closed: bool): Answer {
    if closed then ChannelClosed else if length >= capacity then QueueFull else Sent
  }

  /** The record in hand and everything still queued. */
  function GivenUp(length: nat): nat {
    1 + length
  }
}
