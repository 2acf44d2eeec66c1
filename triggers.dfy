/**
 The reload triggers: the listener on the file watcher and the listener on
 SIGUSR1 with its ten-minute deadline, both feeding one queue of reload
 requests. A request is its `full` flag: `false` asks for an incremental
 reload, `true` for a full one.
 */
module Triggers {
  import opened Optional

  /** The operation flags of a raw file-watcher event. */
  datatype Op = Chmod | Create | Remove | Rename | Write | CloseWrite | Rescan

  /** A raw watcher event's operation: its flags, or the error the watcher attached instead. */
  datatype RawOp = OpError | Ops(flags: set<Op>)

  /** Why the signal listener woke: SIGUSR1 arrived, or the 600-second deadline passed. */
  datatype Wakeup = Usr1Signal | DeadlineElapsed

  /** What reaches the two listeners, in the order it arrives. */
  datatype Trigger =
    | FileEvent(op: RawOp)
    | WatcherError
    | Wake(why: Wakeup)

  /** The file listener: a write asks for an incremental reload; errors and other operations are dropped. */
  function FileRequest(op: RawOp): Option<bool>
  {
    if op.OpError? then None
    else if Write !in op.flags then None
    else Some(false)
  }

  /** The signal listener: every wakeup, by signal or by deadline, asks for a full reload. */
  function WakeRequest(why: Wakeup): bool
  {
    true
  }

  /** The request, if any, one trigger puts on the queue; a receive error on the watcher channel is only logged. */
  function Request(t: Trigger): Option<bool>
  {
    match t
    case FileEvent(op) => FileRequest(op)
    case WatcherError => None
    case Wake(why) => Some(WakeRequest(why))
  }

  /** The reload queue as the triggers fill it, in arrival order. */
  function Requests(triggers: seq<Trigger>): (r: seq<bool>)
    ensures |r| <= |triggers|
  {
    if triggers == [] then []
    else
      var rest := Requests(triggers[..|triggers| - 1]);
      match Request(triggers[|triggers| - 1])
      case None => rest
      case Some(full) => rest + [full]
  }

  predicate IsWrite(t: Trigger)
  {
    t.FileEvent? && t.op.Ops? && Write in t.op.flags
  }

  /** The positions of the wakeups among the triggers. */
  function Wakeups(triggers: seq<Trigger>): set<nat>
  {
    set i: nat | i < |triggers| && triggers[i].Wake?
  }

  /** The positions of the successful write events among the triggers. */
  function Writes(triggers: seq<Trigger>): set<nat>
  {
    set i: nat | i < |triggers| && IsWrite(triggers[i])
  }

  lemma PositionsSnoc(triggers: seq<Trigger>)
    requires triggers != []
    ensures var n := |triggers| - 1;
      && Wakeups(triggers) == Wakeups(triggers[..n]) + (if triggers[n].Wake? then {n} else {})
      && Writes(triggers) == Writes(triggers[..n]) + (if IsWrite(triggers[n]) then {n} else {})
      && n !in Wakeups(triggers[..n]) && n !in Writes(triggers[..n])
  {
  }

  /**
   Every wakeup puts exactly one full request on the queue, every write event
   exactly one incremental request, and nothing else puts anything there.
   */
  lemma {:induction false} RequestsTally(triggers: seq<Trigger>)
    ensures multiset(Requests(triggers))[true] == |Wakeups(triggers)|
    ensures multiset(Requests(triggers))[false] == |Writes(triggers)|
    ensures |Requests(triggers)| == |Wakeups(triggers)| + |Writes(triggers)|
  {
    if triggers != [] {
      var n := |triggers| - 1;
      RequestsTally(triggers[..n]);
      PositionsSnoc(triggers);
    }
  }
}
