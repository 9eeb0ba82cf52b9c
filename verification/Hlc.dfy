/** The hybrid logical timestamp of datacake-crdt/src/timestamp.rs as a tuple.

The time part counts units of 4 ms since the Datacake epoch, which is what the seconds and the
fraction fields of the packed form hold between them; `HlcCodec` relates the two forms. */
module Hlc {
  type NodeId = n: int | 0 <= n < 0x100
  type Count = c: int | 0 <= c < 0x1_0000

  datatype Stamp = Stamp(time: nat, counter: Count, node: NodeId) {
    /** Time decides, then the counter, then the node. */
    predicate Less(t: Stamp) {
      time < t.time || (time == t.time && (counter < t.counter || (counter == t.counter && node < t.node)))
    }

    predicate AtMost(t: Stamp) { !t.Less(this) }
  }

  function Max(a: nat, b: nat): nat { if a < b then b else a }

  function SaturatingSub(a: nat, b: nat): nat { if a < b then 0 else a - b }

  /** `new(0, 0, node)`, the smallest stamp of a node. */
  function Zero(n: NodeId): Stamp { Stamp(0, 0, n) }

  /** The stamp `compute_safe_last_stamp` derives from the smallest observed one: the forgiveness
  period is taken off the time, the counter stays. */
  function Shift(forgiveness: nat, t: Stamp): Stamp {
    Stamp(SaturatingSub(t.time, forgiveness), t.counter, t.node)
  }

  /** Shifting is monotone once the smaller time is past the forgiveness period. */
  lemma ShiftMonotone(f: nat, a: Stamp, b: Stamp)
    requires a.AtMost(b) && f <= a.time
    ensures Shift(f, a).AtMost(Shift(f, b))
  {
  }

  /** Below the forgiveness period it is not: one second with counter 1 shifts above two seconds
  with counter 0. */
  lemma ShiftNotMonotone()
    ensures exists f, a: Stamp, b: Stamp ::
              a.node == b.node && a.Less(b) && Shift(f, b).Less(Shift(f, a))
  {
    var a, b := Stamp(250, 1, 0), Stamp(500, 0, 0);
    assert a.Less(b) && Shift(900_000, b).Less(Shift(900_000, a));
  }
}
