/** The celebration message: the message of the highest milestone threshold that the new count
    reaches, or a fallback below the first threshold. It depends on the new count alone. */
module Milestones {

  const Thresholds: seq<int> := [1, 5, 10, 25, 50, 100]

  const Messages: seq<string> := [
    "Great start!",
    "Keep it up!",
    "You're on fire!",
    "Amazing dedication!",
    "Incredible milestone!",
    "Truly inspiring!"
  ]

  const Fallback: string := "Well done!"

  ghost predicate StrictlyAscending(ts: seq<int>) {
    forall i, j :: 0 <= i < j < |ts| ==> ts[i] < ts[j]
  }

  /** How many thresholds the count reaches. */
  function Reached(ts: seq<int>, count: int): (k: nat)
    ensures k <= |ts|
  {
    if ts == [] then 0 else (if ts[0] <= count then 1 else 0) + Reached(ts[1..], count)
  }

  /** Over ascending thresholds the reached ones are exactly a prefix. */
  lemma {:induction false} ReachedIsPrefix(ts: seq<int>, count: int)
    requires StrictlyAscending(ts)
    ensures forall i :: 0 <= i < Reached(ts, count) ==> ts[i] <= count
    ensures forall i :: Reached(ts, count) <= i < |ts| ==> count < ts[i]
  {
    if ts != [] {
      var tail := ts[1..];
      assert StrictlyAscending(tail);
      ReachedIsPrefix(tail, count);
      forall i | 0 <= i < |tail| ensures tail[i] == ts[i + 1] && ts[0] < ts[i + 1] { }
    }
  }

  lemma {:induction false} ReachedMonotone(ts: seq<int>, n: int, m: int)
    requires n <= m
    ensures Reached(ts, n) <= Reached(ts, m)
  {
    if ts != [] {
      ReachedMonotone(ts[1..], n, m);
    }
  }

  /** The index of the highest threshold at or below `count`, or -1 when there is none. */
  function MilestoneIndex(count: int): (r: int)
    ensures -1 <= r < |Thresholds|
    ensures r >= 0 ==> Thresholds[r] <= count
    ensures forall j :: r < j < |Thresholds| ==> count < Thresholds[j]
  {
    ReachedIsPrefix(Thresholds, count);
    Reached(Thresholds, count) - 1
  }

  /** The message shown for a new count. */
  function MessageFor(count: int): (r: string)
    ensures count < Thresholds[0] <==> r == Fallback
    ensures r == Fallback || r in Messages
  {
    var i := MilestoneIndex(count);
    if i < 0 then Fallback else Messages[i]
  }

  /** `getMessage`: walk the table from the top down and return the first message whose threshold
      the count reaches. */
  method GetMessage(count: int) returns (message: string)
    ensures message == MessageFor(count)
    ensures count < Thresholds[0] ==> message == Fallback
    ensures forall i :: 0 <= i < |Thresholds| && Thresholds[i] <= count
                        && (forall j :: i < j < |Thresholds| ==> count < Thresholds[j])
                        ==> message == Messages[i]
  {
    var i := |Thresholds| - 1;
    while i >= 0
      invariant -1 <= i < |Thresholds|
      invariant forall j :: i < j < |Thresholds| ==> count < Thresholds[j]
    {
      if count >= Thresholds[i] {
        return Messages[i];
      }
      i := i - 1;
    }
    return Fallback;
  }

  /** A larger count never selects a lower milestone. */
  lemma MilestoneMonotone(n: int, m: int)
    requires n <= m
    ensures MilestoneIndex(n) <= MilestoneIndex(m)
  {
    ReachedMonotone(Thresholds, n, m);
  }

  lemma MessageExamples()
    ensures MessageFor(0) == "Well done!"
    ensures MessageFor(1) == "Great start!" && MessageFor(4) == "Great start!"
    ensures MessageFor(5) == "Keep it up!"
    ensures MessageFor(10) == "You're on fire!"
    ensures MessageFor(25) == "Amazing dedication!"
    ensures MessageFor(50) == "Incredible milestone!"
  {
    assert MilestoneIndex(0) == -1;
    assert MilestoneIndex(1) == 0 && MilestoneIndex(4) == 0;
    assert MilestoneIndex(5) == 1 && MilestoneIndex(10) == 2;
    assert MilestoneIndex(25) == 3 && MilestoneIndex(50) == 4;
  }

  /** Every count from the top threshold on gets the top message. */
  lemma MessageFromHundred(n: int)
    requires n >= 100
    ensures MessageFor(n) == "Truly inspiring!"
  {
    assert Thresholds[5] <= n;
    assert MilestoneIndex(n) == 5;
  }
}
