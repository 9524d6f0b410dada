/**
 * The frame-rate gate of the image listener (CameraFragment.kt): a frame
 * is admitted when at least minFrameIntervalMs = 1000 / MAX_FPS
 * milliseconds have passed since the last admitted frame, and admitting it
 * records its time. The clock reading is a parameter.
 */
module RateGate {
  /** MAX_FPS. */
  const MaxFps: int := 10

  /** minFrameIntervalMs = 1000L / MAX_FPS, integer division. */
  const MinFrameIntervalMs: int := 1000 / MaxFps

  /** The gate's decision for a frame at `now` when the last admitted frame was at `lastTs`. */
  predicate Admits(lastTs: int, now: int)
  {
    now - lastTs >= MinFrameIntervalMs
  }

  /**
   * The lastSentTs field and the check-then-set the listener performs on
   * it. The ghost fields record the times offered so far and those
   * admitted, so that Valid ties the field to Admitted and LastAdmitted.
   */
  class FrameGate {
    var lastSentTs: int
    ghost var offered: seq<int>
    ghost var admitted: seq<int>

    ghost predicate Valid()
      reads this
    {
      lastSentTs == LastAdmitted(0, offered) && admitted == Admitted(0, offered)
    }

    /** AtomicLong(0L). */
    constructor ()
      ensures Valid() && lastSentTs == 0 && offered == []
    {
      lastSentTs := 0;
      offered, admitted := [], [];
    }

    /** Reads lastSentTs, drops the frame when it is too soon, otherwise sets lastSentTs to now. */
    method Admit(now: int) returns (ok: bool)
      requires Valid()
      modifies this
      ensures Valid()
      ensures ok <==> now - old(lastSentTs) >= 100
      ensures lastSentTs == if ok then now else old(lastSentTs)
      ensures offered == old(offered) + [now]
      ensures admitted == old(admitted) + if ok then [now] else []
    {
      AdmittedSnoc(0, offered, now);
      offered := offered + [now];
      var lastTs := lastSentTs;
      if now - lastTs < MinFrameIntervalMs {
        return false;
      }
      lastSentTs := now;
      admitted := admitted + [now];
      return true;
    }
  }

  /** The times the gate admits out of `times`, starting from lastSentTs = `lastTs`. */
  function Admitted(lastTs: int, times: seq<int>): seq<int>
    decreases times
  {
    if times == [] then []
    else if Admits(lastTs, times[0]) then [times[0]] + Admitted(times[0], times[1..])
    else Admitted(lastTs, times[1..])
  }

  /** The value of lastSentTs after the gate has seen `times`. */
  function LastAdmitted(lastTs: int, times: seq<int>): int
    decreases times
  {
    if times == [] then lastTs
    else if Admits(lastTs, times[0]) then LastAdmitted(times[0], times[1..])
    else LastAdmitted(lastTs, times[1..])
  }

  /** One gate decision extends both the admitted times and the final state by one step. */
  lemma {:induction false} AdmittedSnoc(lastTs: int, times: seq<int>, t: int)
    ensures Admitted(lastTs, times + [t]) ==
      Admitted(lastTs, times) + (if Admits(LastAdmitted(lastTs, times), t) then [t] else [])
    ensures LastAdmitted(lastTs, times + [t]) ==
      if Admits(LastAdmitted(lastTs, times), t) then t else LastAdmitted(lastTs, times)
    decreases times
  {
    if times != [] {
      assert (times + [t])[1..] == times[1..] + [t];
      if Admits(lastTs, times[0]) {
        AdmittedSnoc(times[0], times[1..], t);
      } else {
        AdmittedSnoc(lastTs, times[1..], t);
      }
    }
  }

  /** Every admitted frame is among the offered ones, and there are no more of them: the gate only drops frames, it never invents one. */
  lemma {:induction false} AdmittedAmongOffered(lastTs: int, times: seq<int>)
    ensures |Admitted(lastTs, times)| <= |times|
    ensures forall i :: 0 <= i < |Admitted(lastTs, times)| ==> Admitted(lastTs, times)[i] in times
    decreases times
  {
    if times != [] {
      if Admits(lastTs, times[0]) {
        AdmittedAmongOffered(times[0], times[1..]);
      } else {
        AdmittedAmongOffered(lastTs, times[1..]);
      }
    }
  }

  /**
   * Admitted frames are at least 100 ms apart, and the first is at least
   * 100 ms after the starting lastSentTs.
   */
  lemma {:induction false} AdmittedSpaced(lastTs: int, times: seq<int>)
    ensures |Admitted(lastTs, times)| > 0 ==> Admitted(lastTs, times)[0] - lastTs >= 100
    ensures forall i :: 1 <= i < |Admitted(lastTs, times)| ==>
      Admitted(lastTs, times)[i] - Admitted(lastTs, times)[i - 1] >= 100
    decreases times
  {
    if times != [] {
      if Admits(lastTs, times[0]) {
        AdmittedSpaced(times[0], times[1..]);
        var all, rest := Admitted(lastTs, times), Admitted(times[0], times[1..]);
        assert all == [times[0]] + rest;
        forall i | 1 <= i < |all|
          ensures all[i] - all[i - 1] >= 100
        {
          assert all[i] == rest[i - 1];
          if i > 1 {
            assert all[i - 1] == rest[i - 2];
          }
        }
      } else {
        AdmittedSpaced(lastTs, times[1..]);
      }
    }
  }

  /** The rate bound: n admitted frames span at least 100*(n-1) ms, so no 1-second window holds more than 10 of them. */
  lemma {:induction false} AdmittedRate(lastTs: int, times: seq<int>, i: nat, j: nat)
    requires i <= j < |Admitted(lastTs, times)|
    ensures Admitted(lastTs, times)[j] - Admitted(lastTs, times)[i] >= MinFrameIntervalMs * (j - i)
    decreases j
  {
    if i < j {
      AdmittedRate(lastTs, times, i, j - 1);
      AdmittedSpaced(lastTs, times);
    }
  }

  /** Starting from 0, the times 1000, 1050, 1100, 1150 are admitted, dropped, admitted, dropped. */
  method AdmitExample() returns (decisions: seq<bool>)
    ensures decisions == [true, false, true, false]
  {
    var gate := new FrameGate();
    var a := gate.Admit(1000);
    var b := gate.Admit(1050);
    var c := gate.Admit(1100);
    var d := gate.Admit(1150);
    decisions := [a, b, c, d];
  }

  /** Starting from 0, the times 0, 50, 100, 150 admit only 100: a frame at time 0 is too soon after the initial 0. */
  lemma AdmittedFromZero()
    ensures Admitted(0, [0, 50, 100, 150]) == [100]
  {
    assert [0, 50, 100, 150][1..] == [50, 100, 150];
    assert [50, 100, 150][1..] == [100, 150];
    assert [100, 150][1..] == [150];
  }
}
