/**
 * The EPS limiter of analysisd as one thread sees it: a counting semaphore of
 * credits and a buffer with one cell per second of the timeframe.
 */
module EpsLimits {
  import opened Sums

  const MAX_EPS: nat := 100000
  const MAX_TIMEFRAME: nat := 3600
  const SEM_VALUE_MAX: nat := 0x7FFF_FFFF

  /** The mutable part of the limiter, as a value. */
  datatype Window = Window(credits: nat, cell: nat, buf: seq<nat>)

  ghost predicate WindowOk(w: Window, timeframe: nat) {
    |w.buf| == timeframe && w.cell < timeframe
  }

  /** The cells, and below them the credits, after one call of update_limits. */
  function Tick(w: Window): Window
    requires 0 < |w.buf|
  {
    if w.cell < |w.buf| - 1 then w.(cell := w.cell + 1)
    else Window(w.credits + w.buf[0], w.cell, w.buf[1..] + [0])
  }

  /** A tick moves credits from the oldest cell to the semaphore and loses none. */
  lemma TickConserves(w: Window)
    requires 0 < |w.buf| && w.cell < |w.buf|
    ensures WindowOk(Tick(w), |w.buf|)
    ensures Tick(w).credits + Sum(Tick(w).buf) == w.credits + Sum(w.buf)
  {
    if w.cell == |w.buf| - 1 {
      SumSnoc(w.buf[1..], 0);
    }
  }

  /** The product the semaphore starts from fits for every accepted configuration. */
  lemma {:induction false} CapacityFits(eps: nat, timeframe: nat)
    requires eps <= MAX_EPS && timeframe <= MAX_TIMEFRAME
    ensures eps * timeframe <= SEM_VALUE_MAX
  {
    assert eps * timeframe <= MAX_EPS * timeframe <= MAX_EPS * MAX_TIMEFRAME by {
      MulMono(eps, MAX_EPS, timeframe);
    }
  }

  lemma {:induction false} MulMono(a: nat, b: nat, c: nat)
    requires a <= b
    ensures a * c <= b * c
  {
    assert b * c == a * c + (b - a) * c;
  }

  class Limits {
    var enabled: bool
    var eps: nat
    var timeframe: nat
    var currentCell: nat
    var circBuf: array<nat>
    var credits: nat  // credits_eps_semaphore

    ghost predicate Valid()
      reads this, circBuf
    {
      enabled ==> 0 < eps && 0 < timeframe && circBuf.Length == timeframe && currentCell < timeframe
    }

    ghost function View(): Window
      reads this, circBuf
    {
      Window(credits, currentCell, circBuf[..])
    }

    constructor ()
      ensures Valid() && !enabled
    {
      enabled, eps, timeframe, currentCell, credits := false, 0, 0, 0, 0;
      circBuf := new nat[0];
    }

    method LoadLimits(maximum: nat, seconds: nat)
      requires maximum <= MAX_EPS && seconds <= MAX_TIMEFRAME
      modifies this
      ensures Valid()
      ensures enabled <==> 0 < maximum && 0 < seconds
      ensures enabled ==> fresh(circBuf) && eps == maximum && timeframe == seconds
      ensures enabled ==> View() == Window(maximum * seconds, 0, seq(seconds, _ => 0))
      ensures enabled ==> credits + Sum(circBuf[..]) == eps * timeframe <= SEM_VALUE_MAX
    {
      if 0 < maximum && 0 < seconds {
        eps, timeframe, currentCell := maximum, seconds, 0;
        circBuf := new nat[seconds](_ => 0);
        credits := maximum * seconds;
        enabled := true;
        SumZeros(circBuf[..]);
        CapacityFits(maximum, seconds);
      } else {
        enabled := false;
      }
    }

    method GenerateEpsCredits(n: nat)
      modifies this`credits
      ensures credits == old(credits) + n
    {
      for i := 0 to n
        invariant credits == old(credits) + i
      {
        credits := credits + 1;
      }
    }

    method IncreaseEventCounter()
      requires Valid() && enabled
      modifies circBuf
      ensures Valid()
      ensures View() == old(View()).(buf := old(circBuf[..])[currentCell := old(circBuf[currentCell]) + 1])
    {
      circBuf[currentCell] := circBuf[currentCell] + 1;
    }

    /** One worker's sem_wait that does not block, followed by the record. */
    method GetEpsCredit()
      requires Valid() && (enabled ==> 0 < credits)
      modifies this`credits, circBuf
      ensures Valid()
      ensures !enabled ==> View() == old(View())
      ensures enabled ==> credits == old(credits) - 1
      ensures enabled ==> circBuf[..] == old(circBuf[..])[currentCell := old(circBuf[currentCell]) + 1]
      ensures credits + Sum(circBuf[..]) == old(credits + Sum(circBuf[..]))
    {
      if enabled {
        credits := credits - 1;
        IncreaseEventCounter();
        SumUpdate(old(circBuf[..]), currentCell, circBuf[currentCell]);
      }
    }

    /** The credits are reported whether or not the limit is reached. */
    method LimitReached(value: nat) returns (reached: bool, reported: nat)
      ensures reached <==> enabled && credits == 0
      ensures reported == if enabled then credits else value
    {
      reported := value;
      if enabled {
        reported := credits;
        if credits <= 0 {
          return true, reported;
        }
      }
      reached := false;
    }

    method UpdateLimits()
      requires Valid()
      modifies this`credits, this`currentCell, circBuf
      ensures Valid()
      ensures View() == if enabled then Tick(old(View())) else old(View())
      ensures credits + Sum(circBuf[..]) == old(credits + Sum(circBuf[..]))
    {
      if enabled {
        TickConserves(View());
        if currentCell < timeframe - 1 {
          currentCell := currentCell + 1;
        } else {
          if circBuf[0] != 0 {
            GenerateEpsCredits(circBuf[0]);
          }
          ShiftDown();
          circBuf[currentCell] := 0;
          assert circBuf[..] == old(circBuf[..])[1..] + [0];
        }
      }
    }

    /** memmove of the cells 1.. onto the cells 0.. */
    method ShiftDown()
      requires 0 < circBuf.Length
      modifies circBuf
      ensures forall k | 0 <= k < circBuf.Length - 1 :: circBuf[k] == old(circBuf[k + 1])
    {
      for i := 0 to circBuf.Length - 1
        invariant forall k | 0 <= k < i :: circBuf[k] == old(circBuf[k + 1])
        invariant forall k | i <= k < circBuf.Length :: circBuf[k] == old(circBuf[k])
      {
        circBuf[i] := circBuf[i + 1];
      }
    }
  }
}
