/**
 * The refresh loop of `status_msg` in `guppi.py`: every tick it sleeps,
 * edits the status message, measures what the edit cost, keeps the last ten
 * costs and picks the next sleep so that a tick takes five seconds, or, when
 * edits are slower than that on average, as long as an edit takes.
 * A message that has disappeared is replaced by a newly sent one, which is
 * the one edited from then on. Timings are given as the costs of the attempts.
 */
module StatusReport {
  import opened Samples

  /** How many edit costs the window keeps */
  const Window: nat := 10

  /** The period a tick aims at, and the first sleep */
  const Period: real := 5.0

  /** The piecewise delay rule of guppi.py:214 */
  function NextDelay(avg: real): (d: real)
    ensures d >= 0.0
    ensures avg <= Period ==> avg + d == Period
    ensures avg > Period ==> d == avg && d > Period
  {
    if avg <= Period then Period - avg else avg
  }

  /** What happened when the loop tried to edit the status message */
  datatype EditOutcome =
    | Edited
    | NotFound(replacement: nat)   // `discord.NotFound`: a new message was sent, with this id
    | Failed                       // any other error, logged

  /** One tick: how long the edit took and how it ended */
  datatype Attempt = Attempt(cost: real, outcome: EditOutcome)

  function Costs(attempts: seq<Attempt>): (cs: seq<real>)
    ensures |cs| == |attempts|
    ensures forall i :: 0 <= i < |attempts| ==> cs[i] == attempts[i].cost
  {
    seq(|attempts|, i requires 0 <= i < |attempts| => attempts[i].cost)
  }

  /** The sleep that follows the edits whose costs are `costs` */
  function DelayAfter(costs: seq<real>): real {
    if costs == [] then Period else NextDelay(Mean(Newest(costs, Window)))
  }

  /** The message the loop edits after `attempts`: the last replacement sent, or the first message */
  function CurrentMessage(first: nat, attempts: seq<Attempt>): nat
    decreases |attempts|
  {
    if attempts == [] then first
    else match attempts[|attempts| - 1].outcome
      case NotFound(r) => r
      case _ => CurrentMessage(first, attempts[..|attempts| - 1])
  }

  /**
   * The loop over a finite run of ticks. `sleeps[i]` is the sleep before the
   * i-th edit and `edited[i]` the message it edits; `delay`, `target` and
   * `window` are the loop's variables when the run ends.
   */
  method Run(first: nat, attempts: seq<Attempt>)
    returns (sleeps: seq<real>, edited: seq<nat>, delay: real, target: nat, window: seq<real>)
    ensures |sleeps| == |attempts| && |edited| == |attempts|
    ensures forall i :: 0 <= i < |attempts| ==> sleeps[i] == DelayAfter(Costs(attempts[..i]))
    ensures forall i :: 0 <= i < |attempts| ==> edited[i] == CurrentMessage(first, attempts[..i])
    ensures delay == DelayAfter(Costs(attempts))
    ensures target == CurrentMessage(first, attempts)
    ensures window == Newest(Costs(attempts), Window) && |window| <= Window
  {
    var execs: seq<real> := [];
    delay := Period;
    target := first;
    sleeps, edited := [], [];
    var i := 0;
    while i < |attempts|
      invariant 0 <= i <= |attempts|
      invariant |sleeps| == i && |edited| == i
      invariant sleeps == Sleeps(attempts, i) && edited == Edited(first, attempts, i)
      invariant execs == Newest(Costs(attempts[..i]), Window)
      invariant delay == DelayAfter(Costs(attempts[..i]))
      invariant target == CurrentMessage(first, attempts[..i])
    {
      sleeps, edited := sleeps + [delay], edited + [target];
      var a := attempts[i];
      if a.outcome.NotFound? {
        target := a.outcome.replacement;
      }
      TickStep(first, attempts, i);
      SleepsStep(attempts, i);
      EditedStep(first, attempts, i);
      NewestStep(execs, a.cost, Window);
      execs := execs + [a.cost];
      if |execs| > Window {
        execs := execs[1..];
      }
      var avg := Sum(execs) / (|execs| as real);
      delay := NextDelay(avg);
      i := i + 1;
    }
    assert attempts[..i] == attempts;
    window := execs;
  }

  /** The sleeps before the first `n` edits */
  function Sleeps(attempts: seq<Attempt>, n: nat): (r: seq<real>)
    requires n <= |attempts|
  {
    seq(n, j requires 0 <= j < n => DelayAfter(Costs(attempts[..j])))
  }

  /** The messages the first `n` edits target */
  function Edited(first: nat, attempts: seq<Attempt>, n: nat): (r: seq<nat>)
    requires n <= |attempts|
  {
    seq(n, j requires 0 <= j < n => CurrentMessage(first, attempts[..j]))
  }

  lemma SleepsStep(attempts: seq<Attempt>, i: nat)
    requires i < |attempts|
    ensures Sleeps(attempts, i + 1) == Sleeps(attempts, i) + [DelayAfter(Costs(attempts[..i]))]
  {
    var a, b := Sleeps(attempts, i + 1), Sleeps(attempts, i);
    assert forall j :: 0 <= j < i ==> a[j] == b[j];
  }

  lemma EditedStep(first: nat, attempts: seq<Attempt>, i: nat)
    requires i < |attempts|
    ensures Edited(first, attempts, i + 1) == Edited(first, attempts, i) + [CurrentMessage(first, attempts[..i])]
  {
    var a, b := Edited(first, attempts, i + 1), Edited(first, attempts, i);
    assert forall j :: 0 <= j < i ==> a[j] == b[j];
  }

  /** How one more tick extends the specification functions */
  lemma TickStep(first: nat, attempts: seq<Attempt>, i: nat)
    requires i < |attempts|
    ensures Costs(attempts[..i + 1]) == Costs(attempts[..i]) + [attempts[i].cost]
    ensures Newest(Costs(attempts[..i + 1]), Window) ==
      Newest(Newest(Costs(attempts[..i]), Window) + [attempts[i].cost], Window)
    ensures CurrentMessage(first, attempts[..i + 1]) ==
      match attempts[i].outcome
      case NotFound(r) => r
      case _ => CurrentMessage(first, attempts[..i])
  {
    assert attempts[..i + 1][..i] == attempts[..i];
    var before := Costs(attempts[..i]);
    assert Costs(attempts[..i + 1]) == before + [attempts[i].cost];
    NewestAbsorbs(before, [attempts[i].cost], Window);
  }

  /**
   * The delay depends only on the last ten edits: what came before a run of
   * at least ten costs does not matter.
   */
  lemma DelayForgets(older: seq<real>, recent: seq<real>)
    requires |recent| >= Window
    ensures DelayAfter(older + recent) == DelayAfter(recent)
  {
    var all := older + recent;
    assert Newest(all, Window) == Newest(recent, Window) by {
      assert all[|all| - Window..] == recent[|recent| - Window..];
    }
  }

  /**
   * Self-healing: once an edit finds the message gone, the replacement it
   * sent is the message edited on every later tick until the next
   * replacement; a failed edit keeps the message.
   */
  lemma {:induction false} ReplacementSticks(first: nat, attempts: seq<Attempt>, k: nat, j: nat)
    requires k < j <= |attempts|
    requires attempts[k].outcome.NotFound?
    requires forall m :: k < m < j ==> !attempts[m].outcome.NotFound?
    ensures CurrentMessage(first, attempts[..j]) == attempts[k].outcome.replacement
    decreases j
  {
    var prefix := attempts[..j];
    assert prefix[|prefix| - 1] == attempts[j - 1];
    if j - 1 > k {
      assert prefix[..|prefix| - 1] == attempts[..j - 1];
      ReplacementSticks(first, attempts, k, j - 1);
    }
  }

  /** Without a replacement the loop edits the message it started with throughout. */
  lemma {:induction false} NoReplacementKeepsFirst(first: nat, attempts: seq<Attempt>)
    requires forall m :: 0 <= m < |attempts| ==> !attempts[m].outcome.NotFound?
    ensures CurrentMessage(first, attempts) == first
    decreases |attempts|
  {
    if attempts != [] {
      var init := attempts[..|attempts| - 1];
      assert forall m :: 0 <= m < |init| ==> init[m] == attempts[m];
      NoReplacementKeepsFirst(first, init);
    }
  }
}
