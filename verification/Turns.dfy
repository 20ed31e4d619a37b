/** The event loop's phases, as functions. */
module Turns {

  datatype Status = Running | WaitingBreak | Break
  datatype Phase = TaskPhase | TimerPhase | NetworkPhase
  datatype Change = Untouched | SetTo(status: Status)

  /** What the callbacks of each phase of one turn leave in the status field. */
  datatype Turn = Turn(tasks: Change, timers: Change, network: Change)

  function After(s: Status, c: Change): Status {
    if c.SetTo? then c.status else s
  }

  /** A turn begins by forgetting anything but a break. */
  function Entered(s: Status): Status {
    if s == Break then Break else Running
  }

  /** One turn: the status it ends with and the phases it ran. */
  function Once(s: Status, t: Turn): (Status, seq<Phase>) {
    var s1 := After(Entered(s), t.tasks);
    if s1 == Break then (s1, [TaskPhase])
    else
      var s2 := After(s1, t.timers);
      if s2 == Break then (s2, [TaskPhase, TimerPhase])
      else (After(s2, t.network), [TaskPhase, TimerPhase, NetworkPhase])
  }

  /** Turn after turn, whatever the status. */
  function Repeat(s: Status, turns: seq<Turn>): (Status, seq<seq<Phase>>)
    decreases |turns|
  {
    if turns == [] then (s, [])
    else
      var (s1, phases) := Once(s, turns[0]);
      var (s2, more) := Repeat(s1, turns[1..]);
      (s2, [phases] + more)
  }

  /** The loop: turns until the break status; `turns` bounds the observation. */
  function Loop(s: Status, turns: seq<Turn>): (Status, seq<seq<Phase>>)
    decreases |turns|
  {
    if s == Break || turns == [] then (s, [])
    else
      var (s1, phases) := Once(s, turns[0]);
      var (s2, more) := Loop(s1, turns[1..]);
      (s2, [phases] + more)
  }

  function UntilBreak(s: Status, turns: seq<Turn>): (Status, seq<seq<Phase>>) {
    Loop(Entered(s), turns)
  }

  /** The loop that ends as `whole` has `trace` behind it and `turns` ahead. */
  ghost predicate GoesOn(s: Status, turns: seq<Turn>, trace: seq<seq<Phase>>, whole: (Status, seq<seq<Phase>>)) {
    Loop(s, turns).0 == whole.0 && trace + Loop(s, turns).1 == whole.1
  }

  lemma LoopStarts(s: Status, turns: seq<Turn>)
    ensures GoesOn(s, turns, [], Loop(s, turns))
  {
    assert [] + Loop(s, turns).1 == Loop(s, turns).1;
  }

  lemma LoopStops(s: Status, turns: seq<Turn>, trace: seq<seq<Phase>>, whole: (Status, seq<seq<Phase>>))
    requires GoesOn(s, turns, trace, whole) && (s == Break || turns == [])
    ensures whole == (s, trace)
  {
    assert trace + [] == trace;
  }

  lemma LoopStep(s: Status, turns: seq<Turn>, trace: seq<seq<Phase>>, whole: (Status, seq<seq<Phase>>))
    requires GoesOn(s, turns, trace, whole) && s != Break && turns != []
    ensures var (s1, phases) := Once(s, turns[0]);
            GoesOn(s1, turns[1..], trace + [phases], whole)
  {
    var (s1, phases) := Once(s, turns[0]);
    var more := Loop(s1, turns[1..]).1;
    assert trace + ([phases] + more) == trace + [phases] + more;
  }

  predicate Clears(t: Turn) {
    t.tasks.SetTo? && t.tasks.status != Break
  }

  /** Once broken, every further turn runs tasks only, until a task clears the break. */
  lemma {:induction false} BreakSticks(turns: seq<Turn>)
    requires forall k :: 0 <= k < |turns| ==> !Clears(turns[k])
    ensures Repeat(Break, turns).0 == Break
    ensures |Repeat(Break, turns).1| == |turns|
    ensures forall k :: 0 <= k < |turns| ==> Repeat(Break, turns).1[k] == [TaskPhase]
    decreases |turns|
  {
    if turns != [] {
      BreakSticks(turns[1..]);
    }
  }

  /** No phase runs after a break within the same turn, and a later phase never runs without
      the earlier ones: the status before each phase decides. */
  lemma PhasesStopAtBreak(s: Status, t: Turn)
    ensures var (s', phases) := Once(s, t);
            && phases <= [TaskPhase, TimerPhase, NetworkPhase] && phases != []
            && (|phases| < 3 ==> s' == Break)
            && (TimerPhase !in phases <==> t.tasks == SetTo(Break) || (s == Break && t.tasks == Untouched))
            && (NetworkPhase !in phases <==> TimerPhase !in phases || t.timers == SetTo(Break))
  {
  }

  /** The last status that anybody set, or else that of the beginning. */
  function LastSet(s: Status, changes: seq<Change>): Status
    decreases |changes|
  {
    if changes == [] then s
    else if changes[|changes| - 1].SetTo? then changes[|changes| - 1].status
    else LastSet(s, changes[..|changes| - 1])
  }

  /** The status after a turn is the last one that a callback of a phase that ran has set; with none,
      a break stays and anything else becomes running. */
  lemma {:induction false} StatusIsLastSet(s: Status, t: Turn)
    ensures var (s', phases) := Once(s, t);
            && |phases| <= 3
            && s' == LastSet(if s == Break then Break else Running, [t.tasks, t.timers, t.network][..|phases|])
  {
    var start, all := if s == Break then Break else Running, [t.tasks, t.timers, t.network];
    assert all[..3] == all && all[..3][..2] == all[..2] && all[..2][..1] == all[..1] && all[..1][..0] == [];
    assert LastSet(start, all[..1]) == if t.tasks.SetTo? then t.tasks.status else start;
    assert LastSet(start, all[..2]) == if t.timers.SetTo? then t.timers.status else LastSet(start, all[..1]);
  }

  /** The loop as it is called: not a single turn after a break, and otherwise the turns of the loop from
      running, whatever was waiting. */
  lemma {:induction false} UntilBreakStarts(s: Status, turns: seq<Turn>)
    ensures s == Break ==> UntilBreak(s, turns) == (Break, [])
    ensures s != Break && turns != [] ==>
              && UntilBreak(s, turns).1 != [] && UntilBreak(s, turns).1[0] == Once(Running, turns[0]).1
              && UntilBreak(s, turns) == Loop(Running, turns)
  {
  }

  /** The loop returns, other than by running out of observed turns, only in the break status;
      it ran the turns an unconditional repetition would have run, and none after the first
      that ended in the break status. */
  lemma {:induction false} LoopEndsInBreak(s: Status, turns: seq<Turn>)
    ensures var (s', trace) := Loop(s, turns);
            && |trace| <= |turns|
            && (|trace| < |turns| ==> s' == Break)
            && (s', trace) == Repeat(s, turns[..|trace|])
            && (forall k: nat :: k < |trace| ==> Repeat(s, turns[..k]).0 != Break)
    decreases |turns|
  {
    var (s', trace) := Loop(s, turns);
    if s != Break && turns != [] {
      var s1 := Once(s, turns[0]).0;
      LoopEndsInBreak(s1, turns[1..]);
      RepeatCons(s, turns, |trace|);
      forall k: nat | k < |trace| ensures Repeat(s, turns[..k]).0 != Break {
        if k > 0 {
          RepeatCons(s, turns, k);
          var j := k - 1;
          assert Repeat(s1, turns[1..][..j]).0 != Break;
        }
      }
    }
  }

  lemma RepeatCons(s: Status, turns: seq<Turn>, n: nat)
    requires 1 <= n <= |turns|
    ensures var (s1, phases) := Once(s, turns[0]);
            Repeat(s, turns[..n]) == (Repeat(s1, turns[1..][..n - 1]).0, [phases] + Repeat(s1, turns[1..][..n - 1]).1)
  {
    assert turns[..n][1..] == turns[1..][..n - 1];
  }

  /** A request to break later is forgotten: the next turn behaves as if it had not been made. */
  lemma WaitingIsForgotten(t: Turn)
    ensures Once(WaitingBreak, t) == Once(Running, t)
  {
  }
}
