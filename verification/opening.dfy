/**
 * The counters shared by every board that asks for a random start: how many
 * boards have used the current opening, and which legal action each of the
 * four opening plies picks. After each random-start board the counters either
 * count one more use of the opening or, once it has been used often enough,
 * move the four picks on like an odometer whose wheels have as many positions
 * as that board had legal actions at each ply.
 */
module Openings {
  import opened Wrappers

  /** The values of the shared counters: the usage count (absent before the first
      random start) and the index of the action picked at each opening ply. */
  datatype OpeningState = OpeningState(usage: Option<nat>, play1: nat, play2: nat, play3: nat, play4: nat)

  /** The counters before any board has been built. */
  const Initial: OpeningState := OpeningState(None, 0, 0, 0, 0)

  /** The four picks moved on by one position, the last ply's wheel turning fastest.
      l1 .. l4 are the numbers of legal actions offered at each ply. */
  function Roll(s: OpeningState, l1: nat, l2: nat, l3: nat, l4: nat): (r: OpeningState)
    ensures r.usage == s.usage
  {
    if s.play4 + 1 < l4 then s.(play4 := s.play4 + 1)
    else if s.play3 + 1 < l3 then s.(play3 := s.play3 + 1, play4 := 0)
    else if s.play2 + 1 < l2 then s.(play2 := s.play2 + 1, play3 := 0, play4 := 0)
    else if s.play1 + 1 < l1 then s.(play1 := s.play1 + 1, play2 := 0, play3 := 0, play4 := 0)
    else s.(play1 := 0, play2 := 0, play3 := 0, play4 := 0)
  }

  /** The counters after one random-start board: one more use of the current opening while
      it has been used fewer than changeAfter - 1 times since it was chosen, otherwise the
      next opening with its usage reset to zero. */
  function NextState(s: OpeningState, l1: nat, l2: nat, l3: nat, l4: nat, changeAfter: int): OpeningState {
    if s.usage.Some? && s.usage.value < changeAfter - 1 then s.(usage := Some(s.usage.value + 1))
    else Roll(s, l1, l2, l3, l4).(usage := Some(0))
  }

  /** The four picks as one tuple, compared lexicographically. */
  predicate PicksBefore(a: OpeningState, b: OpeningState) {
    a.play1 < b.play1
    || (a.play1 == b.play1 && a.play2 < b.play2)
    || (a.play1 == b.play1 && a.play2 == b.play2 && a.play3 < b.play3)
    || (a.play1 == b.play1 && a.play2 == b.play2 && a.play3 == b.play3 && a.play4 < b.play4)
  }

  /** Every pick names one of the actions offered at its ply. */
  predicate InRange(s: OpeningState, l1: nat, l2: nat, l3: nat, l4: nat) {
    s.play1 < l1 && s.play2 < l2 && s.play3 < l3 && s.play4 < l4
  }

  predicate IsLast(s: OpeningState, l1: nat, l2: nat, l3: nat, l4: nat) {
    s.play1 + 1 == l1 && s.play2 + 1 == l2 && s.play3 + 1 == l3 && s.play4 + 1 == l4
  }

  predicate SamePicks(a: OpeningState, b: OpeningState) {
    a.play1 == b.play1 && a.play2 == b.play2 && a.play3 == b.play3 && a.play4 == b.play4
  }

  /** Rolling the picks visits the openings in lexicographic order: from any opening but the
      last one it moves to the very next one in range, and from the last it wraps to the first. */
  lemma RollIsSuccessor(s: OpeningState, l1: nat, l2: nat, l3: nat, l4: nat)
    requires InRange(s, l1, l2, l3, l4)
    ensures InRange(Roll(s, l1, l2, l3, l4), l1, l2, l3, l4)
    ensures IsLast(s, l1, l2, l3, l4) ==> SamePicks(Roll(s, l1, l2, l3, l4), Initial)
    ensures !IsLast(s, l1, l2, l3, l4) ==> PicksBefore(s, Roll(s, l1, l2, l3, l4))
    ensures forall t :: InRange(t, l1, l2, l3, l4) && PicksBefore(s, t) ==>
      SamePicks(t, Roll(s, l1, l2, l3, l4)) || PicksBefore(Roll(s, l1, l2, l3, l4), t)
  {
  }

  /** The counters after k random-start boards built on openings with the same action counts. */
  function AdvanceTimes(s: OpeningState, k: nat, l1: nat, l2: nat, l3: nat, l4: nat, changeAfter: int): OpeningState {
    if k == 0 then s else NextState(AdvanceTimes(s, k - 1, l1, l2, l3, l4, changeAfter), l1, l2, l3, l4, changeAfter)
  }

  /** Once an opening has been chosen (usage zero), it serves exactly changeAfter boards: the
      next changeAfter - 1 boards keep the picks and count their use, and the board after them
      moves on to the next opening. */
  lemma {:induction false} OpeningServesChangeAfterBoards(s: OpeningState, l1: nat, l2: nat, l3: nat, l4: nat, c: int, k: nat)
    requires s.usage == Some(0) && 1 <= c && k < c
    ensures SamePicks(AdvanceTimes(s, k, l1, l2, l3, l4, c), s)
    ensures AdvanceTimes(s, k, l1, l2, l3, l4, c).usage == Some(k)
    ensures k == c - 1 ==> AdvanceTimes(s, c, l1, l2, l3, l4, c) == Roll(s, l1, l2, l3, l4).(usage := Some(0))
  {
    if k > 0 {
      OpeningServesChangeAfterBoards(s, l1, l2, l3, l4, c, k - 1);
    }
  }

  /** Before the first random start no usage is recorded, so the very first board, which
      plays the initial picks, already moves them on: the opening with the initial picks
      serves a single board, and the second board plays the next opening in lexicographic
      order (the initial one again only when it is the only opening), freshly counted. */
  lemma FirstBoardRolls(l1: nat, l2: nat, l3: nat, l4: nat, c: int)
    requires InRange(Initial, l1, l2, l3, l4)
    ensures var t := NextState(Initial, l1, l2, l3, l4, c);
      && t.usage == Some(0) && InRange(t, l1, l2, l3, l4)
      && (IsLast(Initial, l1, l2, l3, l4) ==> SamePicks(t, Initial))
      && (!IsLast(Initial, l1, l2, l3, l4) ==> PicksBefore(Initial, t))
      && forall u :: InRange(u, l1, l2, l3, l4) && PicksBefore(Initial, u) ==> SamePicks(u, t) || PicksBefore(t, u)
  {
    RollIsSuccessor(Initial, l1, l2, l3, l4);
  }

  /** The module-level counters of the board engine, updated in place. */
  class OpeningCounters {
    var usage: Option<nat>
    var play1: nat
    var play2: nat
    var play3: nat
    var play4: nat

    function State(): OpeningState
      reads this
    {
      OpeningState(usage, play1, play2, play3, play4)
    }

    constructor ()
      ensures State() == Initial
    {
      usage := None;
      play1, play2, play3, play4 := 0, 0, 0, 0;
    }

    /** Records one more random-start board whose opening plies offered l1 .. l4 actions. */
    method Advance(l1: nat, l2: nat, l3: nat, l4: nat, changeAfter: int)
      modifies this
      ensures State() == NextState(old(State()), l1, l2, l3, l4, changeAfter)
    {
      if usage.Some? && usage.value < changeAfter - 1 {
        usage := Some(usage.value + 1);
      } else {
        if play4 + 1 < l4 {
          play4 := play4 + 1;
        } else if play3 + 1 < l3 {
          play3 := play3 + 1;
          play4 := 0;
        } else if play2 + 1 < l2 {
          play2 := play2 + 1;
          play3 := 0;
          play4 := 0;
        } else if play1 + 1 < l1 {
          play1 := play1 + 1;
          play2 := 0;
          play3 := 0;
          play4 := 0;
        } else {
          play1 := 0;
          play2 := 0;
          play3 := 0;
          play4 := 0;
        }
        usage := Some(0);
      }
    }
  }
}
