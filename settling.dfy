/**
 The settle-then-decide rule of the stored-message reviver
 (src/messagereviver.cpp, onGetStoredMessages, lines 82-116), as pure functions.

 A poll returns the set of stored-message tokens the server holds for a
 connection.  The reviver compares it with the baseline it kept from the
 previous poll of the same connection: a baseline that comes back unchanged
 and non-empty is settled and is acted on; a changed one is narrowed to the
 intersection and polled again; an empty one ends the cycle.
 */
module Settling {

  /** A stored-message token, an opaque string chosen by the server. */
  type Token = string

  /** What one poll result makes the reviver do next. */
  datatype Verdict =
    | Drop                            // nothing left to reconcile: no baseline kept, no action
    | Rearm(baseline: set<Token>)     // keep this baseline and poll again after the interval
    | Resolve(settled: set<Token>)    // the backlog is quiescent: bury or revive these tokens

  /** The set of tokens in a reply's string list (QStringList::toSet). */
  function TokenSet(list: seq<Token>): set<Token>
  {
    set t | t in list
  }

  /** A subset of a finite set has the same size only if it is the whole set. */
  lemma {:induction false} SubsetSize(a: set<Token>, b: set<Token>)
    requires a <= b
    ensures |a| <= |b|
    ensures |a| == |b| <==> a == b
  {
    var rest := b - a;
    assert b == a + rest;
    assert a * rest == {};
    if a != b {
      var x :| x in b && x !in a;
      assert x in rest;
    }
  }

  /**
   The `modified` flag of lines 91-98.  `initial` is what taking the baseline
   out of the map gave (the empty set when there was none).  The source
   compares sizes only; since the intersection is a subset of the baseline,
   that is the same as comparing the sets.
   */
  function Changed(initial: set<Token>, current: set<Token>): (modified: bool)
    ensures modified <==> initial == {} || initial * current != initial
    ensures !modified <==> initial != {} && initial <= current
  {
    if initial == {} then true
    else
      SubsetSize(initial * current, initial);
      |initial| != |initial * current|
  }

  /**
   The decision of lines 91-116 for one successful poll of a valid connection.
   `initial` is the taken baseline ({} when absent), `current` the polled set.
   */
  function Poll(initial: set<Token>, current: set<Token>): (v: Verdict)
    // acting happens exactly when a non-empty baseline came back whole
    ensures v.Resolve? <==> initial != {} && initial <= current
    ensures v.Resolve? ==> v.settled == initial
    // a kept baseline is never empty and holds only tokens of this poll
    ensures v.Rearm? ==> v.baseline != {} && v.baseline <= current
    // on the first poll the baseline is the polled set ...
    ensures initial == {} ==> v == if current == {} then Drop else Rearm(current)
    // ... afterwards it only shrinks, and strictly
    ensures v.Rearm? && initial != {} ==> v.baseline == initial * current && v.baseline < initial
    // the cycle ends without action when nothing survives
    ensures v.Drop? <==> (if initial == {} then current else initial * current) == {}
    ensures current == {} ==> v.Drop?
  {
    var next := if initial == {} then current else initial * current;
    if Changed(initial, current) then
      if next != {} then Rearm(next) else Drop
    else if next != {} then Resolve(next)
    else Drop
  }

  /**
   A whole reconciliation cycle: the verdicts of Poll chained over successive
   poll results, starting from the baseline `initial`, until one of them is
   not Rearm.  A Rearm result means the polls ran out while still settling.
   */
  function Cycle(initial: set<Token>, polls: seq<set<Token>>): Verdict
    requires polls != []
    decreases |polls|
  {
    var v := Poll(initial, polls[0]);
    if v.Rearm? && |polls| > 1 then Cycle(v.baseline, polls[1..]) else v
  }

  /** How many of `polls` the cycle of Cycle(initial, polls) consumed. */
  function CycleLength(initial: set<Token>, polls: seq<set<Token>>): (n: nat)
    requires polls != []
    ensures 1 <= n <= |polls|
    decreases |polls|
  {
    var v := Poll(initial, polls[0]);
    if v.Rearm? && |polls| > 1 then 1 + CycleLength(v.baseline, polls[1..]) else 1
  }

  /**
   The settled set is exactly the tokens present in the baseline (if there
   was one) and in every poll of the cycle: a token first seen on a later poll
   is never acted on in that cycle, and no token present throughout is lost.
   A cycle that starts without a baseline needs two polls at least.
   */
  lemma {:induction false} SettledTokensSeenThroughout(initial: set<Token>, polls: seq<set<Token>>, s: set<Token>)
    requires polls != [] && Cycle(initial, polls) == Resolve(s)
    ensures s != {}
    ensures initial != {} ==> s <= initial
    ensures initial == {} ==> CycleLength(initial, polls) >= 2
    ensures forall i :: 0 <= i < CycleLength(initial, polls) ==> s <= polls[i]
    ensures forall t ::
              (initial != {} ==> t in initial) &&
              (forall i :: 0 <= i < CycleLength(initial, polls) ==> t in polls[i])
              ==> t in s
    decreases |polls|
  {
    var v := Poll(initial, polls[0]);
    if v.Rearm? && |polls| > 1 {
      var tail := polls[1..];
      SettledTokensSeenThroughout(v.baseline, tail, s);
      forall i | 0 <= i < CycleLength(initial, polls)
        ensures s <= polls[i]
      {
        if i > 0 {
          assert polls[i] == tail[i - 1];
        }
      }
      forall t |
        (initial != {} ==> t in initial) &&
        (forall i :: 0 <= i < CycleLength(initial, polls) ==> t in polls[i])
        ensures t in s
      {
        assert t in polls[0];
        assert t in v.baseline;
        forall i | 0 <= i < CycleLength(v.baseline, tail)
          ensures t in tail[i]
        {
          assert tail[i] == polls[i + 1];
        }
      }
    }
  }

  /**
   Two equal reads in a row settle the cycle.  With no baseline they settle
   on the read set at the second read; with a baseline that the read keeps
   part of, they settle on that part, at the first read when the baseline
   came back whole and at the second otherwise.
   */
  lemma RepeatedPollSettles(b: set<Token>, s: set<Token>)
    requires s != {} && (b == {} || b * s != {})
    ensures Cycle(b, [s, s]) == Resolve(if b == {} then s else b * s)
    ensures CycleLength(b, [s, s]) == if b != {} && b <= s then 1 else 2
  {
    assert [s, s][1..] == [s];
  }

  /** A changed poll re-arms with the intersection instead of acting. */
  lemma ChangedPollRearms(baseline: set<Token>, current: set<Token>)
    requires baseline != {} && baseline * current != baseline && baseline * current != {}
    ensures Poll(baseline, current) == Rearm(baseline * current)
  {
  }

  /** Example: reads {A,B,C}, {A,B}, {A,B} settle on {A,B}. */
  lemma ThreePollScenario()
    ensures Cycle({}, [{"A", "B", "C"}, {"A", "B"}, {"A", "B"}]) == Resolve({"A", "B"})
  {
    var abc: set<Token> := {"A", "B", "C"};
    var ab: set<Token> := {"A", "B"};
    var polls := [abc, ab, ab];
    assert "C" !in ab;
    assert abc * ab == ab;
    assert Poll({}, abc) == Rearm(abc);
    assert Poll(abc, ab) == Rearm(ab);
    assert Poll(ab, ab) == Resolve(ab);
    assert polls[1..] == [ab, ab];
    assert polls[1..][1..] == [ab];
  }
}
