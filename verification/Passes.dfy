/** What a pass over the event queues does to the state of the protocol when the other threads go on: their
    moves come from a list of scripts, one for each time the checker looks at a queue. */
module Passes {
  import opened Protocol

  function Queued(s: State, t: nat): nat {
    if t in s.threads then |s.threads[t].queue| else 0
  }

  /** What the other threads make of a list of steps: those that are not enabled do not happen. */
  function After(s: State, script: seq<Step>, known: set<nat>): State
    decreases |script|
  {
    if script == [] then s
    else
      var s1 := After(s, script[..|script| - 1], known);
      var step := script[|script| - 1];
      if Happens(s1, step, known) then Do(s1, step).s else s1
  }

  predicate Happens(s: State, step: Step, known: set<nat>) {
    !step.Consume? && step.t in known && Do(s, step).Next?
  }

  lemma AfterOne(s: State, script: seq<Step>, i: nat, known: set<nat>)
    requires i <= |script|
    ensures i == 0 ==> After(s, script[..i], known) == s
    ensures i < |script| ==>
              var s1 := After(s, script[..i], known);
              After(s, script[..i + 1], known) == if Happens(s1, script[i], known) then Do(s1, script[i]).s else s1
  {
    if i < |script| {
      assert script[..i + 1][..i] == script[..i];
    }
  }

  lemma {:induction false} AfterFirst(s: State, script: seq<Step>, known: set<nat>)
    requires script != []
    ensures After(s, script, known) == After(After(s, script[..1], known), script[1..], known)
    decreases |script|
  {
    if |script| == 1 {
      assert script[..1] == script;
    } else {
      var front, last := script[..|script| - 1], script[|script| - 1];
      assert front[..1] == script[..1] && script[1..][..|script| - 2] == front[1..];
      AfterFirst(s, front, known);
    }
  }

  /** Nothing the other threads may do is left out: every run of theirs is what they make of its own steps. */
  lemma {:induction false} AfterIsAnyRun(s: State, steps: seq<Step>, s1: State, known: set<nat>)
    requires RunTo(s, steps, s1)
    requires forall i :: 0 <= i < |steps| ==> !steps[i].Consume? && steps[i].t in known
    ensures After(s, steps, known) == s1
    decreases |steps|
  {
    if steps != [] {
      AfterFirst(s, steps, known);
      assert steps[..1] == [steps[0]] && steps[..1][..0] == [];
      assert After(s, steps[..1], known) == Do(s, steps[0]).s;
      hide Do;
      AfterIsAnyRun(Do(s, steps[0]).s, steps[1..], s1, known);
    }
  }

  /** The other threads move and the checker takes an event of t, num times over. */
  function AfterTurns(s: State, t: nat, num: nat, others: nat -> seq<Step>, k: nat, known: set<nat>): State
    decreases num
  {
    if num == 0 then s
    else
      var s1 := After(s, others(k), known);
      var o := Do(s1, Consume(t));
      if o.Next? then AfterTurns(o.s, t, num - 1, others, k + 1, known) else s1
  }

  /** The whole pass: for each thread in order the others move, the length of its queue is read, and so many
      turns follow. */
  function AfterPass(s: State, order: seq<nat>, others: nat -> seq<Step>, k: nat, known: set<nat>): State
    decreases |order|
  {
    if order == [] then s
    else
      var s1 := After(s, others(k), known);
      var n := Queued(s1, order[0]);
      AfterPass(AfterTurns(s1, order[0], n, others, k + 1, known), order[1..], others, k + 1 + n, known)
  }

  // ---- nothing is left out ----

  /** A run of other threads that are known. */
  ghost predicate OthersRun(s: State, steps: seq<Step>, known: set<nat>, s': State) {
    RunTo(s, steps, s') && forall i :: 0 <= i < |steps| ==> !steps[i].Consume? && steps[i].t in known
  }

  /** A run in which the checker takes |parts| events of t, and before each the others do such a part. */
  ghost predicate TurnsRun(s: State, t: nat, parts: seq<seq<Step>>, known: set<nat>, s': State)
    decreases |parts|
  {
    if parts == [] then s == s'
    else exists s1 :: OthersRun(s, parts[0], known, s1) && Do(s1, Consume(t)).Next?
                      && TurnsRun(Do(s1, Consume(t)).s, t, parts[1..], known, s')
  }

  /** A run in which the others do the first part, and then the checker takes what t has queued by then. */
  ghost predicate DrainRun(s: State, t: nat, parts: seq<seq<Step>>, known: set<nat>, s': State) {
    parts != [] &&
    exists s1 :: OthersRun(s, parts[0], known, s1) && Queued(s1, t) == |parts| - 1
                 && TurnsRun(s1, t, parts[1..], known, s')
  }

  /** A run that is a pass, cut into the parts that the others do. */
  ghost predicate IsPass(s: State, order: seq<nat>, parts: seq<seq<Step>>, known: set<nat>, s': State)
    decreases |order|
  {
    if order == [] then parts == [] && s == s'
    else
      exists n: nat, s1 :: n <= |parts| && DrainRun(s, order[0], parts[..n], known, s1)
                           && IsPass(s1, order[1..], parts[n..], known, s')
  }

  /** From its k-th script on, others does these parts. */
  ghost predicate Plays(others: nat -> seq<Step>, k: nat, parts: seq<seq<Step>>) {
    forall i :: 0 <= i < |parts| ==> others(k + i) == parts[i]
  }

  lemma PlaysPart(others: nat -> seq<Step>, k: nat, parts: seq<seq<Step>>, i: nat, j: nat)
    requires Plays(others, k, parts) && i <= j <= |parts|
    ensures Plays(others, k + i, parts[i..j])
  {
    forall x | 0 <= x < j - i
      ensures others(k + i + x) == parts[i..j][x]
    {
      assert others(k + (i + x)) == parts[i + x];
    }
  }

  lemma {:induction false} TurnsPlayed(s: State, t: nat, parts: seq<seq<Step>>, others: nat -> seq<Step>, k: nat,
                                       known: set<nat>, s': State)
    requires TurnsRun(s, t, parts, known, s') && Plays(others, k, parts)
    ensures AfterTurns(s, t, |parts|, others, k, known) == s'
    decreases |parts|
  {
    if parts != [] {
      var s1 :| OthersRun(s, parts[0], known, s1) && Do(s1, Consume(t)).Next?
                && TurnsRun(Do(s1, Consume(t)).s, t, parts[1..], known, s');
      assert others(k + 0) == parts[0];
      AfterIsAnyRun(s, parts[0], s1, known);
      PlaysPart(others, k, parts, 1, |parts|);
      hide Do;
      TurnsPlayed(Do(s1, Consume(t)).s, t, parts[1..], others, k + 1, known, s');
    }
  }

  lemma DrainPlayed(s: State, t: nat, parts: seq<seq<Step>>, others: nat -> seq<Step>, k: nat, known: set<nat>, s': State)
    requires DrainRun(s, t, parts, known, s') && Plays(others, k, parts)
    ensures var s1 := After(s, others(k), known);
            Queued(s1, t) == |parts| - 1 && AfterTurns(s1, t, |parts| - 1, others, k + 1, known) == s'
  {
    var s1 :| OthersRun(s, parts[0], known, s1) && Queued(s1, t) == |parts| - 1 && TurnsRun(s1, t, parts[1..], known, s');
    assert others(k + 0) == parts[0];
    AfterIsAnyRun(s, parts[0], s1, known);
    PlaysPart(others, k, parts, 1, |parts|);
    TurnsPlayed(s1, t, parts[1..], others, k + 1, known, s');
  }

  /** Every run that is a pass, with anything the other threads can do in between, is what the pass does for
      these scripts. */
  lemma {:induction false} PassPlayed(s: State, order: seq<nat>, parts: seq<seq<Step>>, others: nat -> seq<Step>,
                                      k: nat, known: set<nat>, s': State)
    requires IsPass(s, order, parts, known, s') && Plays(others, k, parts)
    ensures AfterPass(s, order, others, k, known) == s'
    decreases |order|
  {
    hide Plays, DrainRun, AfterTurns, After, Queued;
    if order != [] {
      var n: nat, s1 :| n <= |parts| && DrainRun(s, order[0], parts[..n], known, s1)
                        && IsPass(s1, order[1..], parts[n..], known, s');
      PlaysPart(others, k, parts, 0, n);
      assert parts[0..n] == parts[..n];
      PlaysPart(others, k, parts, n, |parts|);
      assert parts[n..|parts|] == parts[n..];
      DrainPlayed(s, order[0], parts[..n], others, k, known, s1);
      PassPlayed(s1, order[1..], parts[n..], others, k + n, known, s');
    }
  }

  /** The scripts exist. */
  lemma PassIsAnyRun(s: State, order: seq<nat>, parts: seq<seq<Step>>, known: set<nat>, s': State)
    returns (others: nat -> seq<Step>)
    requires IsPass(s, order, parts, known, s')
    ensures AfterPass(s, order, others, 0, known) == s'
  {
    others := (n: nat) => if n < |parts| then parts[n] else [];
    PassPlayed(s, order, parts, others, 0, known, s');
  }
}
