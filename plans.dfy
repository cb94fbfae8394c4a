/**
 * Plans: the steps an operation performs, in order, as the entries it adds
 * to the host's log. An operation that succeeds adds its whole plan; one
 * that fails part-way stops at the failing step, so it has added a proper
 * prefix of its plan.
 */
module Plans {
  import opened Host

  /** The log went from before to after by a proper prefix of plan: the run stopped before plan's last step. */
  predicate Aborted(before: seq<Call>, after: seq<Call>, plan: seq<Call>)
  {
    before <= after && after[|before|..] < plan
  }

  /** A run that has done the steps p and then stops inside the next block q stops inside p + q + r. */
  lemma AbortedWithin(before: seq<Call>, after: seq<Call>, p: seq<Call>, q: seq<Call>, r: seq<Call>)
    requires Aborted(before + p, after, q)
    ensures Aborted(before, after, p + q + r)
  {
    var d := after[|before + p|..];
    assert after == before + p + d;
    assert after[|before|..] == p + d;
    assert (p + q + r)[..|p + d|] == p + d by {
      assert q[..|d|] == d;
    }
  }

  /** Stopping inside p is stopping inside p followed by anything. */
  lemma AbortedPrefix(before: seq<Call>, after: seq<Call>, p: seq<Call>, q: seq<Call>, r: seq<Call>)
    requires Aborted(before, after, p)
    ensures Aborted(before, after, p + q + r)
  {
    var d := after[|before|..];
    assert (p + q + r)[..|d|] == p[..|d|];
  }

  /** Stopping right after the steps p, before a non-empty rest, is stopping inside p + rest. */
  lemma AbortedAfter(before: seq<Call>, p: seq<Call>, rest: seq<Call>)
    requires |rest| > 0
    ensures Aborted(before, before + p, p + rest)
  {
    assert (before + p)[|before|..] == p;
    assert (p + rest)[..|p|] == p;
  }

  /** Appending the steps p, q and r one block at a time appends p + q + r. */
  lemma Regrouped(before: seq<Call>, p: seq<Call>, q: seq<Call>, r: seq<Call>)
    ensures before + p + q + r == before + (p + q + r)
    ensures before + p + q + r == before + p + (q + r)
  {
  }

  /** Appending two blocks one after the other appends them together. */
  lemma Appended(before: seq<Call>, p: seq<Call>, q: seq<Call>)
    ensures before + p + q == before + (p + q)
  {
  }

  /** Stopping after k steps of the block step, which follows p and q, is stopping inside p + (q + step + tail). */
  lemma AbortedInside(before: seq<Call>, p: seq<Call>, q: seq<Call>, step: seq<Call>, k: nat, tail: seq<Call>)
    requires k < |step|
    ensures Aborted(before, before + p + q + step[..k], p + (q + step + tail))
  {
    var done := p + q + step[..k];
    assert before + p + q + step[..k] == before + done;
    assert p + (q + step + tail) == done + (step[k..] + tail) by {
      assert step == step[..k] + step[k..];
    }
    AbortedAfter(before, done, step[k..] + tail);
  }

  /** Stopping before the non-empty block b, after a, is stopping inside a + b + c + tail. */
  lemma AbortedBefore(before: seq<Call>, a: seq<Call>, b: seq<Call>, c: seq<Call>, tail: seq<Call>)
    requires |b| > 0
    ensures Aborted(before, before + a, a + b + c + tail)
  {
    AbortedAfter(before, a, b + c + tail);
    assert a + b + c + tail == a + (b + c + tail);
  }

  /** The steps of a loop over xs, step(x) being the steps of one iteration. */
  function Steps<T>(xs: seq<T>, step: T -> seq<Call>): seq<Call>
  {
    if |xs| == 0 then [] else Steps(xs[..|xs| - 1], step) + step(xs[|xs| - 1])
  }

  /** One more iteration done. */
  lemma StepsNext<T>(start: seq<Call>, xs: seq<T>, step: T -> seq<Call>, i: nat)
    requires i < |xs|
    ensures start + Steps(xs[..i], step) + step(xs[i]) == start + Steps(xs[..i + 1], step)
  {
    assert xs[..i + 1][..i] == xs[..i];
  }

  lemma StepsAll<T>(xs: seq<T>, step: T -> seq<Call>)
    ensures Steps(xs[..|xs|], step) == Steps(xs, step)
  {
    assert xs[..|xs|] == xs;
  }

  /** The loop's steps are those before iteration i, then iteration i's, then those after it. */
  lemma {:induction false} StepsSplit<T>(xs: seq<T>, step: T -> seq<Call>, i: nat)
    requires i < |xs|
    ensures Steps(xs, step) == Steps(xs[..i], step) + step(xs[i]) + Steps(xs[i + 1..], step)
  {
    var n := |xs| - 1;
    if i == n {
      assert xs[..n] == xs[..i];
      assert xs[i + 1..] == [];
    } else {
      var front := xs[..n];
      StepsSplit(front, step, i);
      assert front[..i] == xs[..i];
      assert front[i + 1..] == xs[i + 1..][..|xs[i + 1..]| - 1];
      assert xs[i + 1..][|xs[i + 1..]| - 1] == xs[n];
      Regrouped(Steps(xs[..i], step), step(xs[i]), Steps(front[i + 1..], step), step(xs[n]));
    }
  }

  /** Stopping before iteration i, whose steps are not empty, is stopping inside the loop's steps. */
  lemma StepsStopped<T>(before: seq<Call>, xs: seq<T>, step: T -> seq<Call>, i: nat)
    requires i < |xs| && |step(xs[i])| > 0
    ensures Aborted(before, before + Steps(xs[..i], step), Steps(xs, step))
  {
    StepsSplit(xs, step, i);
    AbortedBefore(before, Steps(xs[..i], step), step(xs[i]), Steps(xs[i + 1..], step), []);
  }
}
