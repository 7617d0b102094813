/** The left-to-right scan that Python's regular-expression engine makes when it looks
    for the leftmost match of a pattern (`re.search`, and each step of `re.split`): it
    tries the start positions in order and stops at the first one where the pattern
    matches. */
module Scan {
  import opened Wrappers

  /** The first `i` with `from <= i <= n` at which `ok` holds. */
  function FirstFrom(n: nat, ok: nat -> bool, from: nat): (p: Option<nat>)
    requires from <= n
    ensures p.Some? ==> from <= p.value <= n && ok(p.value)
    decreases n - from
  {
    if ok(from) then Some(from)
    else if from == n then None
    else FirstFrom(n, ok, from + 1)
  }

  /** The first position found is the leftmost one, and nothing is found only when no
      position qualifies. */
  lemma {:induction false} FirstFromLeftmost(n: nat, ok: nat -> bool, from: nat)
    requires from <= n
    ensures var p := FirstFrom(n, ok, from);
      p.Some? ==> forall q :: from <= q < p.value ==> !ok(q)
    ensures FirstFrom(n, ok, from).None? ==> forall q :: from <= q <= n ==> !ok(q)
    decreases n - from
  {
    if !ok(from) && from < n {
      FirstFromLeftmost(n, ok, from + 1);
    }
  }

  /** A position that qualifies, with none before it, is the one found. */
  lemma {:induction false} FirstFromIs(n: nat, ok: nat -> bool, from: nat, p: nat)
    requires from <= p <= n && ok(p) && forall q :: from <= q < p ==> !ok(q)
    ensures FirstFrom(n, ok, from) == Some(p)
    decreases p - from
  {
    if from < p {
      FirstFromIs(n, ok, from + 1, p);
    }
  }

  /** When no position qualifies, nothing is found. */
  lemma {:induction false} FirstFromNone(n: nat, ok: nat -> bool, from: nat)
    requires from <= n && forall q :: from <= q <= n ==> !ok(q)
    ensures FirstFrom(n, ok, from) == None
    decreases n - from
  {
    if from < n {
      FirstFromNone(n, ok, from + 1);
    }
  }
}
