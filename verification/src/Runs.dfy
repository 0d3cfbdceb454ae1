/** What all page allocators of the kernel promise: the lowest run of consecutive free pages. */
module Runs {
  /** The `k` consecutive pages from `s`. */
  function Run(s: nat, k: nat): (r: set<nat>)
    ensures forall p :: p in r <==> s <= p < s + k
  {
    if k == 0 then {} else Run(s, k - 1) + {s + k - 1}
  }

  lemma RunGrows(a: set<nat>, s: nat, k: nat)
    requires k > 0
    ensures a + Run(s, k - 1) + {s + k - 1} == a + Run(s, k)
    ensures Run(s, k - 1) <= Run(s, k) && s + k - 1 in Run(s, k) && s + k - 1 !in Run(s, k - 1)
  {
  }

  lemma RunSize(s: nat, k: nat)
    ensures |Run(s, k)| == k
  {
    if k != 0 { RunSize(s, k - 1); }
  }

  /** A run of `k` pages may be taken at `s`. */
  ghost predicate Fits(free: set<nat>, s: nat, k: nat) {
    s in free && Run(s, k) <= free
  }

  ghost predicate IsLeastRun(free: set<nat>, s: nat, k: nat) {
    Fits(free, s, k) && forall s' :: Fits(free, s', k) ==> s <= s'
  }

  ghost predicate NoRun(free: set<nat>, k: nat) {
    forall s :: !Fits(free, s, k)
  }

  /** The lowest run is unique, so allocators that find it agree. */
  lemma LeastRunUnique(free: set<nat>, s: nat, s': nat, k: nat)
    requires IsLeastRun(free, s, k) && IsLeastRun(free, s', k)
    ensures s == s'
  {
    assert s <= s' && s' <= s;
  }
}
