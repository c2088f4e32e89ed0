/** Frontier discovery for the current year (`find_latest_protocol_number`
    of enhanced_protocol_scraper.py): a binary search for the last
    number the registry answers for. The browser check
    `_check_protocol_exists` is the
    parameter `oracle`; it answers false on every timeout or error. */
module Frontier {

  /** The search never looks above this number. */
  const SearchCeiling: int := 30000

  function Pow2(k: nat): (r: nat)
    ensures r >= 1
  {
    if k == 0 then 1 else 2 * Pow2(k - 1)
  }

  /** `latest` is a boundary of the oracle inside `[0, SearchCeiling]`: the
      oracle said yes at `latest` (or `latest` is 0), and no at
      `latest + 1` (or `latest` is the ceiling). */
  ghost predicate IsFrontier(oracle: int -> bool, latest: int) {
    0 <= latest <= SearchCeiling
    && (latest == 0 || oracle(latest))
    && (latest == SearchCeiling || !oracle(latest + 1))
  }

  /** The loop of `find_latest_protocol_number`; `calls` counts the
      oracle's answers. */
  method FindLatestProtocolNumber(oracle: int -> bool) returns (latest: int, ghost calls: nat)
    ensures IsFrontier(oracle, latest)
    ensures calls <= 15
  {
    var low, high := 1, SearchCeiling;
    latest := 0;
    calls := 0;
    assert Pow2(15) == 32768;
    while low <= high
      invariant 1 <= low <= high + 1 && high <= SearchCeiling
      invariant latest == low - 1
      invariant latest == 0 || oracle(latest)
      invariant high == SearchCeiling || !oracle(high + 1)
      invariant calls <= 15 && high - low + 1 < Pow2(15 - calls)
      decreases high - low + 1
    {
      var mid := (low + high) / 2;
      ghost var size := high - low + 1;
      assert calls < 15;
      assert Pow2(15 - calls) == 2 * Pow2(15 - (calls + 1));
      if oracle(mid) {
        latest := mid;
        low := mid + 1;
      } else {
        high := mid - 1;
      }
      calls := calls + 1;
    }
  }

  /** With an oracle that is true exactly on `1..k`, the search finds `k` ... */
  lemma FrontierOfStepOracle(k: int, latest: int)
    requires 0 <= k <= SearchCeiling
    requires IsFrontier(n => 1 <= n <= k, latest)
    ensures latest == k
  {
  }

  /** ... and with an oracle that is never true, it finds 0. */
  lemma FrontierOfSilentOracle(latest: int)
    requires IsFrontier(n => false, latest)
    ensures latest == 0
  {
  }

  /** An oracle that only says yes for numbers that exist (every timeout
      or error counts as no) never leads the search past the last number
      that really exists, `lastReal`. */
  lemma FrontierNeverOvershoots(oracle: int -> bool, lastReal: int, latest: int)
    requires lastReal >= 0
    requires forall n :: oracle(n) ==> n <= lastReal
    requires IsFrontier(oracle, latest)
    ensures latest <= lastReal
  {
  }

  /** When the oracle is downward closed on `[1, SearchCeiling]` (every
      number below an existing one exists), the boundary splits the range:
      yes on `1..latest`, no from `latest + 1` up to the ceiling. */
  lemma {:induction false} FrontierOfMonotoneOracle(oracle: int -> bool, latest: int)
    requires forall m, n :: 1 <= m <= n <= SearchCeiling && oracle(n) ==> oracle(m)
    requires IsFrontier(oracle, latest)
    ensures forall n :: 1 <= n <= latest ==> oracle(n)
    ensures forall n :: latest < n <= SearchCeiling ==> !oracle(n)
  {
    forall n | latest < n <= SearchCeiling
      ensures !oracle(n)
    {
      assert oracle(n) ==> oracle(latest + 1);
    }
  }
}
