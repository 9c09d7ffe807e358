/**
 * "Regenerate until different": the loops at the one-shot change and in each
 * rotation tick that draw new addresses until one differs, ignoring case,
 * from the interface's current address. The random draws are a given finite
 * sequence; running out of them is an outcome of the model only.
 */
module Regenerate {
  import opened Wrappers
  import opened Text
  import opened Generator

  /** The addresses successive `random_mac()` calls produce for the given draws. */
  function RandomMacs(draws: seq<Draw>): (macs: seq<string>)
    ensures |macs| == |draws|
    ensures forall k :: 0 <= k < |draws| ==> macs[k] == RandomMac(draws[k])
    decreases |draws|
  {
    if draws == [] then [] else [RandomMac(draws[0])] + RandomMacs(draws[1..])
  }

  /** The addresses the loop considers, in order: the user's `-m` value if any, then fresh draws. */
  function Candidates(manual: Option<string>, draws: seq<Draw>): seq<string>
  {
    (if manual.Some? then [manual.value] else []) + RandomMacs(draws)
  }

  /** The first n candidates all equal `current`, ignoring case. */
  predicate AllSame(candidates: seq<string>, current: string, n: nat)
    requires n <= |candidates|
  {
    forall j :: 0 <= j < n ==> SameMac(candidates[j], current)
  }

  /** The first candidate that differs from `current` ignoring case, if there is one. */
  function FirstDifferent(candidates: seq<string>, current: string): (r: Option<string>)
    ensures r.None? <==> AllSame(candidates, current, |candidates|)
    ensures r.Some? ==> !SameMac(r.value, current)
    ensures r.Some? ==> exists k :: 0 <= k < |candidates| && candidates[k] == r.value && AllSame(candidates, current, k)
    decreases |candidates|
  {
    if candidates == [] then None
    else if !SameMac(candidates[0], current) then Some(candidates[0])
    else
      var r := FirstDifferent(candidates[1..], current);
      assert r.Some? ==> exists k :: 1 <= k < |candidates| && candidates[k] == r.value && AllSame(candidates, current, k) by {
        if r.Some? {
          var k :| 0 <= k < |candidates[1..]| && candidates[1..][k] == r.value && AllSame(candidates[1..], current, k);
          assert candidates[k + 1] == r.value;
          forall j | 0 <= j < k + 1
            ensures SameMac(candidates[j], current)
          {
            if j > 0 {
              assert candidates[j] == candidates[1..][j - 1];
            }
          }
        }
      }
      assert AllSame(candidates, current, |candidates|) <==> AllSame(candidates[1..], current, |candidates[1..]|) by {
        if AllSame(candidates[1..], current, |candidates[1..]|) {
          forall k | 0 <= k < |candidates|
            ensures SameMac(candidates[k], current)
          {
            if k > 0 {
              assert candidates[k] == candidates[1..][k - 1];
            }
          }
        }
      }
      r
  }

  /**
   * The address a change uses: the `-m` value if one is given, else a draw,
   * redrawn for as long as it equals the current address ignoring case. A
   * rotation tick is the same loop without a `-m` value.
   */
  method PickNewMac(manual: Option<string>, current: string, draws: seq<Draw>) returns (mac: Option<string>)
    ensures mac == FirstDifferent(Candidates(manual, draws), current)
    ensures mac.Some? ==> !SameMac(mac.value, current)
    ensures manual.Some? && !SameMac(manual.value, current) ==> mac == manual
  {
    var candidate: string;
    var used := 0;
    if manual.Some? {
      candidate := manual.value;
    } else {
      if |draws| == 0 {
        return None;
      }
      candidate := RandomMac(draws[0]);
      used := 1;
      assert Candidates(manual, draws) == [candidate] + RandomMacs(draws[1..]);
    }
    assert Candidates(manual, draws) == [candidate] + RandomMacs(draws[used..]);
    while SameMac(candidate, current)
      invariant 0 <= used <= |draws|
      invariant FirstDifferent(Candidates(manual, draws), current)
             == FirstDifferent([candidate] + RandomMacs(draws[used..]), current)
      decreases |draws| - used
    {
      assert ([candidate] + RandomMacs(draws[used..]))[1..] == RandomMacs(draws[used..]);
      if used == |draws| {
        return None;
      }
      candidate := RandomMac(draws[used]);
      assert draws[used..][1..] == draws[used + 1..];
      used := used + 1;
    }
    mac := Some(candidate);
  }
}
