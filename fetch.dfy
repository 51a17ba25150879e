// `tryFetch` and the first-success rule of `loadFragment`. The network is an
// oracle: a total function from URL to the reply that `fetch` would give.
module Fetch {

  datatype Option<T> = None | Some(value: T)

  /** What `fetch(url)` yields: a rejected promise, or a response. */
  datatype Reply = Rejected | Response(status: int, body: string)

  type Network = string -> Reply

  /** `Response.ok`: the status is in the range 200-299. */
  predicate OkStatus(status: int)
    ensures OkStatus(status) <==> status / 100 == 2
  {
    200 <= status <= 299
  }

  /**
   * `tryFetch`: the body of an ok response, or null (None) for a rejected
   * fetch or a non-ok status.
   */
  function TryFetch(net: Network, url: string): (html: Option<string>)
    ensures html.Some? <==> net(url).Response? && OkStatus(net(url).status)
    ensures html.Some? ==> html.value == net(url).body
  {
    match net(url)
    case Rejected => None
    case Response(status, body) => if OkStatus(status) then Some(body) else None
  }

  /** JavaScript truthiness of the string-or-null that `tryFetch` returns. */
  predicate Truthy(html: Option<string>)
    ensures Truthy(html) <==> html != None && html != Some("")
  {
    html.Some? && html.value != ""
  }

  /**
   * A candidate fails (the loader moves on) exactly on a rejected fetch, a
   * non-ok status, or an ok response with an empty body.
   */
  lemma ProbeFails(net: Network, url: string)
    ensures !Truthy(TryFetch(net, url)) <==>
      net(url).Rejected? || !OkStatus(net(url).status) || net(url).body == ""
  {
  }

  /** Candidate k is the first one whose probe gives a truthy body. */
  ghost predicate FirstHitAt(net: Network, cands: seq<string>, k: int)
  {
    0 <= k < |cands| && Truthy(TryFetch(net, cands[k])) &&
    forall j :: 0 <= j < k ==> !Truthy(TryFetch(net, cands[j]))
  }

  /** The body the loader injects: the first truthy probe result, if any. */
  function FirstBody(net: Network, cands: seq<string>): (html: Option<string>)
    ensures html.Some? ==> html.value != ""
    ensures html.Some? ==> exists k :: 0 <= k < |cands| && TryFetch(net, cands[k]) == html
  {
    if cands == [] then None
    else
      var html := TryFetch(net, cands[0]);
      if Truthy(html) then html
      else
        var later := FirstBody(net, cands[1..]);
        assert later.Some? ==> exists k :: 0 <= k < |cands| - 1 && TryFetch(net, cands[1..][k]) == later;
        assert later.Some? ==> exists k :: 1 <= k < |cands| && TryFetch(net, cands[k]) == later;
        later
  }

  /** When candidate k is the first hit, the loader injects its body. */
  lemma {:induction false} FirstBodyAt(net: Network, cands: seq<string>, k: nat)
    requires FirstHitAt(net, cands, k)
    ensures FirstBody(net, cands) == TryFetch(net, cands[k])
  {
    if k > 0 {
      assert !Truthy(TryFetch(net, cands[0]));
      forall j | 0 <= j < k - 1 ensures !Truthy(TryFetch(net, cands[1..][j])) {
        assert cands[1..][j] == cands[j + 1];
      }
      FirstBodyAt(net, cands[1..], k - 1);
    }
  }

  /** Conversely, a body that the loader injects comes from the first hit. */
  lemma {:induction false} FirstBodyHasHit(net: Network, cands: seq<string>)
    requires FirstBody(net, cands).Some?
    ensures exists k :: FirstHitAt(net, cands, k) && FirstBody(net, cands) == TryFetch(net, cands[k])
  {
    if Truthy(TryFetch(net, cands[0])) {
      assert FirstHitAt(net, cands, 0);
    } else {
      FirstBodyHasHit(net, cands[1..]);
      var k :| FirstHitAt(net, cands[1..], k) && FirstBody(net, cands[1..]) == TryFetch(net, cands[1..][k]);
      forall j | 0 <= j < k + 1 ensures !Truthy(TryFetch(net, cands[j])) {
        if j > 0 { assert cands[j] == cands[1..][j - 1]; }
      }
      assert cands[k + 1] == cands[1..][k];
      assert FirstHitAt(net, cands, k + 1);
    }
  }

  /** Nothing is injected exactly when every candidate fails. */
  lemma {:induction false} FirstBodyNoneIff(net: Network, cands: seq<string>)
    ensures FirstBody(net, cands).None? <==>
      forall j :: 0 <= j < |cands| ==> !Truthy(TryFetch(net, cands[j]))
  {
    if cands != [] {
      FirstBodyNoneIff(net, cands[1..]);
      if !Truthy(TryFetch(net, cands[0])) {
        assert forall j :: 1 <= j < |cands| ==> cands[j] == cands[1..][j - 1];
      }
    }
  }

  /**
   * First success wins: once candidate k is a hit, what the network would
   * answer for any later candidate does not matter.
   */
  lemma LaterCandidatesIrrelevant(net: Network, net': Network, cands: seq<string>, k: nat)
    requires FirstHitAt(net, cands, k)
    requires forall j :: 0 <= j <= k ==> net'(cands[j]) == net(cands[j])
    ensures FirstBody(net', cands) == FirstBody(net, cands)
  {
    FirstBodyAt(net, cands, k);
    assert FirstHitAt(net', cands, k);
    FirstBodyAt(net', cands, k);
  }
}
