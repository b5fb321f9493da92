/** The `/check` request: keep the candidate hrefs that start with "http",
    cut the list at the configured maximum, and check every URL left. */
module Request {
  import Seqs
  import opened Checker

  /** `String.prototype.startsWith("http")`. */
  predicate IsHttp(s: string) { |s| >= 4 && s[..4] == "http" }

  function Hrefs(candidates: seq<string>): seq<string>
  {
    Seqs.Filter(candidates, IsHttp)
  }

  function Min(a: nat, b: nat): nat { if a <= b then a else b }

  /** `Array.prototype.slice(0, k)` for a non-negative `k`: the first `k`
      elements, or all of them when there are fewer. */
  function Slice<T>(xs: seq<T>, k: nat): (r: seq<T>)
    ensures |r| == Min(|xs|, k)
    ensures forall i :: 0 <= i < |r| ==> r[i] == xs[i]
  {
    if k < |xs| then xs[..k] else xs
  }

  /** The hrefs kept are exactly the candidates starting with "http", as a
      subsequence of the candidates in their original order. */
  lemma HrefsExact(candidates: seq<string>)
    ensures var urls, idx := Hrefs(candidates), Seqs.Positions(candidates, IsHttp);
            && |urls| == |idx|
            && (forall k :: 0 <= k < |idx| ==> urls[k] == candidates[idx[k]])
            && (forall j, k :: 0 <= j < k < |idx| ==> idx[j] < idx[k])
            && (forall i :: 0 <= i < |candidates| ==> (i in idx <==> IsHttp(candidates[i])))
    ensures forall u :: u in Hrefs(candidates) <==> u in candidates && IsHttp(u)
  {
    Seqs.EmitAligned(candidates, IsHttp, Seqs.Id);
    forall u ensures u in Hrefs(candidates) <==> u in candidates && IsHttp(u) {
      Seqs.EmitMember(candidates, IsHttp, Seqs.Id, u);
    }
  }

  /** As many hrefs are kept as there are candidates starting with "http". */
  lemma HrefsCount(candidates: seq<string>)
    ensures |Hrefs(candidates)| == |set i: nat | i < |candidates| && IsHttp(candidates[i])|
  {
    Seqs.EmitCount(candidates, IsHttp, Seqs.Id);
    assert Seqs.KeptSet(candidates, IsHttp) == set i: nat | i < |candidates| && IsHttp(candidates[i]);
  }

  /** The handler: scan the candidate hrefs in match order, keep the absolute
      ones, slice, and check each retained URL; `load` stands for the browser
      rendering a URL.  The checks run one after another here; only the order
      of their results is observable. */
  method CheckRequest(candidates: seq<string>, maxChecks: nat, load: string -> Navigation)
    returns (results: seq<CheckResult>)
    ensures |results| == Min(|Hrefs(candidates)|, maxChecks)
    ensures forall k :: 0 <= k < |results| ==>
              var url := Hrefs(candidates)[k];
              results[k] == CheckURL(url, load(url))
    ensures forall k :: 0 <= k < |results| ==> IsHttp(results[k].url) && Consistent(results[k])
  {
    var urls: seq<string> := [];
    var i := 0;
    while i < |candidates|
      invariant i <= |candidates|
      invariant urls == Hrefs(candidates[..i])
    {
      assert candidates[..i + 1][..i] == candidates[..i];
      if IsHttp(candidates[i]) {
        urls := urls + [candidates[i]];
      }
      i := i + 1;
    }
    assert candidates[..i] == candidates;

    var retained := Slice(urls, maxChecks);
    results := [];
    for j := 0 to |retained|
      invariant |results| == j
      invariant forall k :: 0 <= k < j ==> results[k] == CheckURL(retained[k], load(retained[k]))
    {
      results := results + [CheckURL(retained[j], load(retained[j]))];
    }
    HrefsExact(candidates);
  }
}
