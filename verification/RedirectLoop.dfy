/**
 * The redirect loop of `probe` in src/probe.rs. One connection with its request and response is an answer of an
 * arbitrary world; so are URL joining and scheme extraction.
 */
module RedirectLoop {
  import opened Wrappers
  import opened Types
  import Headers

  datatype Config = Config(url: string, method_: string, body: Option<string>, resolve: Option<string>, maxRedirects: nat)

  /** The arguments of one hop. */
  datatype HopRequest = HopRequest(url: string, method_: string, body: Option<string>, resolve: Option<string>)

  datatype World = World(
    respond: (nat, HopRequest) -> Result<HopResult, ProbeError>,
    join: (string, string) -> Option<string>,
    scheme: string -> string)

  predicate IsRedirectStatus(status: nat) { 300 <= status < 400 }

  predicate DropsBody(status: nat) { 301 <= status <= 303 }

  function Location(hop: HopResult): Option<string> {
    if IsRedirectStatus(hop.status) then Headers.Find(hop.responseHeaders, "location") else None
  }

  /** Where a response at `url` points, if anywhere it can be resolved to. */
  ghost function Target(w: World, url: string, hop: HopResult): Option<string> {
    if Location(hop).Some? then w.join(url, Location(hop).value) else None
  }

  ghost predicate Followable(w: World, url: string) { w.scheme(url) == "http" || w.scheme(url) == "https" }

  // ---------------------------------------------------------------------------
  // What a finished run looks like
  // ---------------------------------------------------------------------------

  /** Some hop before the i-th answered 301, 302 or 303. */
  ghost predicate DroppedBefore(hops: seq<HopResult>, i: nat)
    requires i <= |hops|
  {
    exists j :: 0 <= j < i && DropsBody(hops[j].status)
  }

  /** The i-th request follows from the hops before it. */
  ghost predicate RequestFollows(cfg: Config, requests: seq<HopRequest>, hops: seq<HopResult>, i: nat)
    requires i < |requests| && i <= |hops|
  {
    && (i == 0 ==> requests[i].url == cfg.url)
    && requests[i].method_ == (if DroppedBefore(hops, i) then "GET" else cfg.method_)
    && requests[i].body == (if DroppedBefore(hops, i) then None else cfg.body)
    && requests[i].resolve == (if i == 0 then cfg.resolve else None)
  }

  /** The i-th hop is the world's answer to the i-th request, with the resolved target written in. */
  ghost predicate HopAnswers(w: World, requests: seq<HopRequest>, hops: seq<HopResult>, i: nat)
    requires i < |requests| && i < |hops|
  {
    && w.respond(i, requests[i]).Ok?
    && var answer := w.respond(i, requests[i]).value;
       hops[i] == answer.(url := requests[i].url, redirectTo := Target(w, requests[i].url, answer))
  }

  /** The i-th hop redirects to the next request. */
  ghost predicate HopContinues(w: World, cfg: Config, requests: seq<HopRequest>, hops: seq<HopResult>, i: nat)
    requires i + 1 < |requests| && i < |hops|
  {
    && i < cfg.maxRedirects
    && IsRedirectStatus(hops[i].status)
    && hops[i].redirectTo == Some(requests[i + 1].url)
    && Followable(w, requests[i + 1].url)
  }

  /** How the loop ends on a hop it does not follow. */
  ghost function Ending(w: World, cfg: Config, index: nat, hop: HopResult): Option<ProbeError> {
    if hop.redirectTo.None? then
      if Location(hop).Some? && cfg.maxRedirects > 0
      then Some(ProbeError(Redirect, "invalid redirect location", false)) else None
    else if cfg.maxRedirects == 0 then None
    else if index >= cfg.maxRedirects then Some(ProbeError(Redirect, "too many redirects", false))
    else Some(ProbeError(Redirect, "unsupported redirect scheme", false))
  }

  /** The chain so far: every request and hop accounted for, each hop leading to the next request. */
  ghost predicate Chain(w: World, cfg: Config, requests: seq<HopRequest>, hops: seq<HopResult>) {
    && |hops| <= |requests| <= |hops| + 1
    && (forall i :: 0 <= i < |requests| ==> RequestFollows(cfg, requests, hops, i))
    && (forall i :: 0 <= i < |hops| ==> HopAnswers(w, requests, hops, i))
    && (forall i :: 0 <= i < |requests| - 1 ==> HopContinues(w, cfg, requests, hops, i))
  }

  /** The run stopped for the right reason. */
  ghost predicate Finished(w: World, cfg: Config, requests: seq<HopRequest>, hops: seq<HopResult>,
                           error: Option<ProbeError>)
    requires Chain(w, cfg, requests, hops)
  {
    && requests != []
    && var last := |requests| - 1;
       if w.respond(last, requests[last]).Err? then
         |hops| == last && error == Some(w.respond(last, requests[last]).error)
       else
         && |hops| == last + 1
         && error == Ending(w, cfg, last, hops[last])
         && (hops[last].redirectTo.Some? && 0 < cfg.maxRedirects && last < cfg.maxRedirects ==>
               !Followable(w, hops[last].redirectTo.value))
  }

  ghost predicate Leads(w: World, hop: HopResult, url: string) {
    IsRedirectStatus(hop.status) && hop.redirectTo == Some(url) && Followable(w, url)
  }

  lemma DroppedExtends(hops: seq<HopResult>)
    requires hops != []
    ensures var n := |hops| - 1;
            DroppedBefore(hops, n + 1) <==> DroppedBefore(hops[..n], n) || DropsBody(hops[n].status)
  {
    var n := |hops| - 1;
    if DroppedBefore(hops, n + 1) {
      var j :| 0 <= j < n + 1 && DropsBody(hops[j].status);
      assert j < n ==> DropsBody(hops[..n][j].status);
    }
    if DroppedBefore(hops[..n], n) {
      var j :| 0 <= j < n && DropsBody(hops[..n][j].status);
      assert DropsBody(hops[j].status);
    }
    if DropsBody(hops[n].status) {
      assert DroppedBefore(hops, n + 1);
    }
  }

  lemma DroppedStable(hops: seq<HopResult>, hop: HopResult, i: nat)
    requires i <= |hops|
    ensures DroppedBefore(hops + [hop], i) <==> DroppedBefore(hops, i)
  {
    var longer := hops + [hop];
    if DroppedBefore(hops, i) {
      var j :| 0 <= j < i && DropsBody(hops[j].status);
      assert DropsBody(longer[j].status);
    }
    if DroppedBefore(longer, i) {
      var j :| 0 <= j < i && DropsBody(longer[j].status);
      assert DropsBody(hops[j].status);
    }
  }

  lemma StartOfChain(w: World, cfg: Config)
    ensures Chain(w, cfg, [], []) && !DroppedBefore([], 0)
  {}

  lemma ExtendRequests(w: World, cfg: Config, requests: seq<HopRequest>, hops: seq<HopResult>, request: HopRequest)
    requires Chain(w, cfg, requests, hops) && |requests| == |hops|
    requires hops == [] ==> request.url == cfg.url
    requires request.method_ == (if DroppedBefore(hops, |hops|) then "GET" else cfg.method_)
    requires request.body == (if DroppedBefore(hops, |hops|) then None else cfg.body)
    requires request.resolve == (if hops == [] then cfg.resolve else None)
    requires hops != [] ==> |hops| <= cfg.maxRedirects && Leads(w, hops[|hops| - 1], request.url)
    ensures Chain(w, cfg, requests + [request], hops)
  {
    var longer := requests + [request];
    forall i | 0 <= i < |longer|
      ensures RequestFollows(cfg, longer, hops, i)
    {
      assert i < |requests| ==> RequestFollows(cfg, requests, hops, i);
    }
    forall i | 0 <= i < |hops|
      ensures HopAnswers(w, longer, hops, i)
    {
      assert HopAnswers(w, requests, hops, i);
    }
    forall i | 0 <= i < |longer| - 1
      ensures HopContinues(w, cfg, longer, hops, i)
    {
      assert i < |requests| - 1 ==> HopContinues(w, cfg, requests, hops, i);
    }
  }

  lemma ExtendHops(w: World, cfg: Config, requests: seq<HopRequest>, hops: seq<HopResult>, hop: HopResult)
    requires Chain(w, cfg, requests, hops) && |requests| == |hops| + 1
    requires w.respond(|hops|, requests[|hops|]).Ok?
    requires var answer := w.respond(|hops|, requests[|hops|]).value;
             hop == answer.(url := requests[|hops|].url, redirectTo := Target(w, requests[|hops|].url, answer))
    ensures Chain(w, cfg, requests, hops + [hop])
  {
    var longer := hops + [hop];
    forall i | 0 <= i < |requests|
      ensures RequestFollows(cfg, requests, longer, i)
    {
      assert RequestFollows(cfg, requests, hops, i);
      DroppedStable(hops, hop, i);
    }
    forall i | 0 <= i < |longer|
      ensures HopAnswers(w, requests, longer, i)
    {
      assert i < |hops| ==> HopAnswers(w, requests, hops, i);
    }
    forall i | 0 <= i < |requests| - 1
      ensures HopContinues(w, cfg, requests, longer, i)
    {
      assert HopContinues(w, cfg, requests, hops, i);
    }
  }

  method Probe(cfg: Config, w: World)
    returns (requests: seq<HopRequest>, hops: seq<HopResult>, error: Option<ProbeError>)
    ensures Chain(w, cfg, requests, hops) && Finished(w, cfg, requests, hops, error)
  {
    hide Chain, RequestFollows, HopAnswers, HopContinues, DroppedBefore, DropsBody, IsRedirectStatus;
    StartOfChain(w, cfg);
    hops, requests, error := [], [], None;
    var currentUrl := cfg.url;
    var currentMethod := cfg.method_;
    var currentBody := cfg.body;
    var hopIndex: nat := 0;
    while true
      invariant hopIndex == |hops| == |requests| <= cfg.maxRedirects
      invariant Chain(w, cfg, requests, hops)
      invariant hopIndex == 0 ==> currentUrl == cfg.url
      invariant currentMethod == (if DroppedBefore(hops, hopIndex) then "GET" else cfg.method_)
      invariant currentBody == (if DroppedBefore(hops, hopIndex) then None else cfg.body)
      invariant hopIndex > 0 ==> Leads(w, hops[hopIndex - 1], currentUrl)
      decreases cfg.maxRedirects - hopIndex
    {
      var resolve := if hopIndex == 0 then cfg.resolve else None;
      var request := HopRequest(currentUrl, currentMethod, currentBody, resolve);
      ExtendRequests(w, cfg, requests, hops, request);
      requests := requests + [request];
      var answer := w.respond(hopIndex, request);
      if answer.Err? {
        error := Some(answer.error);
        break;
      }
      var hop := answer.value.(url := currentUrl, redirectTo := None);
      var status := hop.status;
      var location := Location(hop);
      var nextUrl: Option<string> := None;
      if location.Some? {
        var joined := w.join(currentUrl, location.value);
        if joined.Some? {
          hop := hop.(redirectTo := joined);
          nextUrl := joined;
        } else if cfg.maxRedirects > 0 {
          ExtendHops(w, cfg, requests, hops, hop);
          hops := hops + [hop];
          error := Some(ProbeError(Redirect, "invalid redirect location", false));
          break;
        }
      }
      ExtendHops(w, cfg, requests, hops, hop);
      hops := hops + [hop];
      if nextUrl.None? {
        break;
      }
      if cfg.maxRedirects == 0 {
        break;
      }
      if hopIndex >= cfg.maxRedirects {
        error := Some(ProbeError(Redirect, "too many redirects", false));
        break;
      }
      var scheme := w.scheme(nextUrl.value);
      if scheme != "http" && scheme != "https" {
        error := Some(ProbeError(Redirect, "unsupported redirect scheme", false));
        break;
      }
      if DropsBody(status) {
        currentMethod := "GET";
        currentBody := None;
      }
      DroppedExtends(hops);
      currentUrl := nextUrl.value;
      hopIndex := hopIndex + 1;
    }
  }

  // ---------------------------------------------------------------------------
  // Consequences for every run
  // ---------------------------------------------------------------------------

  /** At most maxRedirects + 1 connections, and the chain of redirect targets is unbroken. */
  lemma ChainIsBoundedAndLinked(w: World, cfg: Config, requests: seq<HopRequest>, hops: seq<HopResult>,
                                error: Option<ProbeError>)
    requires Chain(w, cfg, requests, hops) && Finished(w, cfg, requests, hops, error)
    ensures |hops| <= |requests| <= cfg.maxRedirects + 1
    ensures forall i :: 0 <= i < |hops| - 1 ==>
              IsRedirectStatus(hops[i].status) && hops[i].redirectTo == Some(hops[i + 1].url)
    ensures hops != [] ==> hops[0].url == cfg.url
  {
    assert RequestFollows(cfg, requests, hops, 0);
    if |requests| > 1 {
      assert HopContinues(w, cfg, requests, hops, |requests| - 2);
    }
    forall i | 0 <= i < |hops| - 1
      ensures IsRedirectStatus(hops[i].status) && hops[i].redirectTo == Some(hops[i + 1].url)
    {
      assert HopContinues(w, cfg, requests, hops, i);
      assert HopAnswers(w, requests, hops, i + 1);
    }
    if hops != [] {
      assert HopAnswers(w, requests, hops, 0);
    }
  }

  /** When redirects are followed, success means a last hop that points nowhere. */
  lemma SuccessEndsTheChain(w: World, cfg: Config, requests: seq<HopRequest>, hops: seq<HopResult>,
                            error: Option<ProbeError>)
    requires Chain(w, cfg, requests, hops) && Finished(w, cfg, requests, hops, error)
    ensures error.None? ==> |hops| == |requests| >= 1
    ensures error.None? && cfg.maxRedirects > 0 ==> hops[|hops| - 1].redirectTo.None?
    ensures cfg.maxRedirects == 0 ==> |requests| == 1 && (error.Some? <==> w.respond(0, requests[0]).Err?)
  {
    ChainIsBoundedAndLinked(w, cfg, requests, hops, error);
  }

  /** "Too many redirects" is reported exactly when maxRedirects + 1 hops all redirected. */
  lemma LimitIsExact(w: World, cfg: Config, requests: seq<HopRequest>, hops: seq<HopResult>, error: Option<ProbeError>)
    requires Chain(w, cfg, requests, hops) && Finished(w, cfg, requests, hops, error)
    requires w.respond(|requests| - 1, requests[|requests| - 1]).Ok?
    ensures error == Some(ProbeError(Redirect, "too many redirects", false))
            <==> cfg.maxRedirects > 0 && |hops| == cfg.maxRedirects + 1 && hops[cfg.maxRedirects].redirectTo.Some?
  {
    ChainIsBoundedAndLinked(w, cfg, requests, hops, error);
    assert "too many redirects" != "unsupported redirect scheme" && "too many redirects" != "invalid redirect location" by {
      assert |"too many redirects"| != |"unsupported redirect scheme"|;
      assert |"too many redirects"| != |"invalid redirect location"|;
    }
  }

  /** A request is a bodiless GET exactly from the first 301, 302 or 303 on; before that it is what was configured. */
  lemma BodyDropIsExact(w: World, cfg: Config, requests: seq<HopRequest>, hops: seq<HopResult>, i: nat)
    requires Chain(w, cfg, requests, hops) && i < |requests|
    ensures if exists j :: 0 <= j < i && hops[j].status in {301, 302, 303}
            then requests[i].method_ == "GET" && requests[i].body == None
            else requests[i].method_ == cfg.method_ && requests[i].body == cfg.body
  {
    assert RequestFollows(cfg, requests, hops, i);
  }

  /** A hop records a target exactly when its status is 3xx and its first Location header can be joined to its URL. */
  lemma TargetIsExact(w: World, cfg: Config, requests: seq<HopRequest>, hops: seq<HopResult>, i: nat)
    requires Chain(w, cfg, requests, hops) && i < |hops|
    ensures var location := Headers.Find(hops[i].responseHeaders, "location");
            hops[i].redirectTo ==
            if 300 <= hops[i].status <= 399 && location.Some? then w.join(hops[i].url, location.value) else None
  {
    assert HopAnswers(w, requests, hops, i);
  }
}
