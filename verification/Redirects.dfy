/** What a redirect does to a request: the status tests of src/http_client.cpp and the end
    of the loop of requestAsync. */
module Redirects {
  import UrlParse

  datatype Request = Request(method_: string, url: string, body: string, contentType: string)

  datatype Response = Response(status: nat, keepAlive: bool, location: string)

  predicate IsRedirectStatus(status: nat) {
    status == 301 || status == 302 || status == 303 || status == 307 || status == 308
  }

  predicate RedirectChangesToGet(status: nat) {
    status == 301 || status == 302 || status == 303
  }

  /** A response that leads on to another request. */
  predicate LeadsOn(r: Response) {
    IsRedirectStatus(r.status) && r.location != ""
  }

  function NextRequest(q: Request, r: Response): Request {
    var url := UrlParse.ResolveRedirectUrl(q.url, r.location);
    if RedirectChangesToGet(r.status) then Request("GET", url, "", "") else q.(url := url)
  }

  /** In numbers: which responses lead on, and what they make of the request. */
  lemma StatusNumbers(q: Request, r: Response)
    ensures LeadsOn(r) <==> r.status in {301, 302, 303, 307, 308} && r.location != ""
    ensures var next := NextRequest(q, r);
            && next.url == UrlParse.ResolveRedirectUrl(q.url, r.location)
            && (r.status in {301, 302, 303} ==> next.method_ == "GET" && next.body == "" && next.contentType == "")
            && (r.status in {307, 308} ==>
                  next.method_ == q.method_ && next.body == q.body && next.contentType == q.contentType)
  {
    hide UrlParse.ResolveRedirectUrl;
  }

  function Last<T>(s: seq<T>): T
    requires s != []
  {
    s[|s| - 1]
  }

  /** The request behind a chain of redirects. */
  function Along(q: Request, chain: seq<Response>): Request {
    if chain == [] then q else NextRequest(Along(q, chain[..|chain| - 1]), Last(chain))
  }

  predicate ChangesToGet(chain: seq<Response>) {
    exists k :: 0 <= k < |chain| && RedirectChangesToGet(chain[k].status)
  }

  lemma NoChange()
    ensures !ChangesToGet([])
  {
  }

  lemma ChangesMore(chain: seq<Response>, r: Response)
    ensures ChangesToGet(chain + [r]) <==> ChangesToGet(chain) || RedirectChangesToGet(r.status)
  {
    hide RedirectChangesToGet;
    var all := chain + [r];
    assert all[|chain|] == r;
    if ChangesToGet(chain) {
      var k :| 0 <= k < |chain| && RedirectChangesToGet(chain[k].status);
      assert all[k] == chain[k];
    }
    if ChangesToGet(all) {
      var k :| 0 <= k < |all| && RedirectChangesToGet(all[k].status);
      if k < |chain| { assert chain[k] == all[k]; }
    }
  }

  /** Once one redirect changes the method to GET and drops the body, that stays; 307 and
      308 alone keep both. */
  lemma {:induction false} MethodAlong(q: Request, chain: seq<Response>)
    ensures var r := Along(q, chain);
            if ChangesToGet(chain) then r.method_ == "GET" && r.body == "" && r.contentType == ""
            else r.method_ == q.method_ && r.body == q.body && r.contentType == q.contentType
    decreases |chain|
  {
    hide UrlParse.ResolveRedirectUrl, ChangesToGet, RedirectChangesToGet;
    if chain == [] {
      NoChange();
    } else {
      var init := chain[..|chain| - 1];
      MethodAlong(q, init);
      ChangesMore(init, Last(chain));
      assert init + [Last(chain)] == chain;
    }
  }

  /** Redirects whose Locations name no other host stay at the origin of the first URL. */
  lemma {:induction false} OriginAlong(q: Request, chain: seq<Response>)
    requires UrlParse.ParseUrl(q.url).Some?
    requires forall k :: 0 <= k < |chain| ==> UrlParse.StaysOnHost(chain[k].location)
    ensures var from := UrlParse.ParseUrl(q.url).value; var there := UrlParse.ParseUrl(Along(q, chain).url);
            there.Some? && there.value == from.(path := there.value.path)
    decreases |chain|
  {
    hide UrlParse.ParseUrl, UrlParse.StaysOnHost, UrlParse.ResolveRedirectUrl, UrlParse.Target;
    if chain == [] {
    } else {
      var init := chain[..|chain| - 1];
      OriginAlong(q, init);
      UrlParse.RedirectKeepsOrigin(Along(q, init).url, Last(chain).location);
    }
  }
}
