/** The notice proxy's `GET` handler: it checks the `category` query
    parameter against a fixed table, forwards the request to the upstream
    search endpoint of that category, and passes the upstream answer back
    or turns a failure into an error message. */
module NoticeRoute {
  import opened Results
  import opened Text
  import opened Json

  /** `categoryMap`: category name to upstream endpoint name. */
  const CategoryMap: map<string, string> := map[
    "학사" := "academic-notices",
    "장학" := "scholarship-notices",
    "일반" := "hankyong-notices",
    "학사일정" := "academic-schedule",
    "학생식단" := "student-meals",
    "교직원식단" := "faculty-meals",
    "기숙사식단" := "dorm-meals"
  ]

  const UrlPrefix := "http://211.188.57.74:8080/api/"
  const UrlSuffix := "/search"

  const InvalidCategoryText := "유효하지 않은 카테고리입니다."
  const UpstreamErrorText := "서버 응답 오류"
  const ProxyFailureText := "프록시 요청 실패"

  /** A JSON response body: an `{ error }` object or the upstream data. */
  datatype Payload = ErrorMessage(error: string) | PassThrough(body: Body)

  datatype Response = Response(status: int, payload: Payload)

  /** What the handler does before any network traffic: answer at once,
      or call the upstream at a URL. */
  datatype Plan = Reject(response: Response) | Forward(url: string)

  /** The table accepts exactly seven categories, each with its own
      endpoint. */
  lemma CategoryTable()
    ensures CategoryMap.Keys == {"학사", "장학", "일반", "학사일정", "학생식단", "교직원식단", "기숙사식단"}
    ensures |CategoryMap| == 7
    ensures forall a, b :: a in CategoryMap && b in CategoryMap && a != b ==> CategoryMap[a] != CategoryMap[b]
  {
    CategoryKeys();
    CategoryEndpointsDistinct();
  }

  lemma CategoryKeys()
    ensures CategoryMap.Keys == {"학사", "장학", "일반", "학사일정", "학생식단", "교직원식단", "기숙사식단"}
    ensures |CategoryMap| == 7
  {
    var keys := CategoryMap.Keys;
    assert keys == {"학사", "장학", "일반", "학사일정", "학생식단", "교직원식단", "기숙사식단"};
    assert |keys| == 7;
  }

  lemma CategoryEndpointsDistinct()
    ensures forall a, b :: a in CategoryMap && b in CategoryMap && a != b ==> CategoryMap[a] != CategoryMap[b]
  {
  }

  /** `http://…/api/${endpoint}/search`. */
  function ApiUrl(endpoint: string): (r: string)
    ensures StartsWith(r, UrlPrefix)
    ensures |r| == |UrlPrefix| + |endpoint| + |UrlSuffix|
    ensures r[|r| - |UrlSuffix|..] == UrlSuffix
  {
    UrlPrefix + endpoint + UrlSuffix
  }

  /** The endpoint a URL names, by stripping prefix and suffix. */
  function EndpointOf(url: string): string
    requires |url| >= |UrlPrefix| + |UrlSuffix|
  {
    url[|UrlPrefix|..|url| - |UrlSuffix|]
  }

  /** The URL loses nothing of its endpoint, so distinct categories call
      distinct URLs. */
  lemma ApiUrlEndpoint(endpoint: string)
    ensures EndpointOf(ApiUrl(endpoint)) == endpoint
  {
    var r := ApiUrl(endpoint);
    assert r[|UrlPrefix|..|r| - |UrlSuffix|] == endpoint;
  }

  lemma ApiUrlInjective(a: string, b: string)
    requires ApiUrl(a) == ApiUrl(b)
    ensures a == b
  {
    ApiUrlEndpoint(a);
    ApiUrlEndpoint(b);
  }

  /** Lines 14-21: a missing or unknown category is answered with 400 and
      no upstream call; a known one is forwarded to its endpoint's URL. */
  function PlanFor(category: Option<string>): (r: Plan)
    ensures r.Reject? <==> category.None? || category.value !in CategoryMap
    ensures r.Reject? ==> r.response == Response(400, ErrorMessage(InvalidCategoryText))
    ensures r.Forward? ==> r.url == ApiUrl(CategoryMap[category.value])
  {
    match category
    case None => Reject(Response(400, ErrorMessage(InvalidCategoryText)))
    case Some(c) =>
      if c == "" || c !in CategoryMap then Reject(Response(400, ErrorMessage(InvalidCategoryText)))
      else Forward(ApiUrl(CategoryMap[c]))
  }

  /** Lines 23-34: the answer to the upstream outcome. A body that is not
      JSON makes `res.json()` throw, which the `catch` turns into 500. */
  function Finish(upstream: Fetch): (r: Response)
    ensures upstream.NetworkError? ==> r == Response(500, ErrorMessage(ProxyFailureText))
    ensures upstream.Responded? && !upstream.ok ==> r == Response(upstream.status, ErrorMessage(UpstreamErrorText))
    ensures upstream.Responded? && upstream.ok ==>
      r == if upstream.body.Malformed? then Response(500, ErrorMessage(ProxyFailureText))
           else Response(200, PassThrough(upstream.body))
  {
    match upstream
    case NetworkError => Response(500, ErrorMessage(ProxyFailureText))
    case Responded(ok, status, body) =>
      if !ok then Response(status, ErrorMessage(UpstreamErrorText))
      else if body.Malformed? then Response(500, ErrorMessage(ProxyFailureText))
      else Response(200, PassThrough(body))
  }

  /** `GET`, with the upstream's behaviour as a function of the URL. */
  function Get(category: Option<string>, upstream: string -> Fetch): (r: Response)
  {
    match PlanFor(category)
    case Reject(response) => response
    case Forward(url) => Finish(upstream(url))
  }

  /** An invalid category is answered without looking at the upstream:
      any two upstreams give the same 400 answer. */
  lemma RejectIgnoresUpstream(category: Option<string>, u1: string -> Fetch, u2: string -> Fetch)
    requires category.None? || category.value !in CategoryMap
    ensures Get(category, u1) == Get(category, u2) == Response(400, ErrorMessage(InvalidCategoryText))
  {
  }

  /** A valid category consults the upstream only at its own URL, and the
      answer carries upstream data only with status 200. */
  lemma ForwardUsesOwnUrl(c: string, u1: string -> Fetch, u2: string -> Fetch)
    requires c in CategoryMap
    requires u1(ApiUrl(CategoryMap[c])) == u2(ApiUrl(CategoryMap[c]))
    ensures Get(Some(c), u1) == Get(Some(c), u2)
    ensures Get(Some(c), u1).payload.PassThrough? ==> Get(Some(c), u1).status == 200
  {
  }
}
