/**
 Entity tags and their revalidation by the discovery and JWKS endpoints
 (core/internal/oidc/discovery/handler.go, serialize.go and core/internal/oidc/jwks/handler.go, serialize.go).

 SHA-256 is a parameter.
 */
module Revalidation {
  import opened Wrappers
  import opened Text
  import opened Base64Url
  import opened DenyList
  import opened HttpHeader
  import opened ResponseModel
  import ResponseChain
  import Middleware
  import RequestId

  type Digest = d: seq<Octet> | |d| == 32 witness seq(32, _ => 0)

  type Sha256 = string -> Digest

  // ---------------------------------------------------------------- the tag

  function ETag(sha: Sha256, body: string): string {
    "\"" + Encode(sha(body)[..16]) + "\""
  }

  /** Always 24 characters in quotes, no padding, no weak prefix. */
  lemma ETagForm(sha: Sha256, body: string)
    ensures var tag := ETag(sha, body);
            && |tag| == 24
            && tag[0] == '"' && tag[23] == '"'
            && forall i :: 1 <= i < 23 ==> IsSymbol(tag[i])
  {
    EncodeShape(sha(body)[..16]);
  }

  /** Two bodies share a tag exactly when their digests share the first 16 octets. */
  lemma ETagIdentifiesDigestPrefix(sha: Sha256, a: string, b: string)
    ensures ETag(sha, a) == ETag(sha, b) <==> sha(a)[..16] == sha(b)[..16]
  {
    if ETag(sha, a) == ETag(sha, b) {
      ETagForm(sha, a);
      assert Encode(sha(a)[..16]) == ETag(sha, a)[1..23];
      ETagForm(sha, b);
      assert Encode(sha(b)[..16]) == ETag(sha, b)[1..23];
      EncodeIsInjective(sha(a)[..16], sha(b)[..16]);
    }
  }

  /** The tag is the base64url text of the first 16 octets of the digest, in order. */
  lemma ETagIsDigestPrefix(sha: Sha256, body: string)
    ensures |ETag(sha, body)| == 24 && Decode(ETag(sha, body)[1..23]) == Some(sha(body)[..16])
  {
    ETagForm(sha, body);
    assert ETag(sha, body)[1..23] == Encode(sha(body)[..16]);
    DecodeEncode(sha(body)[..16]);
  }

  // ---------------------------------------------------------------- one pod

  /** The handler of one pod: everything is computed when the pod starts. */
  datatype Pod = Pod(body: string, etag: string, cache: string)

  function CacheControl(maxAge: int): string {
    if maxAge <= 0 then "no-cache, must-revalidate"
    else "public, max-age=" + Decimal(maxAge) + ", must-revalidate"
  }

  /** The header value tells every positive age apart, and all others from those. */
  lemma CacheControlNamesTheAge(a: int, b: int)
    ensures CacheControl(a) == CacheControl(b) <==> a == b || (a <= 0 && b <= 0)
  {
    var prefix, suffix := "public, max-age=", ", must-revalidate";
    if a > 0 && b > 0 && CacheControl(a) == CacheControl(b) {
      var s := CacheControl(a);
      assert Decimal(a) == s[|prefix|..|s| - |suffix|] == Decimal(b);
      ParseDecimal(a);
      ParseDecimal(b);
    } else {
      assert a > 0 ==> CacheControl(a)[0] == 'p';
      assert b > 0 ==> CacheControl(b)[0] == 'p';
    }
  }

  /** The directives of a Cache-Control value, section 5.2 of RFC 9111. */
  function Directives(value: string): seq<string> {
    var parts := Split(value, ',');
    seq(|parts|, i requires 0 <= i < |parts| => if parts[i] != "" && parts[i][0] == ' ' then parts[i][1..] else parts[i])
  }

  /** The age that a max-age directive names. */
  function MaxAge(directive: string): Option<nat> {
    if "max-age=" <= directive && AllDigits(directive[8..]) then Some(ParseDigits(directive[8..])) else None
  }

  lemma NoComma(s: string)
    requires AllDigits(s)
    ensures ',' !in s
  {
  }

  lemma TwoParts(a: string, b: string)
    requires ',' !in a && ',' !in b && (a == "" || a[0] != ' ')
    ensures Directives(a + "," + " " + b) == [a, b]
  {
    var tail := " " + b;
    SplitHead(a, ',', tail);
    SplitPiece(tail, ',');
    assert a + "," + " " + b == a + [','] + tail;
    assert tail[1..] == b;
  }

  lemma ThreeParts(a: string, b: string, c: string)
    requires ',' !in a && ',' !in b && ',' !in c && (a == "" || a[0] != ' ')
    ensures Directives(a + "," + (" " + b + "," + (" " + c))) == [a, b, c]
  {
    var middle, tail := " " + b, " " + c;
    SplitHead(a, ',', middle + [','] + tail);
    SplitHead(middle, ',', tail);
    SplitPiece(tail, ',');
    assert middle[1..] == b && tail[1..] == c;
  }

  /** Three directives with the age for a positive age, two that forbid reuse for any other. */
  lemma CacheControlDirectives(maxAge: int)
    ensures maxAge <= 0 ==> Directives(CacheControl(maxAge)) == ["no-cache", "must-revalidate"]
    ensures maxAge > 0 ==>
              var ds := Directives(CacheControl(maxAge));
              |ds| == 3 && ds[0] == "public" && MaxAge(ds[1]) == Some(maxAge) && ds[2] == "must-revalidate"
  {
    if maxAge <= 0 {
      hide Directives;
      TwoParts("no-cache", "must-revalidate");
      assert "no-cache" + "," + " " + "must-revalidate" == "no-cache, must-revalidate";
    } else {
      PositiveAgeDirectives(maxAge);
    }
  }

  lemma PositiveAgeDirectives(maxAge: nat)
    requires maxAge > 0
    ensures var age := "max-age=" + Decimal(maxAge);
            && Directives(CacheControl(maxAge)) == ["public", age, "must-revalidate"]
            && MaxAge(age) == Some(maxAge)
  {
    var age := "max-age=" + Decimal(maxAge);
    PositiveAge(maxAge, Decimal(maxAge));
    NoComma(Decimal(maxAge));
    ParseDecimal(maxAge);
    hide Directives, CacheControl, Decimal;
    ThreeParts("public", age, "must-revalidate");
    assert age[8..] == Decimal(maxAge);
  }

  lemma PositiveAge(maxAge: int, digits: string)
    requires maxAge > 0 && digits == Decimal(maxAge)
    ensures CacheControl(maxAge) == "public" + "," + (" " + ("max-age=" + digits) + "," + (" " + "must-revalidate"))
  {
    hide Decimal;
    var all := "public" + "," + (" " + ("max-age=" + digits) + "," + (" " + "must-revalidate"));
    assert "public, max-age=" == "public" + "," + " " + "max-age=";
    assert ", must-revalidate" == "," + " " + "must-revalidate";
    assert all == "public, max-age=" + digits + ", must-revalidate";
  }

  function NewPod(sha: Sha256, body: string, maxAge: int): Pod {
    Pod(body, ETag(sha, body), CacheControl(maxAge))
  }

  datatype BuildError = BadKey(index: nat)

  /** The first `n` keys were converted and accepted in order and make up `js`. */
  ghost predicate Converted<K, J>(keys: seq<K>, toJwk: K -> Option<J>, accepts: (seq<J>, J) -> bool, js: seq<J>, n: nat) {
    && n == |js| <= |keys|
    && forall i :: 0 <= i < n ==> toJwk(keys[i]) == Some(js[i]) && accepts(js[..i], js[i])
  }

  /** All keys in order, or the first one that cannot be converted or is refused by the set. */
  ghost predicate IsBuilt<K, J(!new)>(keys: seq<K>, toJwk: K -> Option<J>, accepts: (seq<J>, J) -> bool,
                                r: Result<seq<J>, BuildError>)
  {
    match r
    case Ok(js) => Converted(keys, toJwk, accepts, js, |keys|)
    case Err(BadKey(i)) =>
      && i < |keys|
      && exists js :: Converted(keys, toJwk, accepts, js, i)
                      && (toJwk(keys[i]).None? || !accepts(js, toJwk(keys[i]).value))
  }

  /** BuildSet: the keys are converted and added one by one. */
  method BuildSet<K, J(!new)>(keys: seq<K>, toJwk: K -> Option<J>, accepts: (seq<J>, J) -> bool)
    returns (r: Result<seq<J>, BuildError>)
    ensures IsBuilt(keys, toJwk, accepts, r)
  {
    var js := [];
    for i := 0 to |keys|
      invariant Converted(keys, toJwk, accepts, js, i)
    {
      var k := toJwk(keys[i]);
      if k.None? || !accepts(js, k.value) {
        return Err(BadKey(i));
      }
      ghost var before := js;
      js := js + [k.value];
      assert forall j :: 0 <= j <= i ==> js[..j] == before[..j];
    }
    r := Ok(js);
  }

  lemma ConvertedAgree<K, J>(keys: seq<K>, toJwk: K -> Option<J>, accepts: (seq<J>, J) -> bool,
                             a: seq<J>, m: nat, b: seq<J>, n: nat)
    requires Converted(keys, toJwk, accepts, a, m) && Converted(keys, toJwk, accepts, b, n) && m <= n
    ensures a == b[..m] && (m == n ==> a == b)
    ensures m < n ==> toJwk(keys[m]) == Some(b[m]) && accepts(a, b[m])
  {
  }

  /** Equal keys give equal sets, in the same order: pods built from them serve the same body. */
  lemma BuildSetIsDetermined<K, J(!new)>(keys: seq<K>, toJwk: K -> Option<J>, accepts: (seq<J>, J) -> bool,
                                   r1: Result<seq<J>, BuildError>, r2: Result<seq<J>, BuildError>)
    requires IsBuilt(keys, toJwk, accepts, r1) && IsBuilt(keys, toJwk, accepts, r2)
    ensures r1 == r2
  {
    var n1, n2 := if r1.Ok? then |keys| else r1.error.index, if r2.Ok? then |keys| else r2.error.index;
    var a :| Converted(keys, toJwk, accepts, a, n1)
             && (r1.Ok? ==> a == r1.value)
             && (r1.Err? ==> toJwk(keys[n1]).None? || !accepts(a, toJwk(keys[n1]).value));
    var b :| Converted(keys, toJwk, accepts, b, n2)
             && (r2.Ok? ==> b == r2.value)
             && (r2.Err? ==> toJwk(keys[n2]).None? || !accepts(b, toJwk(keys[n2]).value));
    if n1 <= n2 {
      ConvertedAgree(keys, toJwk, accepts, a, n1, b, n2);
    } else {
      ConvertedAgree(keys, toJwk, accepts, b, n2, a, n1);
    }
  }

  /** What ServeHTTP does to the writer. */
  function Respond(p: Pod, ifNoneMatch: string): seq<Step> {
    if ifNoneMatch == p.etag then
      [DoSetHeader("ETag", p.etag), DoWriteHeader(304)]
    else
      [DoSetHeader("Content-Type", "application/json"), DoSetHeader("Cache-Control", p.cache),
       DoSetHeader("ETag", p.etag), DoWriteHeader(200), DoWrite(Bytes(p.body))]
  }

  /** Handler.ServeHTTP of both endpoints. */
  method ServeHttp(p: Pod, w: Middleware.Target, ifNoneMatch: string)
    requires Middleware.Valid(w)
    modifies Middleware.Footprint(w)
    ensures Middleware.View(w) == ApplyAll(old(Middleware.View(w)), Respond(p, ifNoneMatch))
  {
    ghost var steps := Respond(p, ifNoneMatch);
    ghost var before := Middleware.View(w);
    if ifNoneMatch == p.etag {
      Middleware.SetHeaderOn(w, "ETag", p.etag);
      var _ := Middleware.WriteHeaderTo(w, 304);
      InOrder2(before, steps);
      return;
    }
    Middleware.SetHeaderOn(w, "Content-Type", "application/json");
    Middleware.SetHeaderOn(w, "Cache-Control", p.cache);
    Middleware.SetHeaderOn(w, "ETag", p.etag);
    var _ := Middleware.WriteHeaderTo(w, 200);
    Middleware.WriteTo(w, Bytes(p.body));
    InOrder5(before, steps);
  }

  lemma InOrder2(w: Writer, s: seq<Step>)
    requires |s| == 2
    ensures ApplyAll(w, s) == Apply(Apply(w, s[0]), s[1])
  {
    assert s[1..][1..] == [];
    assert ApplyAll(Apply(w, s[0]), s[1..]) == Apply(Apply(w, s[0]), s[1]);
  }

  lemma InOrder5(w: Writer, s: seq<Step>)
    requires |s| == 5
    ensures ApplyAll(w, s) == Apply(Apply(Apply(Apply(Apply(w, s[0]), s[1]), s[2]), s[3]), s[4])
  {
    ResponseChain.ApplyAllAppend(w, s[..2], s[2..]);
    InOrder2(w, s[..2]);
    assert s == s[..2] + s[2..];
    var v := ApplyAll(w, s[..2]);
    ResponseChain.ApplyAllAppend(v, s[2..4], s[4..]);
    InOrder2(v, s[2..4]);
    assert s[2..] == s[2..4] + s[4..];
    assert s[4..][1..] == [];
  }

  // ---------------------------------------------------------------- one exchange

  /** The canonical name under which Set keeps "ETag". */
  const ETAG := "Etag"
  const CACHE_CONTROL := "Cache-Control"
  const ALLOW := "Allow"

  lemma EndpointNames()
    ensures CanonicalKey("ETag") == ETAG && CanonicalKey(CACHE_CONTROL) == CACHE_CONTROL
    ensures CanonicalKey(ALLOW) == ALLOW && CanonicalKey(CONTENT_TYPE) == CONTENT_TYPE
  {
    assert IsToken("ETag") && IsToken(CACHE_CONTROL) && IsToken(ALLOW) && IsToken(CONTENT_TYPE);
  }

  /** What the mux of net/http does for a method that no pattern of the path names. */
  function MethodNotAllowed(): seq<Step> {
    [DoSetHeader(ALLOW, "GET, HEAD"),
     DoDelHeader("Content-Length"),
     DoSetHeader(CONTENT_TYPE, "text/plain; charset=utf-8"),
     DoSetHeader("X-Content-Type-Options", "nosniff"),
     DoWriteHeader(405),
     DoWrite(Bytes("Method Not Allowed\n"))]
  }

  /** The mux at the path of an endpoint, whose pattern "GET ..." admits HEAD too. */
  function Route(p: Pod, method_: string, ifNoneMatch: string): seq<Step> {
    if method_ == "GET" || method_ == "HEAD" then Respond(p, ifNoneMatch) else MethodNotAllowed()
  }

  /** What the client receives. */
  datatype Reply = Reply(status: int, headers: Headers, body: seq<Chunk>)

  /** The server sends no body in answer to HEAD. */
  function Receive(method_: string, w: Wire): Reply {
    Reply(SeenStatus(w), ResponseChain.SentHeaders(w),
          if method_ == "HEAD" then [] else ResponseChain.CalledChunks(w.calls))
  }

  /** One request to a pod through the middleware chain. */
  function Exchange(lower: Lower, p: Pod, req: Request, generated: string, ifNoneMatch: string): Reply {
    var h := Chain(generated, App(Route(p, req.method_, ifNoneMatch), Returned));
    Receive(req.method_, ServeRequest(lower, h, req).0.writer.wire)
  }

  /** A fresh recorder over a server's writer that has only the request id so far. */
  function Named(id: string): Wire {
    Wire(map[X_REQUEST_ID := [id]], None, [])
  }

  lemma NotModified(p: Pod, w: Wire)
    requires w.calls == [] && w.committed.None?
    ensures var headers := w.headers[ETAG := [p.etag]];
            ApplyAll(ResponseChain.Stack(1, FRESH, w), Respond(p, p.etag)).wire ==
              Wire(headers, Some(Commit(304, headers)), [HeaderCall(304)])
  {
    EndpointNames();
    var s := Respond(p, p.etag);
    InOrder2(ResponseChain.Stack(1, FRESH, w), s);
    var w1 := w.(headers := w.headers[ETAG := [p.etag]]);
    ResponseChain.OneStep(FRESH, w, s[0]);
    ResponseChain.OneStep(FRESH, w1, s[1]);
  }

  lemma FullAnswer(p: Pod, w: Wire, ifNoneMatch: string)
    requires w.calls == [] && w.committed.None? && ifNoneMatch != p.etag
    ensures var headers := w.headers[CONTENT_TYPE := ["application/json"]][CACHE_CONTROL := [p.cache]][ETAG := [p.etag]];
            ApplyAll(ResponseChain.Stack(1, FRESH, w), Respond(p, ifNoneMatch)).wire ==
              Wire(headers, Some(Commit(200, headers)), [HeaderCall(200), DataCall(Bytes(p.body))])
  {
    EndpointNames();
    hide CanonicalKey;
    var s := Respond(p, ifNoneMatch);
    InOrder5(ResponseChain.Stack(1, FRESH, w), s);
    var w1 := w.(headers := w.headers[CONTENT_TYPE := ["application/json"]]);
    var w2 := w1.(headers := w1.headers[CACHE_CONTROL := [p.cache]]);
    var w3 := w2.(headers := w2.headers[ETAG := [p.etag]]);
    ResponseChain.OneStep(FRESH, w, s[0]);
    ResponseChain.OneStep(FRESH, w1, s[1]);
    ResponseChain.OneStep(FRESH, w2, s[2]);
    ResponseChain.OneStep(FRESH, w3, s[3]);
    ResponseChain.OneStep(Layer(200, true), WireWriteHeader(w3, 200), s[4]);
  }

  lemma Refusal(w: Wire)
    requires w.calls == [] && w.committed.None?
    ensures var end := ApplyAll(ResponseChain.Stack(1, FRESH, w), MethodNotAllowed()).wire;
            && SeenStatus(end) == 405
            && ResponseChain.CalledChunks(end.calls) == [Bytes("Method Not Allowed\n")]
            && ResponseChain.SentValues(end, ALLOW) == ["GET, HEAD"]
  {
    RefusalTrace();
    ResponseChain.OneRecorder(FRESH, w, MethodNotAllowed());
    ResponseChain.OneRecorderCalls(FRESH, w, MethodNotAllowed());
    ResponseChain.OneRecorderSends(FRESH, w, MethodNotAllowed(), ALLOW);
    RefusalNamesMethods(ResponseChain.SentValues(w, ALLOW));
  }

  lemma RefusalNamesMethods(before: seq<string>)
    ensures ResponseChain.HeaderSent(MethodNotAllowed(), false, ALLOW, before) == ["GET, HEAD"]
  {
    EndpointNames();
    RestLeavesAllow();
    ResponseChain.HeaderLeftAlone(MethodNotAllowed()[1..], false, ALLOW, ["GET, HEAD"]);
  }

  lemma RestLeavesAllow()
    ensures forall i :: 0 <= i < 5 ==> ResponseChain.LeavesHeader(MethodNotAllowed()[1..][i], ALLOW)
  {
    EndpointNames();
    assert |CanonicalKey("Content-Length")| == 14 && |CanonicalKey("X-Content-Type-Options")| == 22;
  }

  lemma RefusalTrace()
    ensures ResponseChain.FirstCode(MethodNotAllowed()) == Some(405)
    ensures !ResponseChain.FlushesFirst(MethodNotAllowed())
    ensures ResponseChain.Chunks(MethodNotAllowed()) == [Bytes("Method Not Allowed\n")]
  {
  }

  /**
   For every method: GET and HEAD are answered alike, with 304 and no Cache-Control exactly on an equal
   tag, otherwise with 200 and, for GET only, exactly the pod's body; both carry the tag.  Any other
   method is refused.
   */
  lemma ExchangeAnswers(lower: Lower, p: Pod, req: Request, generated: string, ifNoneMatch: string)
    ensures var r := Exchange(lower, p, req, generated, ifNoneMatch);
            if req.method_ == "GET" || req.method_ == "HEAD" then
              && (ifNoneMatch == p.etag ==>
                    r.status == 304 && r.body == [] && CACHE_CONTROL !in r.headers && CONTENT_TYPE !in r.headers)
              && (ifNoneMatch != p.etag ==>
                    && r.status == 200
                    && r.body == (if req.method_ == "HEAD" then [] else [Bytes(p.body)])
                    && CACHE_CONTROL in r.headers && r.headers[CACHE_CONTROL] == [p.cache]
                    && CONTENT_TYPE in r.headers && r.headers[CONTENT_TYPE] == ["application/json"])
              && ETAG in r.headers && r.headers[ETAG] == [p.etag]
            else
              && r.status == 405
              && r.body == [Bytes("Method Not Allowed\n")]
              && ALLOW in r.headers && r.headers[ALLOW] == ["GET, HEAD"]
  {
    var id := RequestId.Choose(req.clientId, generated).id;
    ResponseChain.ChainRunsFullTrace(lower, generated, Route(p, req.method_, ifNoneMatch), Returned, req);
    if req.method_ != "GET" && req.method_ != "HEAD" {
      Refusal(Named(id));
    } else if ifNoneMatch == p.etag {
      NotModified(p, Named(id));
      ResponseChain.CalledChunksAppend([], HeaderCall(304));
    } else {
      FullAnswer(p, Named(id), ifNoneMatch);
      ResponseChain.CalledChunksAppend([], HeaderCall(200));
      ResponseChain.CalledChunksAppend([HeaderCall(200)], DataCall(Bytes(p.body)));
      assert [HeaderCall(200)] + [DataCall(Bytes(p.body))] == [HeaderCall(200), DataCall(Bytes(p.body))];
    }
  }

  /** A pod announces the age it was configured with. */
  lemma PodAnnouncesItsAge(lower: Lower, sha: Sha256, body: string, maxAge: int, req: Request, generated: string,
                           ifNoneMatch: string)
    requires (req.method_ == "GET" || req.method_ == "HEAD") && ifNoneMatch != ETag(sha, body)
    ensures var r := Exchange(lower, NewPod(sha, body, maxAge), req, generated, ifNoneMatch);
            && |Values(r.headers, CACHE_CONTROL)| == 1
            && var ds := Directives(Values(r.headers, CACHE_CONTROL)[0]);
               if maxAge <= 0 then ds == ["no-cache", "must-revalidate"]
               else |ds| == 3 && ds[0] == "public" && MaxAge(ds[1]) == Some(maxAge) && ds[2] == "must-revalidate"
  {
    ExchangeAnswers(lower, NewPod(sha, body, maxAge), req, generated, ifNoneMatch);
    CacheControlDirectives(maxAge);
  }

  // ---------------------------------------------------------------- a client over many exchanges

  /** What a client keeps: a body and the tag it came with. */
  datatype Stored = Stored(body: seq<Chunk>, etag: string)

  /** One visit: the body that the answering pod serves, and the request, which is sent with GET. */
  datatype Visit = Visit(body: string, maxAge: int, req: Request, generated: string)

  function IfNoneMatch(client: Option<Stored>): string {
    match client
    case None => ""
    case Some(s) => s.etag
  }

  /** Header.Get: the first value. */
  function First(headers: Headers, key: string): string {
    if Values(headers, key) == [] then "" else Values(headers, key)[0]
  }

  /** A 304 keeps what is stored (section 4.1 of RFC 7232); a 200 replaces it. */
  function Update(client: Option<Stored>, r: Reply): Option<Stored> {
    if r.status == 304 then client
    else Some(Stored(r.body, First(r.headers, ETAG)))
  }

  function After(lower: Lower, sha: Sha256, client: Option<Stored>, v: Visit): Option<Stored> {
    var req := v.req.(method_ := "GET");
    Update(client, Exchange(lower, NewPod(sha, v.body, v.maxAge), req, v.generated, IfNoneMatch(client)))
  }

  function Session(lower: Lower, sha: Sha256, client: Option<Stored>, visits: seq<Visit>): Option<Stored>
    decreases |visits|
  {
    if visits == [] then client
    else Session(lower, sha, After(lower, sha, client, visits[0]), visits[1..])
  }

  /** No two served bodies share the first 16 octets of their digests. */
  ghost predicate CollisionFree(sha: Sha256, bodies: set<string>) {
    forall a, b :: a in bodies && b in bodies && sha(a)[..16] == sha(b)[..16] ==> a == b
  }

  predicate Serves(bodies: set<string>, visits: seq<Visit>) {
    forall i :: 0 <= i < |visits| ==> visits[i].body in bodies
  }

  /** After the visits a new client holds exactly the body of the pod that answered last. */
  predicate HoldsLast(lower: Lower, sha: Sha256, visits: seq<Visit>) {
    visits != [] ==>
      var last := visits[|visits| - 1].body;
      Session(lower, sha, None, visits) == Some(Stored([Bytes(last)], ETag(sha, last)))
  }

  function Holding(sha: Sha256, body: string): Option<Stored> {
    Some(Stored([Bytes(body)], ETag(sha, body)))
  }

  /** A new client stores the body; one that holds a body replaces it unless the two share their tag. */
  lemma AfterVisit(lower: Lower, sha: Sha256, held: string, v: Visit)
    ensures After(lower, sha, None, v) == Holding(sha, v.body)
    ensures After(lower, sha, Holding(sha, held), v) ==
            Holding(sha, if ETag(sha, held) == ETag(sha, v.body) then held else v.body)
  {
    var p := NewPod(sha, v.body, v.maxAge);
    ETagForm(sha, v.body);
    var req := v.req.(method_ := "GET");
    ExchangeAnswers(lower, p, req, v.generated, "");
    ExchangeAnswers(lower, p, req, v.generated, ETag(sha, held));
  }

  /** The body held after a run, as a function of the served bodies alone. */
  function HeldAfter(sha: Sha256, held: string, visits: seq<Visit>): string
    decreases |visits|
  {
    if visits == [] then held
    else
      HeldAfter(sha, if ETag(sha, held) == ETag(sha, visits[0].body) then held else visits[0].body, visits[1..])
  }

  lemma {:induction false} SessionHolds(lower: Lower, sha: Sha256, held: string, visits: seq<Visit>)
    ensures Session(lower, sha, Holding(sha, held), visits) == Holding(sha, HeldAfter(sha, held, visits))
    decreases |visits|
  {
    if visits != [] {
      AfterVisit(lower, sha, held, visits[0]);
      SessionHolds(lower, sha, if ETag(sha, held) == ETag(sha, visits[0].body) then held else visits[0].body, visits[1..]);
    }
  }

  lemma {:induction false} HeldIsLast(sha: Sha256, bodies: set<string>, held: string, visits: seq<Visit>)
    requires CollisionFree(sha, bodies) && held in bodies && Serves(bodies, visits)
    ensures HeldAfter(sha, held, visits) == if visits == [] then held else visits[|visits| - 1].body
    decreases |visits|
  {
    if visits != [] {
      ETagIdentifiesDigestPrefix(sha, held, visits[0].body);
      HeldIsLast(sha, bodies, visits[0].body, visits[1..]);
    }
  }

  /** Two bodies with one tag: after visiting both, the client holds the wrong one. */
  lemma CollisionMisleads(lower: Lower, sha: Sha256, a: string, b: string, req: Request)
    requires a != b && sha(a)[..16] == sha(b)[..16]
    ensures !HoldsLast(lower, sha, [Visit(a, 0, req, ""), Visit(b, 0, req, "")])
  {
    var v, w := Visit(a, 0, req, ""), Visit(b, 0, req, "");
    AfterVisit(lower, sha, a, v);
    AfterVisit(lower, sha, a, w);
    ETagIdentifiesDigestPrefix(sha, a, b);
    assert [v, w][1..] == [w] && [w][1..] == [];
    assert Session(lower, sha, Holding(sha, a), [w]) == Holding(sha, a);
    assert Session(lower, sha, None, [v, w]) == Holding(sha, a);
    assert Bytes(a) != Bytes(b);
    assert [Bytes(a)][0] != [Bytes(b)][0];
  }

  lemma RunHoldsLast(lower: Lower, sha: Sha256, bodies: set<string>, visits: seq<Visit>)
    requires CollisionFree(sha, bodies) && Serves(bodies, visits) && visits != []
    ensures HoldsLast(lower, sha, visits)
  {
    hide After, ETag, HeldAfter;
    AfterVisit(lower, sha, "", visits[0]);
    SessionHolds(lower, sha, visits[0].body, visits[1..]);
    HeldIsLast(sha, bodies, visits[0].body, visits[1..]);
  }

  /**
   Over every run against any mix of pods and restarts the client's stored body is, after each
   exchange, the body of the pod that answered, exactly when the digest prefixes of the served bodies
   do not collide.
   */
  lemma ClientAgreesIffCollisionFree(lower: Lower, sha: Sha256, bodies: set<string>)
    ensures CollisionFree(sha, bodies) <==>
            forall visits: seq<Visit> :: Serves(bodies, visits) ==> HoldsLast(lower, sha, visits)
  {
    if CollisionFree(sha, bodies) {
      forall visits: seq<Visit> | Serves(bodies, visits) ensures HoldsLast(lower, sha, visits) {
        if visits != [] {
          RunHoldsLast(lower, sha, bodies, visits);
        }
      }
    } else {
      var a, b :| a in bodies && b in bodies && sha(a)[..16] == sha(b)[..16] && a != b;
      var req := Request("GET", "/jwks", "", "", true);
      CollisionMisleads(lower, sha, a, b, req);
      assert Serves(bodies, [Visit(a, 0, req, ""), Visit(b, 0, req, "")]);
    }
  }

  /** The body of a pod that was built from `keys`. */
  ghost predicate BuiltFrom<K, J(!new)>(keys: seq<K>, toJwk: K -> Option<J>, accepts: (seq<J>, J) -> bool,
                                  marshal: seq<J> -> string, body: string)
  {
    exists js :: IsBuilt(keys, toJwk, accepts, Ok(js)) && body == marshal(js)
  }

  lemma EqualKeysEqualBodies<K, J(!new)>(keys: seq<K>, toJwk: K -> Option<J>, accepts: (seq<J>, J) -> bool,
                                   marshal: seq<J> -> string, a: string, b: string)
    requires BuiltFrom(keys, toJwk, accepts, marshal, a) && BuiltFrom(keys, toJwk, accepts, marshal, b)
    ensures a == b
  {
    var js :| IsBuilt(keys, toJwk, accepts, Ok(js)) && a == marshal(js);
    var ks :| IsBuilt(keys, toJwk, accepts, Ok(ks)) && b == marshal(ks);
    BuildSetIsDetermined(keys, toJwk, accepts, Ok(js), Ok(ks));
  }

  /**
   Pods built from equal keys never mislead a client, whatever their ages of caching, and then nothing is
   assumed of the digests.
   */
  lemma EqualPodsNeverMislead<K, J(!new)>(lower: Lower, sha: Sha256, keys: seq<K>, toJwk: K -> Option<J>,
                                    accepts: (seq<J>, J) -> bool, marshal: seq<J> -> string, visits: seq<Visit>)
    requires forall i :: 0 <= i < |visits| ==> BuiltFrom(keys, toJwk, accepts, marshal, visits[i].body)
    ensures HoldsLast(lower, sha, visits)
  {
    if visits != [] {
      var body := visits[0].body;
      forall i | 0 <= i < |visits| ensures visits[i].body == body {
        EqualKeysEqualBodies(keys, toJwk, accepts, marshal, visits[i].body, body);
      }
      ClientAgreesIffCollisionFree(lower, sha, {body});
      assert CollisionFree(sha, {body});
    }
  }
}
