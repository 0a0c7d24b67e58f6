/**
 * The mobile.de client of the dealership site (src/lib/mobilede.js): the credentials and
 * seller id read from the environment, the two requests it sends, how it treats the
 * replies, and `mapAdToUiCar`, which turns one loosely shaped ad record into the car
 * view-model the pages render.
 *
 * The network is a parameter: `respond` gives the reply to a request.
 */
module MobileDe {
  import opened Wrappers
  import opened JsValues
  import opened Encoding

  const BaseUrl := "https://services.mobile.de"
  const AcceptType := "application/vnd.de.mobile.api+json"
  const MissingCredentials := "Missing MOBILEDE_USERNAME or MOBILEDE_PASSWORD in env."
  const MissingSellerId := "Missing MOBILEDE_SELLER_ID in env."
  const SellerAdsFailed := "mobile.de ads fetch failed: "
  const SingleAdFailed := "mobile.de ad fetch failed: "
  const MaxErrorLength := 600

  /** The environment variables the client reads; `None` is an unset variable. */
  datatype Env = Env(username: Option<string>, password: Option<string>, sellerId: Option<string>)

  /**
   * What a helper throws: an Error with a message, the SyntaxError of `res.json()` on a
   * body that is not JSON, the TypeError of calling `slice` on a value that has none, the
   * TypeError of `String` or `Number` on a value that does not convert, or the rejection of
   * `fetch` when no reply arrives.
   */
  datatype Failure = Thrown(message: string) | MalformedJson | NotSliceable | NotConvertible | FetchRejected

  /** An environment value is truthy when it is set and not empty. */
  predicate IsSet(v: Option<string>) {
    v.Some? && v.value != ""
  }

  // ---------------------------------------------------------------- getAuthHeader, getSellerId

  /**
   * `getAuthHeader()`: HTTP Basic credentials as in section 2 of RFC 7617, the Base64 of
   * the UTF-8 bytes of "user:password"; throws when either variable is unset or empty.
   */
  function AuthHeader(env: Env): (r: Result<string, Failure>)
    ensures r.Failure? <==> !IsSet(env.username) || !IsSet(env.password)
    ensures r.Failure? ==> r.error == Thrown(MissingCredentials)
    ensures r.Success? ==> |r.value| >= 10 && r.value[..6] == "Basic "
    ensures r.Success? ==> r.value[6..] == Base64Encode(Utf8Encode(env.username.value + ":" + env.password.value))
  {
    if !IsSet(env.username) || !IsSet(env.password) then Failure(Thrown(MissingCredentials))
    else Success("Basic " + Base64Encode(Utf8Encode(env.username.value + ":" + env.password.value)))
  }

  /** The first position of `c` in `s`. */
  function IndexOf(s: string, c: char): (r: Option<nat>)
    ensures r.None? <==> c !in s
    ensures r.Some? ==> r.value < |s| && s[r.value] == c && c !in s[..r.value]
  {
    if s == "" then None
    else if s[0] == c then Some(0)
    else match IndexOf(s[1..], c)
      case None => None
      case Some(k) =>
        assert s[1..][..k] == s[1..k + 1];
        Some(k + 1)
  }

  /** How a server reads a Basic Authorization header: decode, then split at the first colon. */
  function ParseBasicCredentials(header: string): Option<(string, string)> {
    if |header| < 6 || header[..6] != "Basic " then None
    else match Base64Decode(header[6..])
      case None => None
      case Some(bytes) =>
        match Utf8Decode(bytes)
        case None => None
        case Some(text) =>
          match IndexOf(text, ':')
          case None => None
          case Some(k) => Some((text[..k], text[k + 1..]))
  }

  /**
   * The header carries the credentials: a server that decodes it gets back the user name
   * and the password, provided the user name holds no colon (section 2 of RFC 7617).
   */
  lemma AuthHeaderRoundTrip(env: Env)
    requires IsSet(env.username) && IsSet(env.password)
    requires ':' !in env.username.value
    ensures AuthHeader(env).Success?
    ensures ParseBasicCredentials(AuthHeader(env).value) == Some((env.username.value, env.password.value))
  {
    var user, pass := env.username.value, env.password.value;
    var text := user + ":" + pass;
    var header := AuthHeader(env).value;
    assert header[6..] == Base64Encode(Utf8Encode(text));
    Base64RoundTrip(Utf8Encode(text));
    Utf8RoundTrip(text);
    SplitAtFirstColon(user, pass);
  }

  /** A user name without a colon ends at the first colon of "user:password". */
  lemma SplitAtFirstColon(user: string, pass: string)
    requires ':' !in user
    ensures var text := user + ":" + pass;
            IndexOf(text, ':') == Some(|user|) && text[..|user|] == user && text[|user| + 1..] == pass
  {
    var text := user + ":" + pass;
    assert text[|user|] == ':' && text[..|user|] == user && text[|user| + 1..] == pass;
  }

  /** `getSellerId()`: the seller id, or an error when it is unset or empty. */
  function SellerId(env: Env): (r: Result<string, Failure>)
    ensures r.Success? <==> IsSet(env.sellerId)
    ensures r.Success? ==> r.value == env.sellerId.value
    ensures r.Failure? ==> r.error == Thrown(MissingSellerId)
  {
    if IsSet(env.sellerId) then Success(env.sellerId.value) else Failure(Thrown(MissingSellerId))
  }

  // ---------------------------------------------------------------- requests

  /** A GET request as the client builds it. */
  datatype Request = Request(url: string, authorization: string, accept: string)

  /** The prefix shared by both request URLs. */
  function SellerUrl(sellerId: string): string {
    BaseUrl + "/seller-api/sellers/" + sellerId + "/ads"
  }

  /**
   * What `fetchSellerAds` sends, or what it throws before sending anything: the seller id
   * is read first, the credentials second.
   */
  function SellerAdsRequest(env: Env): (r: Result<Request, Failure>)
    ensures !IsSet(env.sellerId) ==> r == Failure(Thrown(MissingSellerId))
    ensures IsSet(env.sellerId) && AuthHeader(env).Failure? ==> r == Failure(Thrown(MissingCredentials))
    ensures r.Success? <==> IsSet(env.sellerId) && IsSet(env.username) && IsSet(env.password)
    ensures r.Success? ==> r.value == Request(SellerUrl(env.sellerId.value), AuthHeader(env).value, AcceptType)
  {
    match SellerId(env)
    case Failure(e) => Failure(e)
    case Success(id) =>
      match AuthHeader(env)
      case Failure(e) => Failure(e)
      case Success(auth) => Success(Request(SellerUrl(id), auth, AcceptType))
  }

  /**
   * What `fetchSingleAd(mobileAdId)` sends: the ad id is percent-encoded into the last
   * path segment; the same two checks come first, in the same order.
   */
  function SingleAdRequest(env: Env, mobileAdId: string): (r: Result<Request, Failure>)
    ensures !IsSet(env.sellerId) ==> r == Failure(Thrown(MissingSellerId))
    ensures IsSet(env.sellerId) && AuthHeader(env).Failure? ==> r == Failure(Thrown(MissingCredentials))
    ensures r.Success? <==> IsSet(env.sellerId) && IsSet(env.username) && IsSet(env.password)
    ensures r.Success? ==> r.value.authorization == AuthHeader(env).value && r.value.accept == AcceptType
    ensures r.Success? ==> r.value.url == SellerUrl(env.sellerId.value) + "/" + EncodeUriComponent(mobileAdId)
  {
    match SellerId(env)
    case Failure(e) => Failure(e)
    case Success(id) =>
      match AuthHeader(env)
      case Failure(e) => Failure(e)
      case Success(auth) => Success(Request(SellerUrl(id) + "/" + EncodeUriComponent(mobileAdId), auth, AcceptType))
  }

  /**
   * Whatever the ad id holds, it stays one path segment of the request URL: its encoding
   * has no `/`, `?` or `#`, and decodes back to the id.
   */
  lemma SingleAdIdStaysInSegment(mobileAdId: string)
    ensures var segment := EncodeUriComponent(mobileAdId);
            && '/' !in segment && '?' !in segment && '#' !in segment
            && DecodeUriComponent(segment) == Some(mobileAdId)
  {
    var segment := EncodeUriComponent(mobileAdId);
    assert !IsUnreserved('/') && !IsUnreserved('?') && !IsUnreserved('#');
    assert forall i | 0 <= i < |segment| :: segment[i] != '/' && segment[i] != '?' && segment[i] != '#';
    UriComponentRoundTrip(mobileAdId);
  }

  // ---------------------------------------------------------------- replies

  /**
   * A reply from the provider: status, status text, the body read as text (`None` when
   * reading it fails) and read as JSON (`None` when it is not JSON).
   */
  datatype Reply = Reply(status: int, statusText: string, text: Option<string>, json: Option<Value>)

  /** `res.ok`. */
  predicate IsOk(reply: Reply) {
    200 <= reply.status <= 299
  }

  /** The error thrown for a failed reply: context, status, status text and body, cut to 600 characters. */
  function ErrorMessage(context: string, reply: Reply): (m: string)
    ensures var full := context + DecimalString(reply.status) + " " + reply.statusText + " "
                        + (if reply.text.Some? then reply.text.value else "");
            && |m| == (if |full| <= MaxErrorLength then |full| else MaxErrorLength)
            && m == full[..|m|]
  {
    var txt := if reply.text.Some? then reply.text.value else "";
    Prefix(context + DecimalString(reply.status) + " " + reply.statusText + " " + txt, MaxErrorLength)
  }

  /** Whether `(v || []).slice(0, 2)` can be evaluated: only arrays and strings have `slice`. */
  predicate LogsWithoutError(v: Value) {
    !Truthy(v) || v.Arr? || v.Str?
  }

  /**
   * `fetchSellerAds` after the request: throw on a non-2xx reply; otherwise log the first
   * two ads, which throws when `ads` is a truthy value without `slice`, and return the
   * `ads` array, or [] when `ads` is not an array.
   */
  function SellerAdsOutcome(reply: Reply): (r: Result<seq<Value>, Failure>)
    ensures !IsOk(reply) ==> r == Failure(Thrown(ErrorMessage(SellerAdsFailed, reply)))
    ensures IsOk(reply) ==> (r == Failure(MalformedJson) <==> reply.json.None?)
    ensures IsOk(reply) && reply.json.Some? ==>
              (r.Success? <==> LogsWithoutError(Get(reply.json.value, "ads")))
    ensures r.Success? ==> (r.value != [] ==> Get(reply.json.value, "ads") == Arr(r.value))
    ensures r.Success? && Get(reply.json.value, "ads").Arr? ==> r.value == Get(reply.json.value, "ads").elems
    ensures r.Failure? && r.error.Thrown? ==> |r.error.message| <= MaxErrorLength
  {
    if !IsOk(reply) then Failure(Thrown(ErrorMessage(SellerAdsFailed, reply)))
    else match reply.json
      case None => Failure(MalformedJson)
      case Some(data) =>
        var ads := Get(data, "ads");
        if !LogsWithoutError(ads) then Failure(NotSliceable)
        else Success(if ads.Arr? then ads.elems else [])
  }

  /**
   * The log line runs before the `Array.isArray` guard: a reply whose `ads` is an object
   * makes the call throw instead of returning [].
   */
  lemma SellerAdsObjectThrows()
    ensures SellerAdsOutcome(Reply(200, "OK", None, Some(Obj(map["ads" := Obj(map[])])))) == Failure(NotSliceable)
  {
  }

  /**
   * `fetchSellerAds` after the request as the guard on the returned value intends it: a
   * non-2xx reply throws, a body that is not JSON throws, and any JSON body gives the `ads`
   * array, or [] when `ads` is not an array.
   */
  function SellerAdsGuarded(reply: Reply): (r: Result<seq<Value>, Failure>)
    ensures !IsOk(reply) ==> r == Failure(Thrown(ErrorMessage(SellerAdsFailed, reply)))
    ensures IsOk(reply) ==> (r.Success? <==> reply.json.Some?)
    ensures r.Success? && Get(reply.json.value, "ads").Arr? ==> r.value == Get(reply.json.value, "ads").elems
    ensures r.Success? && !Get(reply.json.value, "ads").Arr? ==> r.value == []
    ensures r != Failure(NotSliceable)
  {
    if !IsOk(reply) then Failure(Thrown(ErrorMessage(SellerAdsFailed, reply)))
    else match reply.json
      case None => Failure(MalformedJson)
      case Some(data) =>
        var ads := Get(data, "ads");
        Success(if ads.Arr? then ads.elems else [])
  }

  /** The guarded reading differs from the code as written only where the log line throws. */
  lemma SellerAdsGuardedAgrees(reply: Reply)
    ensures SellerAdsOutcome(reply) != Failure(NotSliceable) ==> SellerAdsOutcome(reply) == SellerAdsGuarded(reply)
    ensures SellerAdsOutcome(reply) == Failure(NotSliceable) <==>
              IsOk(reply) && reply.json.Some? && !LogsWithoutError(Get(reply.json.value, "ads"))
  {
  }

  /**
   * `fetchSingleAd` after the request: `null` on 404, throw on another non-2xx reply, else
   * the parsed body, which may itself be `null`.
   */
  function SingleAdOutcome(reply: Reply): (r: Result<Value, Failure>)
    ensures reply.status == 404 ==> r == Success(Null)
    ensures r == Success(Null) <==> reply.status == 404 || (IsOk(reply) && reply.json == Some(Null))
    ensures reply.status != 404 && !IsOk(reply) ==> r == Failure(Thrown(ErrorMessage(SingleAdFailed, reply)))
    ensures IsOk(reply) ==> r == (if reply.json.Some? then Success(reply.json.value) else Failure(MalformedJson))
    ensures r.Failure? && r.error.Thrown? ==> |r.error.message| <= MaxErrorLength
  {
    if reply.status == 404 then Success(Null)
    else if !IsOk(reply) then Failure(Thrown(ErrorMessage(SingleAdFailed, reply)))
    else match reply.json
      case None => Failure(MalformedJson)
      case Some(ad) => Success(ad)
  }

  /**
   * `fetchSellerAds()`, with the network as `respond`: the reply to a request, or `None`
   * when `fetch` rejects.
   */
  function FetchSellerAds(env: Env, respond: Request -> Option<Reply>): (r: Result<seq<Value>, Failure>)
    ensures SellerAdsRequest(env).Failure? ==> r == Failure(SellerAdsRequest(env).error)
    ensures SellerAdsRequest(env).Success? ==>
              var reply := respond(SellerAdsRequest(env).value);
              r == if reply.Some? then SellerAdsOutcome(reply.value) else Failure(FetchRejected)
    ensures r.Failure? && r.error.Thrown? ==> |r.error.message| <= MaxErrorLength
  {
    match SellerAdsRequest(env)
    case Failure(e) => Failure(e)
    case Success(req) =>
      match respond(req)
      case None => Failure(FetchRejected)
      case Some(reply) => SellerAdsOutcome(reply)
  }

  /** `fetchSingleAd(mobileAdId)`, with the network as `respond`. */
  function FetchSingleAd(env: Env, mobileAdId: string, respond: Request -> Option<Reply>): (r: Result<Value, Failure>)
    ensures SingleAdRequest(env, mobileAdId).Failure? ==> r == Failure(SingleAdRequest(env, mobileAdId).error)
    ensures SingleAdRequest(env, mobileAdId).Success? ==>
              var reply := respond(SingleAdRequest(env, mobileAdId).value);
              r == if reply.Some? then SingleAdOutcome(reply.value) else Failure(FetchRejected)
    ensures r.Failure? && r.error.Thrown? ==> |r.error.message| <= MaxErrorLength
  {
    match SingleAdRequest(env, mobileAdId)
    case Failure(e) => Failure(e)
    case Success(req) =>
      match respond(req)
      case None => Failure(FetchRejected)
      case Some(reply) => SingleAdOutcome(reply)
  }

  /** With a complete environment, a 404 from the provider makes `fetchSingleAd` return null. */
  lemma SingleAdNotFound(env: Env, mobileAdId: string, respond: Request -> Option<Reply>)
    requires IsSet(env.sellerId) && IsSet(env.username) && IsSet(env.password)
    requires respond(SingleAdRequest(env, mobileAdId).value).Some?
    requires respond(SingleAdRequest(env, mobileAdId).value).value.status == 404
    ensures FetchSingleAd(env, mobileAdId, respond) == Success(Null)
  {
  }

  // ---------------------------------------------------------------- mapAdToUiCar

  const Placeholder := "/placeholder-car.jpg"
  const Location := "J\U{00C3}\U{00BC}lich"
  const PriceKeys: seq<string> := ["consumerPriceGross", "dealerPriceGross", "consumerPriceNet", "dealerPriceNet"]

  /** The keys of the object `mapAdToUiCar` returns. */
  const CarKeys: set<string> :=
    {"id", "title", "price", "year", "km", "fuel", "gearbox", "power", "location", "images", "isSold", "raw"}

  /** The `price` field: 0, or `Number(text)` of the rewritten price text. */
  datatype UiPrice = Zero | NumberOf(text: string)

  /** The car view-model. */
  datatype UiCar = UiCar(
    id: string,
    title: string,
    price: UiPrice,
    year: Value,
    km: Value,
    fuel: Value,
    gearbox: Value,
    power: Value,
    location: string,
    images: seq<Value>,
    isSold: bool,
    raw: Value)
  {
    /**
     * `car[key]`: the fields of the object literal, and `undefined` for every other key
     * the code reads (keys inherited from Object.prototype are not modelled).
     */
    function Property(key: string): (r: Value)
      ensures key !in CarKeys ==> r == Undefined
    {
      match key
      case "id" => Str(id)
      case "title" => Str(title)
      case "price" => (if price.Zero? then Num(0) else ToNumber(Str(price.text)))
      case "year" => year
      case "km" => km
      case "fuel" => fuel
      case "gearbox" => gearbox
      case "power" => power
      case "location" => Str(location)
      case "images" => Arr(images)
      case "isSold" => Bool(isSold)
      case "raw" => raw
      case _ => Undefined
    }
  }

  /** "brand" is not among the keys of the car object. */
  lemma CarKeyFacts()
    ensures "brand" !in CarKeys
  {
    assert "brand"[0] == 'b' && "brand"[1] == 'r';
  }

  /** The `price` property is 0 for a zero price and `Number` of the text otherwise. */
  lemma PriceKey(car: UiCar)
    ensures car.Property("price") == if car.price.Zero? then Num(0) else ToNumber(Str(car.price.text))
  {
    assert "price"[0] == 'p' && "price"[1] == 'r';
  }

  /** `[make, model, modelDescription]`, each `|| ""`, then `.filter(Boolean)`. */
  function NameParts(ad: Value): seq<Value> {
    FilterTruthy([Or(Get(ad, "make"), Str("")), Or(Get(ad, "model"), Str("")), Or(Get(ad, "modelDescription"), Str(""))])
  }

  /** The string of each value, as `join` takes it. */
  function Strings(vs: seq<Value>): (r: seq<string>)
    ensures |r| == |vs| && forall i | 0 <= i < |vs| :: r[i] == ToJsString(vs[i])
  {
    seq(|vs|, i requires 0 <= i < |vs| => ToJsString(vs[i]))
  }

  /** The title: the name parts joined by spaces and trimmed, or "Anzeige <id>" when that is empty. */
  function Title(ad: Value): (t: string)
    ensures t != ""
    ensures IsTrimmed(t) || t == "Anzeige " + ToJsString(Get(ad, "mobileAdId"))
  {
    var joined := Trim(Join(" ", Strings(NameParts(ad))));
    if joined != "" then joined else "Anzeige " + ToJsString(Get(ad, "mobileAdId"))
  }

  /** With none of make, model and modelDescription truthy, the title is the fallback. */
  lemma TitleFallback(ad: Value)
    requires !Truthy(Get(ad, "make")) && !Truthy(Get(ad, "model")) && !Truthy(Get(ad, "modelDescription"))
    ensures Title(ad) == "Anzeige " + ToJsString(Get(ad, "mobileAdId"))
  {
    assert NameParts(ad) == [];
  }

  /** Strings as values. */
  function StrValues(xs: seq<string>): (r: seq<Value>)
    ensures |r| == |xs| && forall i | 0 <= i < |xs| :: r[i] == Str(xs[i])
  {
    seq(|xs|, i requires 0 <= i < |xs| => Str(xs[i]))
  }

  /** On strings, `filter(Boolean)` followed by `String` keeps exactly the non-empty strings, in order. */
  lemma {:induction false} FilterStrValues(xs: seq<string>)
    ensures Strings(FilterTruthy(StrValues(xs))) == FilterNonEmpty(xs)
  {
    if xs != [] {
      var vs := StrValues(xs);
      assert vs[0] == Str(xs[0]) && vs[1..] == StrValues(xs[1..]);
      FilterStrValues(xs[1..]);
      var rest := FilterTruthy(vs[1..]);
      if xs[0] != "" {
        assert FilterTruthy(vs) == [Str(xs[0])] + rest;
        StringsCons(Str(xs[0]), rest);
      } else {
        assert FilterTruthy(vs) == rest;
      }
    }
  }

  /** `String` is taken value by value. */
  lemma StringsCons(v: Value, rest: seq<Value>)
    ensures Strings([v] + rest) == [ToJsString(v)] + Strings(rest)
  {
    assert |Strings([v] + rest)| == |[ToJsString(v)] + Strings(rest)|;
  }

  /**
   * For string names, the title is the non-empty names in the order make, model,
   * modelDescription, joined by single spaces and trimmed, or the fallback when that is blank.
   */
  lemma TitleOfStringNames(ad: Value, make: string, model: string, description: string)
    requires Get(ad, "make") == Str(make) && Get(ad, "model") == Str(model)
    requires Get(ad, "modelDescription") == Str(description)
    ensures var joined := Trim(Join(" ", FilterNonEmpty([make, model, description])));
            Title(ad) == if joined == "" then "Anzeige " + ToJsString(Get(ad, "mobileAdId")) else joined
  {
    assert Or(Str(make), Str("")) == Str(make) && Or(Str(model), Str("")) == Str(model);
    assert Or(Str(description), Str("")) == Str(description);
    assert StrValues([make, model, description]) == [Str(make), Str(model), Str(description)];
    FilterStrValues([make, model, description]);
  }

  /**
   * For string names without surrounding whitespace, the title is the non-empty names in
   * the order make, model, modelDescription, joined by single spaces.
   */
  lemma TitleOfNames(ad: Value, make: string, model: string, description: string)
    requires Get(ad, "make") == Str(make) && Get(ad, "model") == Str(model)
    requires Get(ad, "modelDescription") == Str(description)
    requires IsTrimmed(make) && IsTrimmed(model) && IsTrimmed(description)
    ensures var names := FilterNonEmpty([make, model, description]);
            Title(ad) == if names == [] then "Anzeige " + ToJsString(Get(ad, "mobileAdId")) else Join(" ", names)
  {
    TitleOfStringNames(ad, make, model, description);
    TrimmedNames(make, model, description);
  }

  /** Three trimmed names: joining the non-empty ones needs no trimming and is empty only when none is kept. */
  lemma TrimmedNames(make: string, model: string, description: string)
    requires IsTrimmed(make) && IsTrimmed(model) && IsTrimmed(description)
    ensures var names := FilterNonEmpty([make, model, description]);
            Trim(Join(" ", names)) == Join(" ", names) && (Join(" ", names) == "" <==> names == [])
  {
    var xs := [make, model, description];
    forall i | 0 <= i < |xs|
      ensures IsTrimmed(xs[i])
    {
      if i == 0 { assert xs[i] == make; } else if i == 1 { assert xs[i] == model; } else { assert xs[i] == description; }
    }
    JoinedNames(xs);
  }

  /** Joining the non-empty ones of trimmed names gives a trimmed text, empty only when no name is kept. */
  lemma JoinedNames(xs: seq<string>)
    requires forall i | 0 <= i < |xs| :: IsTrimmed(xs[i])
    ensures var names := FilterNonEmpty(xs);
            Trim(Join(" ", names)) == Join(" ", names) && (Join(" ", names) == "" <==> names == [])
  {
    KeptNamesTrimmed(xs);
    JoinOfNonEmptyTrimmed(FilterNonEmpty(xs));
  }

  /** The names kept by the filter are non-empty and, like all the names, trimmed. */
  lemma KeptNamesTrimmed(xs: seq<string>)
    requires forall i | 0 <= i < |xs| :: IsTrimmed(xs[i])
    ensures var names := FilterNonEmpty(xs);
            forall i | 0 <= i < |names| :: names[i] != "" && IsTrimmed(names[i])
  {
    var names := FilterNonEmpty(xs);
    forall i | 0 <= i < |names|
      ensures names[i] != "" && IsTrimmed(names[i])
    {
      var j :| 0 <= j < |xs| && xs[j] == names[i];
    }
  }

  /** Non-empty trimmed names joined by spaces need no trimming, and give "" only when there are none. */
  lemma JoinOfNonEmptyTrimmed(names: seq<string>)
    requires forall i | 0 <= i < |names| :: names[i] != "" && IsTrimmed(names[i])
    ensures Trim(Join(" ", names)) == Join(" ", names) && (Join(" ", names) == "" <==> names == [])
  {
    var joined := Join(" ", names);
    if names == [] {
      assert joined == "";
    } else {
      JoinOfTrimmedIsTrimmed(names);
    }
    TrimOfTrimmed(joined);
  }

  /** `a ?? b ?? ... ?? null`: the first value that is neither null nor undefined. */
  function Coalesce(vs: seq<Value>): (r: Value)
    ensures Nullish(r) ==> r == Null
    ensures Nullish(r) <==> forall i | 0 <= i < |vs| :: Nullish(vs[i])
    ensures !Nullish(r) ==> exists i | 0 <= i < |vs| :: vs[i] == r && NullishBefore(vs, i)
  {
    if vs == [] then Null
    else if !Nullish(vs[0]) then vs[0]
    else
      var r := Coalesce(vs[1..]);
      assert !Nullish(r) ==> exists i | 0 <= i < |vs| :: vs[i] == r && NullishBefore(vs, i) by {
        if !Nullish(r) {
          var i :| 0 <= i < |vs[1..]| && vs[1..][i] == r && NullishBefore(vs[1..], i);
          assert vs[i + 1] == r && NullishBefore(vs, i + 1);
        }
      }
      r
  }

  /** Every value before position `i` is null or undefined. */
  predicate NullishBefore(vs: seq<Value>, i: int)
    requires 0 <= i <= |vs|
  {
    forall j | 0 <= j < i :: Nullish(vs[j])
  }

  /** The four price fields, in priority order. */
  function PriceCandidates(ad: Value): (r: seq<Value>)
    ensures |r| == 4
  {
    var p := Get(ad, "price");
    [Get(p, PriceKeys[0]), Get(p, PriceKeys[1]), Get(p, PriceKeys[2]), Get(p, PriceKeys[3])]
  }

  /** The raw price: the first present price field, or null. */
  function PriceSource(ad: Value): Value {
    Coalesce(PriceCandidates(ad))
  }

  /** The `price` field: 0 for a falsy source, else its text with the first comma made a point. */
  function Price(ad: Value): (p: UiPrice)
    ensures p.Zero? <==> !Truthy(PriceSource(ad))
    ensures p.NumberOf? ==> var s := ToJsString(PriceSource(ad));
              && |p.text| == |s|
              && (forall i | 0 <= i < |s| :: p.text[i] == s[i] || (s[i] == ',' && p.text[i] == '.'))
              && (',' !in s ==> p.text == s)
    ensures p.NumberOf? ==> p.text == ReplaceFirst(ToJsString(PriceSource(ad)), ',', '.')
  {
    var source := PriceSource(ad);
    if Truthy(source) then NumberOf(ReplaceFirst(ToJsString(source), ',', '.')) else Zero
  }

  /**
   * A higher-priority field that is present but falsy (0 or "") shadows every later one:
   * the price is then 0 whatever the other fields hold.
   */
  lemma PriceShadowed(ad: Value, k: nat)
    requires k < 4
    requires !Nullish(PriceCandidates(ad)[k]) && !Truthy(PriceCandidates(ad)[k])
    requires forall j | 0 <= j < k :: Nullish(PriceCandidates(ad)[j])
    ensures PriceSource(ad) == PriceCandidates(ad)[k]
    ensures Price(ad) == Zero
  {
    var vs := PriceCandidates(ad);
    var r := PriceSource(ad);
    var i :| 0 <= i < |vs| && vs[i] == r && NullishBefore(vs, i);
  }

  /** A numeric price keeps its value: its text has no comma and reads back as the number. */
  lemma PriceOfNumber(ad: Value, n: int)
    requires PriceSource(ad) == Num(n) && n != 0
    ensures Price(ad) == NumberOf(DecimalString(n))
    ensures UiCarOf(ad).Property("price") == Num(n)
  {
    DecimalStringHasNoComma(n);
    assert Price(ad) == NumberOf(DecimalString(n));
    DecimalStringRoundTrip(n);
    PriceKey(UiCarOf(ad));
    NumberOfString(DecimalString(n));
  }

  /** A price text with a thousands point and a decimal comma ends up non-numeric. */
  lemma PriceWithThousandsSeparator(ad: Value)
    requires PriceSource(ad) == Str("12.990,00")
    ensures Price(ad) == NumberOf("12.990.00")
    ensures UiCarOf(ad).Property("price") == NaN
  {
    ThousandsSeparatorText();
    assert UiCarOf(ad).price == NumberOf("12.990.00");
    PriceKey(UiCarOf(ad));
    NumberOfString("12.990.00");
  }

  /** The rewritten text of "12.990,00" and its `Number` reading. */
  lemma ThousandsSeparatorText()
    ensures ReplaceFirst("12.990,00", ',', '.') == "12.990.00"
    ensures StringToNumber("12.990.00") == NaN
  {
    ThousandsSeparatorReplaced();
    var t := "12.990.00";
    assert !IsDigit(t[2]);
    NonNumericText(t);
  }

  /** Only the comma of "12.990,00" is rewritten. */
  lemma ThousandsSeparatorReplaced()
    ensures ReplaceFirst("12.990,00", ',', '.') == "12.990.00"
  {
    var r := ReplaceFirst("12.990,00", ',', '.');
    assert r[6] == '.' && r[..6] == "12.990" && r[7..] == "00";
  }

  /** `Math.round(kw * 1.35962)` in exact arithmetic: the integer nearest to kW × 1.35962, ties upward. */
  function RoundPs(kw: int): (ps: int)
    ensures (ps as real) - 0.5 <= (kw as real) * 1.35962 < (ps as real) + 0.5
  {
    var x := kw * 135962 + 50000;
    var q := x / 100000;
    assert q * 100000 <= x < q * 100000 + 100000;
    assert (q as real) * 100000.0 <= (x as real) < (q as real) * 100000.0 + 100000.0;
    q
  }

  /** `Number(ad?.power || 0)`. */
  function PowerKw(ad: Value): (r: Value)
    ensures r.Num? || r.NaN?
    ensures !Truthy(Get(ad, "power")) ==> r == Num(0)
    ensures Get(ad, "power").Num? ==> r == Get(ad, "power")
    ensures Get(ad, "power").Str? && Get(ad, "power").s != "" ==> r == StringToNumber(Get(ad, "power").s)
  {
    ToNumber(Or(Get(ad, "power"), Num(0)))
  }

  /** The `power` field: null when the kW value is absent, zero or not a number, else rounded PS. */
  function PowerPs(ad: Value): (r: Value)
    ensures r.Null? || r.Num?
    ensures r.Null? <==> PowerKw(ad).NaN? || PowerKw(ad) == Num(0)
    ensures r.Num? ==> (r.n as real) - 0.5 <= (PowerKw(ad).n as real) * 1.35962 < (r.n as real) + 0.5
  {
    var kw := PowerKw(ad);
    if Truthy(kw) then Num(RoundPs(kw.n)) else Null
  }

  /** A non-zero numeric power in kW gives the PS value rounded from it. */
  lemma PowerOfNumber(ad: Value, n: int)
    requires Get(ad, "power") == Num(n) && n != 0
    ensures PowerPs(ad) == Num(RoundPs(n))
    ensures UiCarOf(ad).power == Num(RoundPs(n))
  {
  }

  /** An absent power field, or one holding text that is not a number, gives no power. */
  lemma PowerAbsentOrNonNumeric(ad: Value)
    requires Nullish(Get(ad, "power")) || (Get(ad, "power").Str? && StringToNumber(Get(ad, "power").s).NaN?)
    ensures PowerPs(ad) == Null
  {
  }

  /** `images.map(i => i?.ref)`. */
  function Refs(images: seq<Value>): (r: seq<Value>)
    ensures |r| == |images| && forall i | 0 <= i < |images| :: r[i] == Get(images[i], "ref")
  {
    seq(|images|, i requires 0 <= i < |images| => Get(images[i], "ref"))
  }

  /** The refs of a concatenation are the refs of its parts. */
  lemma RefsAppend(a: seq<Value>, b: seq<Value>)
    ensures Refs(a + b) == Refs(a) + Refs(b)
  {
    assert |Refs(a + b)| == |Refs(a) + Refs(b)|;
  }

  /**
   * `ad.images.map(i => i?.ref).filter(Boolean)` when `images` is an array, else []:
   * exactly the truthy refs, each taken from an image.
   */
  function ImageRefs(ad: Value): (r: seq<Value>)
    ensures forall i | 0 <= i < |r| :: Truthy(r[i])
    ensures Get(ad, "images").Arr? ==> r == FilterTruthy(Refs(Get(ad, "images").elems))
    ensures Get(ad, "images").Arr? ==> forall x | x in Refs(Get(ad, "images").elems) && Truthy(x) :: x in r
    ensures !Get(ad, "images").Arr? ==> r == []
  {
    var images := Get(ad, "images");
    if images.Arr? then FilterTruthy(Refs(images.elems)) else []
  }

  /**
   * An image whose ref is falsy (missing, null or empty) is skipped without disturbing the
   * others: the refs are those of the remaining images, in their order.
   */
  lemma ImageRefsSkipFalsy(ad: Value, k: nat)
    requires Get(ad, "images").Arr? && k < |Get(ad, "images").elems|
    requires !Truthy(Get(Get(ad, "images").elems[k], "ref"))
    ensures var es := Get(ad, "images").elems;
            ImageRefs(ad) == FilterTruthy(Refs(es[..k])) + FilterTruthy(Refs(es[k + 1..]))
  {
    var es := Get(ad, "images").elems;
    assert es == es[..k] + ([es[k]] + es[k + 1..]);
    RefsAppend(es[..k], [es[k]] + es[k + 1..]);
    RefsAppend([es[k]], es[k + 1..]);
    FilterTruthyAppend(Refs(es[..k]), Refs([es[k]]) + Refs(es[k + 1..]));
    FilterTruthyAppend(Refs([es[k]]), Refs(es[k + 1..]));
    assert FilterTruthy(Refs([es[k]])) == [];
  }

  /** The `images` field: the truthy refs in order, or the single placeholder when there are none. */
  function Images(ad: Value): (r: seq<Value>)
    ensures r != []
    ensures ImageRefs(ad) != [] ==> r == ImageRefs(ad)
    ensures ImageRefs(ad) == [] ==> r == [Str(Placeholder)]
    ensures !Get(ad, "images").Arr? ==> r == [Str(Placeholder)]
  {
    var refs := ImageRefs(ad);
    if |refs| > 0 then refs else [Str(Placeholder)]
  }

  /** When every image has a truthy ref, all refs are kept, in their original order. */
  lemma ImagesKeepEveryRef(ad: Value)
    requires Get(ad, "images").Arr? && Get(ad, "images").elems != []
    requires forall i | 0 <= i < |Get(ad, "images").elems| :: Truthy(Get(Get(ad, "images").elems[i], "ref"))
    ensures |Images(ad)| == |Get(ad, "images").elems|
    ensures forall i | 0 <= i < |Images(ad)| :: Images(ad)[i] == Get(Get(ad, "images").elems[i], "ref")
  {
    FilterTruthyKeepsTruthy(Refs(Get(ad, "images").elems));
  }

  /** The `year` field: the first four characters of `String(firstRegistration)`, or null. */
  function Year(ad: Value): (r: Value)
    ensures r.Null? || r.Str?
    ensures r.Null? <==> !Truthy(Get(ad, "firstRegistration"))
    ensures r.Str? ==> var full := ToJsString(Get(ad, "firstRegistration"));
                       |r.s| == (if |full| < 4 then |full| else 4) && r.s == full[..|r.s|]
  {
    var first := Get(ad, "firstRegistration");
    if Truthy(first) then Str(Prefix(ToJsString(first), 4)) else Null
  }

  /** A registration "yyyyMM", as text or as a number, gives the year "yyyy". */
  lemma YearOfRegistration(ad: Value)
    requires Get(ad, "firstRegistration") == Str("201905") || Get(ad, "firstRegistration") == Num(201905)
    ensures Year(ad) == Str("2019")
  {
    RegistrationText(Get(ad, "firstRegistration"));
    assert Prefix("201905", 4) == "2019";
  }

  /** `String(201905)` and `String("201905")` are the same text. */
  lemma RegistrationText(first: Value)
    requires first == Str("201905") || first == Num(201905)
    ensures ToJsString(first) == "201905"
  {
    if first.Num? {
      assert NatToDecimal(20) == "20";
      assert NatToDecimal(2019) == NatToDecimal(201) + "9" == "2019";
      assert NatToDecimal(201905) == NatToDecimal(20190) + "5" == "201905";
    }
  }

  /** The `km` field: the mileage when it is a number, else null. */
  function Km(ad: Value): (r: Value)
    ensures r.Null? <==> !(Get(ad, "mileage").Num? || Get(ad, "mileage").NaN?)
    ensures !r.Null? ==> r == Get(ad, "mileage")
  {
    var mileage := Get(ad, "mileage");
    if mileage.Num? || mileage.NaN? then mileage else Null
  }

  /** `v || null`, as for the `fuel` and `gearbox` fields. */
  function NullIfFalsy(v: Value): (r: Value)
    ensures Truthy(v) ==> r == v
    ensures !Truthy(v) ==> r == Null
    ensures Truthy(r) <==> Truthy(v)
  {
    if Truthy(v) then v else Null
  }

  /**
   * Whether every `String` and `Number` conversion `mapAdToUiCar` makes returns: of the
   * truthy names joined into the title, of `power || 0`, of a truthy price, of a truthy
   * registration, and of the ad id.
   */
  predicate MapConverts(ad: Value) {
    && (forall v | v in NameParts(ad) :: Converts(v))
    && Converts(Or(Get(ad, "power"), Num(0)))
    && (Truthy(PriceSource(ad)) ==> Converts(PriceSource(ad)))
    && (Truthy(Get(ad, "firstRegistration")) ==> Converts(Get(ad, "firstRegistration")))
    && Converts(Get(ad, "mobileAdId"))
  }

  /** The object literal `mapAdToUiCar` returns when none of its conversions throws. */
  function UiCarOf(ad: Value): (car: UiCar)
    ensures car.id == ToJsString(Get(ad, "mobileAdId"))
    ensures car.title == Title(ad) && car.price == Price(ad) && car.year == Year(ad) && car.km == Km(ad)
    ensures car.fuel == NullIfFalsy(Get(ad, "fuel")) && car.gearbox == NullIfFalsy(Get(ad, "gearbox"))
    ensures car.power == PowerPs(ad) && car.images == Images(ad)
    ensures car.isSold <==> Truthy(Get(ad, "reserved"))
    ensures car.location == Location && car.raw == ad
    ensures car.Property("brand") == Undefined
  {
    CarKeyFacts();
    UiCar(
      id := ToJsString(Get(ad, "mobileAdId")),
      title := Title(ad),
      price := Price(ad),
      year := Year(ad),
      km := Km(ad),
      fuel := NullIfFalsy(Get(ad, "fuel")),
      gearbox := NullIfFalsy(Get(ad, "gearbox")),
      power := PowerPs(ad),
      location := Location,
      images := Images(ad),
      isSold := Truthy(Get(ad, "reserved")),
      raw := ad)
  }

  /**
   * `mapAdToUiCar(ad)`: the TypeError of a conversion that throws, else the car, whose
   * fields are those of `UiCarOf`.
   */
  function MapAdToUiCar(ad: Value): (r: Result<UiCar, Failure>)
    ensures r.Failure? <==> !MapConverts(ad)
    ensures r.Failure? ==> r.error == NotConvertible
    ensures r.Success? ==> r.value == UiCarOf(ad) && r.value.title != "" && r.value.images != []
  {
    if MapConverts(ad) then Success(UiCarOf(ad)) else Failure(NotConvertible)
  }
}
