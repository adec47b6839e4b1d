/**
 * The request snapshot: `$_SERVER`, `$_GET`, `$_POST` and `$_FILES` as they
 * were when the request object was built, the header map derived from the
 * server entries, and the accessors over them. Nothing is modified after
 * construction, so the request is a value and its accessors are functions,
 * or read-only methods where the PHP code runs a loop.
 */
module HttpRequest {
  import opened Wrappers
  import opened Text
  import Helpers

  type Value = Helpers.Value

  /** One entry of `$_FILES`. */
  datatype UploadedFile = UploadedFile(name: string, mimeType: string, tmpName: string, error: int, size: int)

  /** PHP's `UPLOAD_ERR_OK`. */
  const UploadErrOk := 0

  /**
   * `server` keeps the entries of `$_SERVER` in array order (its keys are
   * distinct, as in any PHP array); the other inputs are keyed maps.
   */
  datatype Request = Request(
    server: seq<(string, string)>,
    get: map<string, Value>,
    post: map<string, Value>,
    files: map<string, UploadedFile>,
    headers: map<string, string>)

  /** The keys of `server` are distinct, as those of any PHP array are. */
  predicate DistinctKeys(server: seq<(string, string)>) {
    forall i, j :: 0 <= i < j < |server| ==> server[i].0 != server[j].0
  }

  /** `$this->server[$key]`, None when the key is absent. */
  function ServerValue(server: seq<(string, string)>, key: string): (r: Option<string>)
    ensures r.Some? <==> exists i :: 0 <= i < |server| && server[i].0 == key
    ensures r.Some? ==> exists i :: 0 <= i < |server| && server[i] == (key, r.value)
  {
    if server == [] then None
    else if server[0].0 == key then Some(server[0].1)
    else
      var r := ServerValue(server[1..], key);
      assert forall i :: 1 <= i < |server| ==> server[i] == server[1..][i - 1];
      r
  }

  /** With distinct keys, looking an entry's key up gives that entry's value: the first and the last entry are the same. */
  lemma ServerValueAt(server: seq<(string, string)>, i: nat)
    requires DistinctKeys(server) && i < |server|
    ensures ServerValue(server, server[i].0) == Some(server[i].1)
  {
    var r := ServerValue(server, server[i].0);
    var j :| 0 <= j < |server| && server[j] == (server[i].0, r.value);
    assert j == i;
  }

  // ---------------------------------------------------------------- headers

  /** `strtolower(str_replace('_', '-', substr($key, 5)))`. */
  function HeaderName(key: string): string
    requires StartsWith(key, "HTTP_")
  {
    var rest := key[5..];
    ToLower(seq(|rest|, i requires 0 <= i < |rest| => if rest[i] == '_' then '-' else rest[i]))
  }

  /** Server entry `key` writes header `name`: an `HTTP_*` entry, or one of the two content entries. */
  predicate Produces(key: string, name: string) {
    || (StartsWith(key, "HTTP_") && HeaderName(key) == name)
    || (key == "CONTENT_TYPE" && name == "content-type")
    || (key == "CONTENT_LENGTH" && name == "content-length")
  }

  /** One iteration of `extractHeaders`' loop. */
  function HeaderStep(h: map<string, string>, key: string, value: string): map<string, string> {
    var h1 := if StartsWith(key, "HTTP_") then h[HeaderName(key) := value] else h;
    if key == "CONTENT_TYPE" then h1["content-type" := value]
    else if key == "CONTENT_LENGTH" then h1["content-length" := value]
    else h1
  }

  /** The header map of `server`: its entries applied in order, later writes winning. */
  function HeadersOf(server: seq<(string, string)>): map<string, string>
    decreases |server|
  {
    if server == [] then map[]
    else
      var last := server[|server| - 1];
      HeaderStep(HeadersOf(server[..|server| - 1]), last.0, last.1)
  }

  /** `extractHeaders`: one pass over the server entries. */
  method ExtractHeaders(server: seq<(string, string)>) returns (headers: map<string, string>)
    ensures headers == HeadersOf(server)
  {
    headers := map[];
    var i := 0;
    while i < |server|
      invariant 0 <= i <= |server|
      invariant headers == HeadersOf(server[..i])
    {
      var (key, value) := server[i];
      if StartsWith(key, "HTTP_") {
        headers := headers[HeaderName(key) := value];
      }
      if key == "CONTENT_TYPE" {
        headers := headers["content-type" := value];
      } else if key == "CONTENT_LENGTH" {
        headers := headers["content-length" := value];
      }
      assert server[..i + 1][..i] == server[..i];
      i := i + 1;
    }
    assert server[..i] == server;
  }

  /** A header name is present exactly when some server entry produces it. */
  lemma {:induction false} HeadersOfKeys(server: seq<(string, string)>, name: string)
    ensures name in HeadersOf(server) <==> exists i :: 0 <= i < |server| && Produces(server[i].0, name)
    decreases |server|
  {
    if server != [] {
      var init := server[..|server| - 1];
      HeadersOfKeys(init, name);
      assert forall i :: 0 <= i < |init| ==> init[i] == server[i];
    }
  }

  /** The value of a header is that of the last server entry producing it. */
  lemma {:induction false} HeadersOfLastWins(server: seq<(string, string)>, name: string, i: nat)
    requires i < |server| && Produces(server[i].0, name)
    requires forall j :: i < j < |server| ==> !Produces(server[j].0, name)
    ensures name in HeadersOf(server) && HeadersOf(server)[name] == server[i].1
    decreases |server|
  {
    var init := server[..|server| - 1];
    if i < |server| - 1 {
      assert forall j :: i < j < |init| ==> init[j] == server[j];
      HeadersOfLastWins(init, name, i);
    }
  }

  /** Built by the constructor from a PHP array: distinct server keys, and the header map is that of the server entries. */
  predicate Valid(req: Request) {
    && DistinctKeys(req.server)
    && req.headers == HeadersOf(req.server)
  }

  /** The constructor, with the superglobals passed in; `$_SERVER` is a PHP array, so its keys are distinct. */
  method New(server: seq<(string, string)>, get: map<string, Value>, post: map<string, Value>,
             files: map<string, UploadedFile>) returns (req: Request)
    requires DistinctKeys(server)
    ensures Valid(req)
    ensures req.server == server && req.get == get && req.post == post && req.files == files
  {
    var headers := ExtractHeaders(server);
    req := Request(server, get, post, files, headers);
  }

  /**
   * `header($key, $default = null)`: lookup under the lower-cased name.
   * PHP's `null` is None, both as the default and as the answer.
   */
  function Header(req: Request, key: string, default: Option<string>): (r: Option<string>)
    ensures ToLower(key) in req.headers ==> r == Some(req.headers[ToLower(key)])
    ensures ToLower(key) !in req.headers ==> r == default
  {
    if ToLower(key) in req.headers then Some(req.headers[ToLower(key)]) else default
  }

  /** `header($key)` with no default is null exactly when no server entry produces the header. */
  lemma HeaderAbsent(req: Request, key: string)
    requires Valid(req)
    ensures Header(req, key, None).None? <==> forall i :: 0 <= i < |req.server| ==> !Produces(req.server[i].0, ToLower(key))
  {
    HeadersOfKeys(req.server, ToLower(key));
  }

  /**
   * For a constructed request, asking for a header under any spelling whose
   * lower-case form is that of an `HTTP_*` entry gives that entry's value,
   * unless a later entry writes the same header.
   */
  lemma HeaderFromServer(req: Request, key: string, i: nat, default: Option<string>)
    requires Valid(req) && i < |req.server|
    requires Produces(req.server[i].0, ToLower(key))
    requires forall j :: i < j < |req.server| ==> !Produces(req.server[j].0, ToLower(key))
    ensures Header(req, key, default) == Some(req.server[i].1)
  {
    HeadersOfLastWins(req.server, ToLower(key), i);
  }

  /** Lower-casing to "xmlhttprequest" is the same as upper-casing to "XMLHTTPREQUEST". */
  lemma AjaxSpelling(h: string)
    ensures ToLower(h) == "xmlhttprequest" <==> ToUpper(h) == "XMLHTTPREQUEST"
  {
    UpperOfLower(h);
    assert ToUpper("xmlhttprequest") == "XMLHTTPREQUEST";
    assert ToLower("XMLHTTPREQUEST") == "xmlhttprequest";
    if ToUpper(h) == "XMLHTTPREQUEST" {
      SameUpperSameLower(h, "xmlhttprequest");
    }
  }

  /** `isAjax`: X-Requested-With equals "xmlhttprequest" ignoring ASCII case. */
  function IsAjax(req: Request): (r: bool)
    ensures r <==> ToUpper(Header(req, "X-Requested-With", Some("")).value) == "XMLHTTPREQUEST"
  {
    var h := Header(req, "X-Requested-With", Some("")).value;
    AjaxSpelling(h);
    ToLower(h) == "xmlhttprequest"
  }

  /** `wantsJson`: the Accept header contains "application/json" somewhere. */
  function WantsJson(req: Request): (r: bool)
    ensures r <==> exists i :: OccursAt(Header(req, "Accept", Some("")).value, "application/json", i)
  {
    var accept := Header(req, "Accept", Some("")).value;
    ContainsIff(accept, "application/json");
    Contains(accept, "application/json")
  }

  // ---------------------------------------------------------------- method and URI

  /** `method()`: REQUEST_METHOD upper-cased, "GET" when absent. */
  function Method(req: Request): (r: string)
    ensures ToUpper(r) == r
    ensures ServerValue(req.server, "REQUEST_METHOD").None? ==> r == "GET"
    ensures ServerValue(req.server, "REQUEST_METHOD").Some? ==> r == ToUpper(ServerValue(req.server, "REQUEST_METHOD").value)
  {
    var m := ServerValue(req.server, "REQUEST_METHOD").GetOr("GET");
    ToUpperIdempotent(m);
    ToUpper(m)
  }

  /** `isMethod($m)`: compares upper-cased, so the spelling of `m` does not matter. */
  function IsMethod(req: Request, m: string): (r: bool)
    ensures r <==> Method(req) == ToUpper(m)
    ensures r <==> Method(req) == ToUpper(ToLower(m))
  {
    UpperOfLower(m);
    Method(req) == ToUpper(m)
  }

  /** `isGet()`. */
  function IsGet(req: Request): (r: bool)
    ensures r <==> Method(req) == "GET"
  {
    assert ToUpper("GET") == "GET";
    IsMethod(req, "GET")
  }

  /** `isPost()`. */
  function IsPost(req: Request): (r: bool)
    ensures r <==> Method(req) == "POST"
  {
    assert ToUpper("POST") == "POST";
    IsMethod(req, "POST")
  }

  /** `fullUrl()`: REQUEST_URI as sent, "/" when absent. */
  function FullUrl(req: Request): (r: string)
    ensures ServerValue(req.server, "REQUEST_URI").None? ==> r == "/"
    ensures ServerValue(req.server, "REQUEST_URI").Some? ==> r == ServerValue(req.server, "REQUEST_URI").value
  {
    ServerValue(req.server, "REQUEST_URI").GetOr("/")
  }

  /** `uri()`: the full URL cut before its first "?": a prefix of it holding no "?". */
  function Uri(req: Request): (r: string)
    ensures StartsWith(FullUrl(req), r) && '?' !in r
    ensures |r| < |FullUrl(req)| ==> FullUrl(req)[|r|] == '?'
    ensures '?' !in FullUrl(req) ==> r == FullUrl(req)
  {
    BeforeFirst(FullUrl(req), '?')
  }

  /** `userAgent()`: HTTP_USER_AGENT, "" when absent. */
  function UserAgent(req: Request): (r: string)
    ensures ServerValue(req.server, "HTTP_USER_AGENT").None? ==> r == ""
    ensures ServerValue(req.server, "HTTP_USER_AGENT").Some? ==> r == ServerValue(req.server, "HTTP_USER_AGENT").value
  {
    ServerValue(req.server, "HTTP_USER_AGENT").GetOr("")
  }

  // ---------------------------------------------------------------- input data

  /** `$array[$key] ?? $default`: a null entry counts as missing. */
  function Lookup(m: map<string, Value>, key: string, default: Value): (r: Value)
    ensures key in m && m[key] != Helpers.Null ==> r == m[key]
    ensures !(key in m && m[key] != Helpers.Null) ==> r == default
  {
    if key in m && m[key] != Helpers.Null then m[key] else default
  }

  /** `get($key, $default)`. */
  function Get(req: Request, key: string, default: Value): (r: Value)
    ensures key in req.get && req.get[key] != Helpers.Null ==> r == req.get[key]
    ensures !(key in req.get && req.get[key] != Helpers.Null) ==> r == default
  {
    Lookup(req.get, key, default)
  }

  /** `post($key, $default)`. */
  function Post(req: Request, key: string, default: Value): (r: Value)
    ensures key in req.post && req.post[key] != Helpers.Null ==> r == req.post[key]
    ensures !(key in req.post && req.post[key] != Helpers.Null) ==> r == default
  {
    Lookup(req.post, key, default)
  }

  /** `input($key, $default)`: the POST value if non-null, else the GET value if non-null, else the default. */
  function Input(req: Request, key: string, default: Value): (r: Value)
    ensures key in req.post && req.post[key] != Helpers.Null ==> r == req.post[key]
    ensures !(key in req.post && req.post[key] != Helpers.Null) && key in req.get && req.get[key] != Helpers.Null
      ==> r == req.get[key]
    ensures !(key in req.post && req.post[key] != Helpers.Null) && !(key in req.get && req.get[key] != Helpers.Null)
      ==> r == default
  {
    var p := Post(req, key, Helpers.Null);
    if p != Helpers.Null then p else Get(req, key, default)
  }

  /** `all()`: GET merged with POST, POST winning on a shared key. */
  function All(req: Request): (r: map<string, Value>)
    ensures r.Keys == req.get.Keys + req.post.Keys
    ensures forall k :: k in req.post ==> r[k] == req.post[k]
    ensures forall k :: k in req.get && k !in req.post ==> r[k] == req.get[k]
  {
    req.get + req.post
  }

  /** Where `all()` holds a non-null value, `input` returns that value. */
  lemma InputAgreesWithAll(req: Request, key: string, default: Value)
    requires key in All(req) && All(req)[key] != Helpers.Null
    ensures Input(req, key, default) == All(req)[key]
  {
  }

  /** The projection `only` computes. */
  function OnlyOf(all: map<string, Value>, keys: seq<string>): map<string, Value> {
    map k | k in all && k in keys :: all[k]
  }

  /** The anti-projection `except` computes. */
  function ExceptOf(all: map<string, Value>, keys: seq<string>): map<string, Value> {
    map k | k in all && k !in keys :: all[k]
  }

  /** `only($keys)`: the requested keys present in `all()`, with their values. */
  method Only(req: Request, keys: seq<string>) returns (result: map<string, Value>)
    ensures result.Keys == (set k | k in keys && k in All(req))
    ensures forall k :: k in result ==> result[k] == All(req)[k]
    ensures result == OnlyOf(All(req), keys)
  {
    result := map[];
    var allData := All(req);
    for i := 0 to |keys|
      invariant result.Keys == (set k | k in keys[..i] && k in allData)
      invariant forall k :: k in result ==> result[k] == allData[k]
    {
      var key := keys[i];
      if key in allData {
        result := result[key := allData[key]];
      }
      assert keys[..i + 1] == keys[..i] + [key];
    }
    assert keys[..|keys|] == keys;
  }

  /** `except($keys)`: `all()` without the listed keys. */
  method Except(req: Request, keys: seq<string>) returns (result: map<string, Value>)
    ensures result.Keys == All(req).Keys - (set k | k in keys)
    ensures forall k :: k in result ==> result[k] == All(req)[k]
    ensures result == ExceptOf(All(req), keys)
  {
    result := All(req);
    for i := 0 to |keys|
      invariant result.Keys == All(req).Keys - (set k | k in keys[..i])
      invariant forall k :: k in result ==> result[k] == All(req)[k]
    {
      result := result - {keys[i]};
      assert keys[..i + 1] == keys[..i] + [keys[i]];
    }
    assert keys[..|keys|] == keys;
  }

  /** `only` and `except` over the same keys split `all()` in two. */
  lemma {:induction false} OnlyExceptPartition(req: Request, keys: seq<string>)
    ensures OnlyOf(All(req), keys).Keys !! ExceptOf(All(req), keys).Keys
    ensures OnlyOf(All(req), keys) + ExceptOf(All(req), keys) == All(req)
  {
    var all := All(req);
    var u := OnlyOf(all, keys) + ExceptOf(all, keys);
    assert u.Keys == all.Keys;
  }

  /** `has($key)`: the key is in `all()`, whatever its value (null and "" included). */
  function Has(req: Request, key: string): (r: bool)
    ensures r <==> key in req.get || key in req.post
  {
    key in All(req)
  }

  /** `filled($key)`: the key is present and `input` gives a value `filled` accepts. */
  function Filled(req: Request, key: string): (r: bool)
    ensures r ==> Has(req, key)
    ensures r <==> Has(req, key) && !Helpers.Blank(Input(req, key, Helpers.Null))
  {
    Has(req, key) && Helpers.Filled(Input(req, key, Helpers.Null))
  }

  /** A present key whose input is null, whitespace-only text, the integer 0 or false is not filled. */
  lemma NotFilledWhenBlank(req: Request, key: string)
    requires var v := Input(req, key, Helpers.Null);
      || v == Helpers.Null || v == Helpers.Int(0) || v == Helpers.Bool(false)
      || (v.Str? && forall i :: 0 <= i < |v.s| ==> v.s[i] in TrimSpace)
    ensures !Filled(req, key)
  {
  }

  // ---------------------------------------------------------------- files

  /** `file($key)`: None when there is no upload under that name. */
  function File(req: Request, key: string): (r: Option<UploadedFile>)
    ensures r.Some? <==> key in req.files
    ensures r.Some? ==> r.value == req.files[key]
  {
    if key in req.files then Some(req.files[key]) else None
  }

  /** `hasFile($key)`: an upload exists, reported no error and is not empty. */
  function HasFile(req: Request, key: string): (r: bool)
    ensures r <==> key in req.files && req.files[key].error == UploadErrOk && req.files[key].size > 0
  {
    var f := File(req, key);
    f.Some? && f.value.error == UploadErrOk && f.value.size > 0
  }

  // ---------------------------------------------------------------- client address

  /** The server keys `ip()` tries, in priority order. */
  const IpKeys: seq<string> := ["HTTP_X_FORWARDED_FOR", "HTTP_X_REAL_IP", "HTTP_CLIENT_IP", "REMOTE_ADDR"]

  const FallbackIp := "127.0.0.1"

  /** `!empty($this->server[$key])`. */
  predicate ServerFilled(server: seq<(string, string)>, key: string) {
    var v := ServerValue(server, key);
    v.Some? && !EmptyString(v.value)
  }

  /** The first address of a comma-separated list, trimmed. */
  function FirstAddress(v: string): string {
    Trim(BeforeFirst(v, ','), TrimSpace)
  }

  /**
   * `ip()`: the first non-empty of the forwarded-for, real-ip, client-ip and
   * remote-address entries, cut at its first comma and trimmed; 127.0.0.1
   * when all four are empty or absent.
   */
  method Ip(req: Request) returns (ip: string)
    ensures forall i :: (0 <= i < |IpKeys| && ServerFilled(req.server, IpKeys[i]) &&
                         (forall j :: 0 <= j < i ==> !ServerFilled(req.server, IpKeys[j])))
                        ==> ip == FirstAddress(ServerValue(req.server, IpKeys[i]).value)
    ensures (forall i :: 0 <= i < |IpKeys| ==> !ServerFilled(req.server, IpKeys[i])) ==> ip == FallbackIp
  {
    var n := 0;
    while n < |IpKeys|
      invariant 0 <= n <= |IpKeys|
      invariant forall j :: 0 <= j < n ==> !ServerFilled(req.server, IpKeys[j])
    {
      var v := ServerValue(req.server, IpKeys[n]);
      if v.Some? && !EmptyString(v.value) {
        var candidate := v.value;
        if IndexOf(candidate, ',').Some? {
          candidate := candidate[..IndexOf(candidate, ',').value];
        }
        return Trim(candidate, TrimSpace);
      }
      n := n + 1;
    }
    return FallbackIp;
  }
}
