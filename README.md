# natan-php core: router, request and helpers in Dafny

This project models the three core pieces of the natan-php micro-framework
and proves properties about them:

- **Router (`core/Router.php`).** The route table and the registration
  calls `get`/`post`/`put`/`delete`/`patch`/`match`/`any`, which add routes
  to it. `group` opens nested registrations that share a URI prefix and a
  middleware list. `RouteRegistrar` edits one registered route (its
  middleware and name). URI normalisation (`formatUri`), pattern matching
  (`matchRoute`) and parameter extraction (`extractParameters`) are pure
  functions. `resolve` finds the first route whose method and pattern
  answer the request.
- **Request (`core/Request.php`).** A snapshot of the server entries, the
  GET and POST data and the uploaded files. Its accessors are the method,
  the URI, typed input lookups, `all`/`only`/`except`, `has`/`filled`,
  files, headers, the client address and the AJAX and JSON tests.
- **Helpers (`core/helpers.php`).** `blank`/`filled` over PHP values,
  `str_slug`, the keyword conversion of `env`, and URL assembly (`url`,
  `asset`, `route`, `config`).

Files and modules:

| file | module | contents |
|---|---|---|
| `wrappers.dfy` | `Wrappers` | `Option`, `Result` |
| `text.dfy` | `Text` | ASCII `strtolower`/`strtoupper`, `trim`/`ltrim`/`rtrim`, prefix and substring tests, `empty()` on strings |
| `helpers.dfy` | `Helpers` | the helper functions |
| `route_pattern.dfy` | `RoutePattern` | `formatUri`, route URI tokens, `matchRoute`, `extractParameters` |
| `request.dfy` | `HttpRequest` | the request value and its accessors |
| `router.dfy` | `Routing` | the `Router` and `RouteRegistrar` classes, registration and resolution as values |

Modelling choices:

- **Router state.** The PHP router keeps its state in static properties.
  Here that state is the fields of one `Router` object: `routes`,
  `currentPrefix`, `currentMiddleware`, `parameters` and `request`.
  `RouteRegistrar` holds a reference to that router and the index of its
  route.
- **Group callbacks.** A `group` callback is PHP code that calls back into
  the router. Here it is a list of `Registration` commands:
  - register one route (with chained registrar calls);
  - register several verbs (with registrar calls chained on what `match`
    returns, which edit the last verb's route);
  - open a nested group.

  `Router.Run` executes the list. The function `Registered` says, as a
  value, which routes such a list appends.
- **Route URI tokens.** A route URI is cut into literal text and
  `{name}` placeholders, exactly where `\{[^}]+\}` matches. Literal text
  must match exactly. Each placeholder captures one or more characters
  other than `/`. A placeholder first tries the longest such run, then
  shorter ones until the rest of the URI matches, as PCRE's greedy
  backtracking does. `Matches` states the matching rule as a relation.
  `Capture` is the greedy search, and `CaptureComplete` proves the two
  agree.
- **Request data.** The request is a value. The superglobals are
  parameters of `HttpRequest.New`, which builds the header map with a
  loop, as the PHP constructor does. `$_SERVER` is a sequence of
  key/value pairs in array order, because the order decides which entry
  wins when two entries write the same header. PHP array keys are
  distinct, so `HttpRequest.New` requires distinct keys
  (`HttpRequest.DistinctKeys`), and `HttpRequest.ServerValueAt` proves
  that the lookup `ServerValue` then finds each entry's own value.
  A header default may be PHP's `null`: it is an `Option<string>`,
  `None` standing for `null`.
- **PHP values.** A PHP value is `Helpers.Value`: null, bool, int,
  string or string-keyed array. PHP's `empty()` on a string is
  `Text.EmptyString`, which holds for `""` and `"0"`.
- **URLs.** `Helpers.UrlAsWritten` is `url` as the source has it, and
  `route` and `asset` call it, as the source's `route` and `asset` call
  `url`. `Helpers.Url` is the corrected `url` described under Findings;
  for `asset` the two agree, since its path always starts with `assets/`.

## Model

| member | source | states |
|---|---|---|
| Routing.Router.constructor | core/Router.php:21-35 | the table starts empty, with an empty prefix, no middleware, no parameters and no request |
| Routing.Router.AddRoute | core/Router.php:255-269 | exactly one route is appended at the end, with the upper-cased verb, the URI `formatUri(prefix . '/' . uri)` and the current middleware; the earlier routes, the prefix, the middleware and the parameters are unchanged; the registrar's index is the old table length |
| Routing.RouteForWellFormed | core/Router.php:255-269 | the appended route has an upper-case verb and a normal-form URI, so normalising that URI again changes nothing |
| Routing.Router.Get | core/Router.php:51-54 | appends one GET route under the current prefix and middleware |
| Routing.Router.Post | core/Router.php:70-73 | appends one POST route |
| Routing.Router.Put | core/Router.php:89-92 | appends one PUT route |
| Routing.Router.Delete | core/Router.php:108-111 | appends one DELETE route |
| Routing.Router.Patch | core/Router.php:120-123 | appends one PATCH route |
| Routing.Router.Match | core/Router.php:140-147 | appends one route per listed verb, in list order, all with the same URI and action; returns the registrar of the last one, and none for an empty list |
| Routing.ManyRoutesCalls | core/Router.php:140-147 | `match(...)` with chained calls appends one route per verb; the calls edit only the last one, whose registrar `match` returns |
| Routing.ManyRoutesKeep | core/Router.php:140-147 | the registrar calls chained on `match` keep each route's verb, URI and action and only extend its middleware |
| Routing.RouteForUpper | core/Router.php:143-144 | upper-casing a verb before `addRoute` upper-cases it again gives the same route |
| Routing.Router.Any | core/Router.php:156-159 | appends exactly five routes, for GET, POST, PUT, DELETE and PATCH in that order |
| Routing.Router.Group | core/Router.php:187-204 | the body's routes are appended under prefix `prev . '/' . trim(prefix, '/')` and middleware `prev ++ group middleware`; afterwards the prefix and middleware are back to their values before the call |
| Routing.Router.Run | core/Router.php:200 | running a callback's commands appends exactly `Registered(cmds, prefix, middleware)` and leaves the prefix and middleware unchanged |
| Routing.Router.Step | core/Router.php:200 | one command of a callback appends that command's routes; for `match(...)` with chained calls, one route per verb with the calls applied to the last one |
| Routing.GroupMiddleware | core/Router.php:196-198 | the group's middleware list extends the outer list |
| Routing.RegisteredAppend | core/Router.php:187-204 | running two command lists in sequence registers the routes of the first followed by those of the second |
| Routing.RegisteredWellFormed | core/Router.php:255-269 | every route registered by any command list, at any group depth, has an upper-case verb and a normal-form URI |
| Routing.RegisteredKeepsMiddleware | core/Router.php:196-198 | every route registered inside a group carries the group's middleware list as a prefix of its own, at any depth |
| Routing.RegisteredUnderPrefix | core/Router.php:192-194 | every route registered under a prefix has a URI of the form `formatUri(prefix . '/' . rest)`, at any depth |
| Routing.GroupPrefixJoin | core/Router.php:192-194 | a URI under a nested group's prefix is also a URI under the outer prefix |
| Routing.ApplyCallsKeeps | core/Router.php:535-577 | registrar calls keep the verb, URI and action and only extend the middleware |
| Routing.RouteRegistrar.constructor | core/Router.php:510-513 | the registrar remembers its router and route index |
| Routing.RouteRegistrar.Middleware | core/Router.php:535-549 | the tags (one string becomes a one-element list) are appended, in order, to this route's middleware; no other route and no router state changes |
| Routing.RouteRegistrar.Name | core/Router.php:573-577 | this route's name is set or overwritten; no other route changes |
| Routing.RouteRegistrar.Apply | core/Router.php:535-577 | a chain of registrar calls edits only this route, applying the calls left to right |
| Routing.FirstWhereSpec | core/Router.php:236-241 | the route at the index found is accepted and none before it is; nothing is found exactly when no route is accepted |
| Routing.FirstMatchAt | core/Router.php:236-241 | a matching route with no matching route before it is the first match |
| Routing.FirstMatchNone | core/Router.php:236-244 | when no route matches, there is no first match |
| Routing.FirstMatchStable | core/Router.php:236-241 | routes registered later never change an existing answer; they only answer requests nothing earlier answered |
| Routing.WhereIgnoresRejected | core/Router.php:236-241 | inserting a route the test rejects only moves the answer's index past the insertion point |
| Routing.OtherVerbIgnored | core/Router.php:237 | a route for another method never shadows anything, so GET and POST routes on the same URI are both reachable |
| Routing.Router.Scan | core/Router.php:236-241 | the loop over the table returns the first index whose route has the request's method and a matching pattern |
| Routing.Router.Resolve | core/Router.php:230-245 | it uses the first route, in table order, with the request's method whose pattern matches `formatUri(uri())`; it stores that route's extracted parameters and dispatches its action and middleware; with no such route it fails with NotFound(method, uri) and leaves the parameters as they were; the table is unchanged |
| Routing.Router.Answer | core/Router.php:237-244 | for a method and a normalised URI: the first matching route of that method is dispatched and its parameters stored; otherwise NotFound, with the parameters, the table, the stored request and the group state all unchanged |
| Routing.IsApiRequest | core/Router.php:377-378 | the API namespace is chosen exactly when the request wants JSON or its URI starts with `/api/` |
| Routing.Router.GetParameter | core/Router.php:413-416 | the stored parameter under the key, or the default when there is none |
| RoutePattern.CollapseSlashes | core/Router.php:279 | the result has no "//", is empty only for an empty input, and keeps the first character |
| RoutePattern.CollapseRun | core/Router.php:279 | a leading run of one or more slashes becomes exactly one slash |
| RoutePattern.CollapseSplit | core/Router.php:279 | a run of slashes between two parts becomes exactly one slash, and each part is collapsed on its own, so no text between runs is lost |
| RoutePattern.CollapseNoSlash | core/Router.php:279 | text without slashes is unchanged |
| RoutePattern.FormatUri | core/Router.php:277-280 | the result starts with "/", and ends with "/" only when it is exactly "/" |
| RoutePattern.FormatUriNormal | core/Router.php:277-280 | the result starts with "/", has no "//", and ends with "/" only when it is exactly "/" |
| RoutePattern.FormatUriFixesNormal | core/Router.php:277-280 | a URI already in normal form is unchanged |
| RoutePattern.FormatUriIdempotent | core/Router.php:277-280 | normalising twice equals normalising once |
| RoutePattern.FormatUriKeepsText | core/Router.php:277-280 | only slashes are added or removed, and the other characters stay in order; "" and "/" both become "/" |
| RoutePattern.Placeholder | core/Router.php:291 | a placeholder match starts with "{" and ends at the first "}", with at least one character in between; and a string that starts with such a placeholder always gets a match |
| RoutePattern.Tokenize | core/Router.php:291 | cutting a route URI into literals and placeholders loses nothing: writing the tokens back gives the URI |
| RoutePattern.ParamNamesShape | core/Router.php:322 | every placeholder name is non-empty and holds no "}" |
| RoutePattern.SlashRun | core/Router.php:291 | the longest slash-free prefix, the most a placeholder can capture |
| RoutePattern.Capture | core/Router.php:289-295 | on a match there is one capture per placeholder, each non-empty and slash-free, and writing the captures into the placeholders gives back exactly the request URI |
| RoutePattern.Longest | core/Router.php:291-294 | the greedy choice for the head placeholder satisfies the same guarantees as `Capture` |
| RoutePattern.CaptureComplete | core/Router.php:289-295 | the greedy search finds a match exactly when the matching rule admits one (literals exact, placeholders one or more non-"/" characters, whole URI consumed) |
| RoutePattern.LongestComplete | core/Router.php:291-294 | the greedy search for the head placeholder succeeds exactly when some capture length lets the rest match |
| RoutePattern.LongestSound | core/Router.php:291-294 | what the greedy search returns lets the rest of the route match |
| RoutePattern.LongestFinds | core/Router.php:291-294 | a capture length that lets the rest match is never missed |
| RoutePattern.MatchRoute | core/Router.php:289-295 | `matchRoute` holds exactly when the matching rule admits the request URI: literals exactly, each placeholder one or more non-"/" characters, the whole URI consumed |
| RoutePattern.Bind | core/Router.php:329-331 | the keys are exactly the placeholder names, and a name that is not repeated later is bound to its own value |
| RoutePattern.ExtractParameters | core/Router.php:318-335 | the empty map when the route does not match; otherwise exactly the placeholder names as keys, each bound to its captured value |
| RoutePattern.TokenizeLiteral | core/Router.php:291 | text without "{" is one literal token |
| RoutePattern.PlaceholderAlone | core/Router.php:291 | `{name}` is one placeholder token |
| RoutePattern.LiteralRoute | core/Router.php:289-295 | a route URI without placeholders matches exactly its own text and binds nothing |
| RoutePattern.SingleParameterRoute | core/Router.php:318-335 | "literal{name}" matches the URIs that start with the literal and go on with one non-empty slash-free segment, and binds `name` to that segment |
| RoutePattern.ParameterAlone | core/Router.php:291 | a lone placeholder matches exactly the non-empty slash-free strings |
| HttpRequest.ServerValue | core/Request.php:131 | a server entry is found exactly when one has the key, and the value returned belongs to such an entry |
| HttpRequest.ServerValueAt | core/Request.php:131 | with distinct keys, as PHP arrays have, looking up an entry's key gives that entry's value |
| HttpRequest.New | core/Request.php:57-64 | for server entries with distinct keys, the request holds the given inputs, and its header map is the one extracted from the server entries |
| HttpRequest.ExtractHeaders | core/Request.php:423-447 | the loop computes the server entries applied in order, later writes winning |
| HttpRequest.HeadersOfKeys | core/Request.php:427-443 | a header is present exactly when some `HTTP_*` entry, or CONTENT_TYPE or CONTENT_LENGTH, produces its name |
| HttpRequest.HeadersOfLastWins | core/Request.php:427-443 | a header's value is that of the last server entry producing its name |
| HttpRequest.Header | core/Request.php:346-350 | the lookup uses the lower-cased name and gives the stored value; when the header is absent it gives the default, which may be null (`None`) |
| HttpRequest.HeaderAbsent | core/Request.php:346-350 | `header($key)` with the null default is null exactly when no server entry produces the lower-cased name |
| HttpRequest.HeaderFromServer | core/Request.php:346-350 | asking for a header under any spelling, with any default, gives the value of the last server entry producing that lower-case name |
| HttpRequest.IsAjax | core/Request.php:400-403 | holds exactly when X-Requested-With, "" when absent, equals "xmlhttprequest" ignoring ASCII case |
| HttpRequest.AjaxSpelling | core/Request.php:402 | lower-casing to "xmlhttprequest" is the same test as upper-casing to "XMLHTTPREQUEST" |
| HttpRequest.WantsJson | core/Request.php:410-414 | the Accept header contains "application/json" at some position |
| HttpRequest.Method | core/Request.php:77-80 | REQUEST_METHOD upper-cased when present, "GET" when absent; the result is always upper case |
| HttpRequest.IsMethod | core/Request.php:93-96 | the comparison ignores the case of the argument |
| HttpRequest.IsGet | core/Request.php:103-106 | holds exactly when the method is GET |
| HttpRequest.IsPost | core/Request.php:113-116 | holds exactly when the method is POST |
| HttpRequest.FullUrl | core/Request.php:150-153 | REQUEST_URI as sent, "/" when it is absent |
| HttpRequest.Uri | core/Request.php:129-140 | a prefix of `fullUrl()` with no "?", cut exactly at the first "?", and the whole of it when there is none |
| HttpRequest.UserAgent | core/Request.php:390-393 | HTTP_USER_AGENT, "" when it is absent |
| HttpRequest.Lookup | core/Request.php:169 | `??`: the stored value unless it is missing or null, otherwise the default |
| HttpRequest.Get | core/Request.php:167-170 | the GET value unless it is missing or null, otherwise the default |
| HttpRequest.Post | core/Request.php:184-187 | the POST value unless it is missing or null, otherwise the default |
| HttpRequest.Input | core/Request.php:203-206 | the POST value if it is non-null, else the GET value if it is non-null, else the default |
| HttpRequest.All | core/Request.php:220-223 | the keys are the union of the GET and POST keys, and POST wins on a shared key |
| HttpRequest.InputAgreesWithAll | core/Request.php:203-223 | where `all()` holds a non-null value, `input` returns that value |
| HttpRequest.Only | core/Request.php:235-247 | exactly the requested keys present in `all()`, with their values |
| HttpRequest.Except | core/Request.php:259-268 | `all()` without the listed keys |
| HttpRequest.OnlyExceptPartition | core/Request.php:235-268 | `only` and `except` over the same keys are disjoint and together give `all()` |
| HttpRequest.Has | core/Request.php:281-285 | holds exactly when the key is in GET or POST, whatever its value, null and "" included |
| HttpRequest.Filled | core/Request.php:300-303 | implies `has`, and holds exactly when the key is present and its input is not blank |
| HttpRequest.NotFilledWhenBlank | core/Request.php:300-303 | a key whose input is null, whitespace-only text, the integer 0 or false is not filled |
| HttpRequest.File | core/Request.php:318-321 | the upload under the key, none when there is no upload |
| HttpRequest.HasFile | core/Request.php:329-333 | holds exactly when the upload exists, its error is UPLOAD_ERR_OK and its size is positive |
| HttpRequest.Ip | core/Request.php:359-383 | the first non-empty of HTTP_X_FORWARDED_FOR, HTTP_X_REAL_IP, HTTP_CLIENT_IP and REMOTE_ADDR, cut at its first comma and trimmed; "127.0.0.1" when all four are empty or absent |
| Helpers.Filled | core/helpers.php:330-332 | `filled` is the negation of `blank`: false for null, for whitespace-only strings, for empty arrays, for 0 and for false; true otherwise |
| Helpers.Blank | core/helpers.php:303-317 | null, an empty array, 0 and false are blank; a string is blank exactly when every character is one that `trim` strips by default (space, \t, \n, \r, \0, \x0B) |
| Helpers.ZeroAsymmetry | core/helpers.php:303-317 | the string "0" is not blank but the integer 0 is; "" is blank; -1 is not |
| Helpers.FoldAccents | core/helpers.php:269-273 | each accented letter is replaced, character by character, and the length is unchanged |
| Helpers.KeepSlugChars | core/helpers.php:276 | only lower-case letters, digits and `\s` characters survive |
| Helpers.KeepSlugCharsOne | core/helpers.php:276 | a single character is kept exactly when it is a lower-case letter, a digit or `\s`, and dropped otherwise |
| Helpers.KeepSlugCharsAppend | core/helpers.php:276 | filtering a concatenation filters each part and keeps them in order, so every allowed character survives in place |
| Helpers.CollapseSpaces | core/helpers.php:279 | the result is no longer than the input, and holds no `\s` character other than the separator |
| Helpers.CollapseSpacesRun | core/helpers.php:279 | a leading run of one or more `\s` characters becomes exactly one separator |
| Helpers.CollapseSpacesSplit | core/helpers.php:279 | a run of `\s` characters between two parts becomes exactly one separator, and each part is collapsed on its own |
| Helpers.CollapseSpacesNoSpace | core/helpers.php:279 | text without `\s` characters is unchanged |
| Helpers.CollapseSpacesLast | core/helpers.php:279 | a last character that is not `\s` stays last |
| Helpers.StrSlug | core/helpers.php:264-283 | a slug never starts or ends with the separator |
| Helpers.SlugTextAppend | core/helpers.php:269-276 | lower-casing, accent folding and filtering work part by part on a concatenation |
| Helpers.SlugOfWorded | core/helpers.php:279-282 | when the filtered text neither starts nor ends with `\s`, trimming the separator removes nothing |
| Helpers.SlugJoin | core/helpers.php:264-283 | two phrases joined by a whitespace run slug to the first phrase's slug, one separator and the second's |
| Helpers.SlugOfWord | core/helpers.php:264-283 | a word of ASCII letters and digits slugs to its lower-case form |
| Helpers.SlugTwoWords | core/helpers.php:264-283 | two such words separated by whitespace slug to the lower-case words joined by one separator |
| Helpers.SlugThreeWords | core/helpers.php:264-283 | three such words separated by whitespace runs slug to the lower-case words joined by single separators |
| Helpers.SlugHolaMundo | core/helpers.php:264-283 | `str_slug('Hola Mundo', '_')` is "hola_mundo" |
| Helpers.SlugHolaMundoTest | core/helpers.php:264-283 | `str_slug('Hola    Mundo    Test')` is "hola-mundo-test" |
| Helpers.SlugAlphabet | core/helpers.php:264-283 | a slug holds only `a-z`, `0-9` and the separator, and never starts or ends with the separator |
| Helpers.NoDoubleSeparator | core/helpers.php:276-282 | with a separator that is not a letter, digit or space, a slug never holds two separators in a row |
| Helpers.CollapseNoDoubles | core/helpers.php:279 | collapsing whitespace runs never puts two separators next to each other |
| Helpers.CollapseAlphabet | core/helpers.php:279 | after collapsing, only letters, digits and the separator remain |
| Helpers.SlugKeepsWords | core/helpers.php:264-283 | removing the separators from a slug gives back, in order, the letters and digits that survived lower-casing, accent folding and filtering |
| Helpers.CollapseKeepsWords | core/helpers.php:279 | collapsing whitespace keeps every other character in order |
| Helpers.Env | core/helpers.php:75-99 | a missing variable gives the default; otherwise true/(true), false/(false), null/(null) and empty/(empty), in any ASCII case, convert to true, false, null and ""; anything else comes back unchanged |
| Helpers.EnvIgnoresCase | core/helpers.php:83 | upper-casing a keyword does not change its conversion |
| Helpers.Scheme | core/helpers.php:202 | "https" exactly when HTTPS is set to something other than "", "0" and "off" (PHP's `empty` treats "0" as empty); "http" otherwise |
| Helpers.BaseUrl | core/helpers.php:202-208 | starts with "https://" exactly when the scheme is https |
| Helpers.BaseUrlHost | core/helpers.php:205-208 | the base URL ends with HTTP_HOST, or with localhost:8080 when that is absent |
| Helpers.UrlAsWritten | core/helpers.php:200-214 | the URL is the base URL alone when the path without leading slashes is "" or "0", and otherwise the base URL, "/" and that path |
| Helpers.UrlAsWrittenDropsZero | core/helpers.php:211-213 | `url('/0')` and `url('')` coincide as written, and differ from the corrected URL for "/0" |
| Helpers.UrlAsWrittenAgrees | core/helpers.php:211-213 | the written `url` and the corrected one agree on every path except those that trim to "0" |
| Helpers.Url | core/helpers.php:200-214 | the URL starts with the base URL, and equals it exactly when the path without leading slashes is empty |
| Helpers.UrlShape | core/helpers.php:209-213 | the URL is the base URL followed by "/" and the path without leading slashes, or by nothing for an empty path |
| Helpers.UrlScheme | core/helpers.php:202 | the scheme is https exactly when HTTPS is set, non-empty and not "off" |
| Helpers.UrlInjective | core/helpers.php:209-213 | distinct paths, after dropping leading slashes, give distinct URLs |
| Helpers.Asset | core/helpers.php:241-244 | the base URL, "/assets/", and the path without leading slashes |
| Helpers.Route | core/helpers.php:165-169 | the URL of the name through the written `url`: the base URL alone for a name that trims to "" or "0", otherwise the base URL, "/" and the trimmed name; the parameters are ignored |
| Helpers.RouteDropsZero | core/helpers.php:165-169 | `route('0')` is the bare base URL, the same as `route('')`, and differs from the corrected URL for "0" |
| Helpers.Config | core/helpers.php:131-135 | always the default |
| Text.ToLower | core/Request.php:348 | ASCII lower-casing, character by character, length kept |
| Text.ToUpper | core/Request.php:79 | ASCII upper-casing, character by character, length kept |
| Text.TrimLeft | core/helpers.php:211 | `ltrim` drops the longest prefix made of listed characters |
| Text.TrimRight | core/helpers.php:282 | `rtrim` drops the longest suffix made of listed characters |
| Text.TrimEmptyIff | core/helpers.php:309 | a string trims to "" exactly when every character is in the list |
| Text.ContainsIff | core/Request.php:413 | `strpos(...) !== false` holds exactly when the needle occurs at some position |
| Text.IndexOf | core/Request.php:134 | `strpos` of a character: the first index holding it, none when it is absent |
| Text.BeforeFirst | core/Request.php:374-376 | the text before the first occurrence of a character, or the whole text when it is absent |

## Left out

- `Router::callAction` (core/Router.php:367-394) is not modelled beyond `Routing.IsApiRequest`. It resolves the controller class and method by reflection (`class_exists`, `method_exists`, dynamic `new`, `call_user_func_array`). `Router.Resolve` returns a `Dispatch` value (index, action, middleware, API choice) in place of calling it. The middleware loop there is an empty TODO.
- Regex features of `matchRoute`: the route URI is spliced into the pattern unescaped, so `.`, `+`, `(` or `#` in literal text would act as regex syntax, and `$` also accepts one trailing newline. The model matches literal text exactly.
- `group` gives no guarantee when the callback throws. The source has no `try`/`finally`, and the model's command lists cannot fail.
- `HttpRequest.New` takes the superglobals as parameters. Capturing `$_GET`, `$_POST`, `$_FILES` and `$_SERVER` is I/O.
- `Helpers.Env` takes the looked-up raw value as a parameter. Looking it up in `$_ENV` and `getenv` is I/O.
- `HttpRequest.All`: keys are strings. `array_merge` renumbers integer keys, which is not modelled.
- `$_SERVER` values are strings. Non-string entries, such as `REQUEST_TIME`, are not represented.
- `Helpers.FoldAccents` and `Text.ToLower` work on characters, not UTF-8 bytes. The accented letters are atomic, and `strtolower`'s byte-level behaviour on multi-byte text is not modelled.
- `Helpers.StrSlug` takes a one-character separator. A longer separator, or a `$` reference in it that `preg_replace` would interpret, is not modelled.
- `Routing.Router.Match` returns `None` for an empty verb list. PHP returns null where a registrar is declared, which is a TypeError.
- `Routing.ManyRoutes` appends nothing for an empty verb list and drops the chained calls. PHP would fail with a TypeError on `match([])` before any call runs.
- The registrar methods require the index to be within the table. A registrar only ever comes from `addRoute`, which gives it the index of the route just appended.
- `getParameters` and `getRoutes` are plain reads of the `parameters` and `routes` fields, and have no members of their own.
- `getCurrentPrefix`/`setCurrentPrefix` and `getCurrentMiddleware`/`setCurrentMiddleware` are field reads and assignments.
- `dd` and `version` are not modelled: `dd` prints and exits, and `version` is a constant.
- Floating-point values are not part of `Helpers.Value`.
- Controllers, views, the bootstrap file and the routes files are outside the modelled core.

## Findings

| source | as written | input that shows it | evidently intended | confidence | as-written member | corrected member |
|---|---|---|---|---|---|---|
| core/helpers.php:211-213 | the path is appended only when PHP finds it truthy, and the string "0" is falsy | `url('/0')` gives the bare base URL, the same as `url('')` | append "/" and the path whenever the path is non-empty, so that `url('/0')` ends in "/0" | medium; not executed | Helpers.UrlAsWritten (lemmas Helpers.UrlAsWrittenDropsZero, Helpers.UrlAsWrittenAgrees), and Helpers.Route, which calls it (lemma Helpers.RouteDropsZero) | Helpers.Url (lemmas Helpers.UrlShape, Helpers.UrlInjective) |
