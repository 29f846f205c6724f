# Query codec, router, connection loop and cookies of the BookFiler HTTP module

A Dafny model of the parts of the module that are its own logic rather than calls into Boost and
OpenSSL, with proofs about all inputs, all runs and all reachable states.

- `Text.dfy`: byte strings, the key order of `std::map`, cutting and joining at a delimiter.
- `PercentCodec.dfy`: `Util::uriEncode` and `Util::uriDecode`.
- `Query.dfy`: `QueryImpl`, the map and the string of a query, over runs of its setters.
- `QueryText.dfy`: a printed query against RFC 3986, and where two dots in a row come from.
- `Target.dfy`: `UrlImpl` and `RequestImpl`, the two ends of a request target.
- `Signals.dfy`: `ResponseImpl`, handler lists, `RouteCombiner`.
- `Router.dfy`: `RouteImpl`, and `ServerImpl::route`.
- `ServerConnection.dfy`: `Connection`, its protocol, and the path from a client's map to a handler.
- `Cookie.dfy`: `CookieImpl`. `CookieFormat.dfy`: reading its Netscape format back. `Rfc2109.dfy`: when
  its RFC 2109 format identifies a cookie.

How the C++ is read:

- A `char` is a byte, 0 to 255. The source's `char` arithmetic in the decoder wraps to the same byte.
- A `std::map` is a Dafny map; a loop over one walks `SortedKeys`, the order of `std::string`'s `<`.
- Parameters passed by reference and appended to are an in-parameter and an out-parameter.
- A class updates its fields in methods; each method's contract gives the new state as a function of
  the old one (`Step`, `Parsed`, `TableOf`, `RunOf`, `Render`, ...), and the lemmas are about those functions.
  What such a function computes is said once more without it: `LessMeans`, `FlattenPeels`, `EscapedByRule`,
  `StableSortRearranges`, `ChosenIsFirst`, `RejectedMeans`, `NetscapeSpelled` and others like them.
- `UrlImpl` inherits from `QueryImpl` and `boost::url`; here it has a `QueryImpl` and the stored path.
- A Boost signal is the list of its slots in calling order, called one at a time as the combiner asks.
  A handler is a function of what the request says and of the response's state.
- Outcomes of stream operations are an arbitrary script. A run that has used up its script waits for
  a read (it has returned `None`), so finite scripts cover every prefix of endless runs.
- The clock of the cookie code is a parameter, and so is whether `boost::url` accepts its copy of a query.

Where the code and its surroundings disagree, the model follows the code:

- A query string of no characters parses to one empty key, so an empty map does not survive the trip
  to the server (`Query.RoundTrip`, `Target.EndToEnd`).
- `setEncodedQuery` replaces the string but only adds to the map. The comment at src/core/UrlQuery.cpp:36
  suggests the two agree; `Query.EncodedMatchesFields` says exactly when they do.
- `badRequest` fills a response that is never written, and the run then returns 0 without shutdown.
- `keep_alive` is copied into responses and never consulted (`ServerConnection.KeepAliveIgnored`).
- `Server::route` takes the handler from any option that holds one, whatever its name.
- The cookie printer writes `Priority=`, the map constructor knows `priority`; comments are not
  printed in the Netscape format. A cookie with either does not survive (`CookieFormat.NetscapeRoundTrip`).
- The RFC 2109 printer escapes nothing, so every print with a comment, domain, path, priority or
  max-age is also the print of a cookie with a longer value. A print is that of one cookie only when
  no such attribute is set and the value hides none (`Rfc2109.Rfc2109Identifies`).

## Model

| member | source | states |
|---|---|---|
| `Text.LessMeans` | src/core/UrlQuery.cpp:44 | key order is `std::string` order: after the longest common prefix the shorter string, or the one with the smaller byte, comes first |
| `Text.JoinConcat` | src/core/UrlQuery.cpp:49-52 | joining puts the delimiter once between any two groups of parts, nothing around them, and keeps their order |
| `PercentCodec.UriEncode` | src/core/Util.cpp:21-42 | appends the encoding of the whole input to the caller's string and returns 0 |
| `PercentCodec.UriDecode` | src/core/Util.cpp:44-87 | appends what was decoded up to the end or the first bad escape; 0 at the end, -1 at a bad escape |
| `PercentCodec.DecodeEncode` | src/core/Util.cpp:21-87 | every byte string survives encoding and decoding, under every reserved set |
| `PercentCodec.EncodeInjective` | src/core/Util.cpp:21-42 | different strings encode differently under one reserved set |
| `PercentCodec.EncodeMembers` | src/core/Util.cpp:25-39 | a byte that is no percent sign or hex digit is in the output iff it is in the input and needs no escape: delimiters never leak |
| `PercentCodec.EncodeConcat` | src/core/Util.cpp:23-40 | encoding distributes over concatenation |
| `PercentCodec.EncodeOne` | src/core/Util.cpp:25-39 | a byte that needs an escape becomes a percent sign and its two digits from `0123456789ABCDEF`, the high one first; any other byte stays |
| `PercentCodec.DecodeConcat` | src/core/Util.cpp:47-85 | decoding distributes over concatenation after any text that decodes |
| `PercentCodec.DecodesWellFormed` | src/core/Util.cpp:49-83 | decoding succeeds iff every percent sign in the text is followed by two hex digits |
| `PercentCodec.DecodeStopsAtFirstBad` | src/core/Util.cpp:50-82 | a failed decode has appended exactly the decoding of the text before the first bad percent sign |
| `PercentCodec.FirstBadExists` | src/core/Util.cpp:50-82 | a text that does not decode has such a first bad percent sign |
| `PercentCodec.EscapeDecodes` | src/core/Util.cpp:62-82 | a percent sign and two bytes decode to a byte iff the two are its digits, high one first, each taken from `0123456789ABCDEF` or `0123456789abcdef` |
| `PercentCodec.DecodeIgnoresCase` | src/core/Util.cpp:62-82 | changing the case of letters one or two places after a percent sign changes neither whether nor to what a text decodes |
| `PercentCodec.DecodeSpelling` | src/core/Util.cpp:62-84 | any sequence of plain bytes and two-digit escapes, either case, decodes to the bytes it spells, position by position |
| `PercentCodec.WellFormedIsSpelled` | src/core/Util.cpp:47-85 | every text without a bad percent sign is such a sequence |
| `PercentCodec.EncodeImage` | src/core/Util.cpp:21-42 | the outputs of the encoder are exactly the texts whose percent signs start uppercase escapes of bytes that need one and whose other bytes need none |
| `PercentCodec.EncodeDecode` | src/core/Util.cpp:21-87 | on those texts, encoding undoes decoding |
| `Query.QueryImpl.SetQuery` | src/core/UrlQuery.cpp:24-30 | the map becomes the argument and the string becomes its print |
| `Query.QueryImpl.SetEncodedQuery` | src/core/UrlQuery.cpp:35-40 | the string becomes the argument, and its parts join the map, present keys keeping their value |
| `Query.QueryImpl.FlattenQueryMap` | src/core/UrlQuery.cpp:41-56 | returns the encoded pairs of the map in key order, joined by `&` |
| `Query.QueryImpl.GenerateQueryMap` | src/core/UrlQuery.cpp:58-73 | adds the decoded parts in order; keys already present keep their value |
| `Query.QueryImpl.GetQuery` | src/core/UrlQuery.cpp:74-78 | returns what decoding the stored string yields, up to a bad escape |
| `Query.QueryImpl.GetQueryValue` | src/core/UrlQuery.cpp:80-86 | a value iff the key is in the map, and then the one the map holds |
| `Query.FlattenPeels` | src/core/UrlQuery.cpp:41-56 | a non-empty map prints as the encoded key, `=` and encoded value of its least key, then, if there are more, `&` and the print of the rest |
| `Query.EntriesInKeyOrder` | src/core/UrlQuery.cpp:44 | the pairs are printed in strictly ascending key order, which `Text.LessMeans` spells out |
| `Query.EntriesMembers` | src/core/UrlQuery.cpp:44-53 | the printed pairs are exactly the pairs of the map |
| `Query.PartCases` | src/core/UrlQuery.cpp:65-68 | a part is cut at its first `=`; a part without one is its own value |
| `Query.ParseJoined` | src/core/UrlQuery.cpp:62-71 | a string of parts joined by `&` parses to one pair for each part, in order, however empty or malformed a part is |
| `Query.IndexAgreesWithScan` | src/core/UrlQuery.cpp:24-40 | after any run of setter calls, looking up a key equals the first match in a scan of the last map set and the parts of every later string |
| `Query.ValueAfterRun` | src/core/UrlQuery.cpp:80-86 | the same for what an object answers after any run of setter calls on it |
| `Query.ParseDistributes` | src/core/UrlQuery.cpp:58-73 | setting `a` then `b` leaves the same map as setting `a&b`, on any object and for any strings |
| `Query.EncodedMatchesFields` | src/core/UrlQuery.cpp:35-40 | the stored string parses to the stored map iff it repeats everything the map held before |
| `Query.ParseFlatten` | src/core/UrlQuery.cpp:41-73 | parsing a non-empty map's print yields its pairs, in order |
| `Query.RoundTrip` | src/core/UrlQuery.cpp:41-73 | printing and parsing back is the identity iff the map is not empty; the empty map comes back with one empty key |
| `Query.FlattenInjective` | src/core/UrlQuery.cpp:41-56 | different maps, the empty one included, print differently |
| `Query.PrintImage` | src/core/UrlQuery.cpp:41-56 | a string is the print of some map iff it is empty or parsing and printing it gives it back |
| `Query.NormalForm` | src/core/UrlQuery.cpp:41-73 | for every byte string, parsing, printing and parsing again gives what parsing once gives |
| `Query.DecodedQueryShowsRawPairs` | src/core/UrlQuery.cpp:74-78 | after the map setter, decoding the whole string succeeds and shows the raw pairs in key order |
| `QueryText.QueryRuleByBytes` | src/core/Util.cpp:25-39 | a text matches the query rule of section 3.4 of RFC 3986 iff its escapes are complete and its other bytes are query bytes |
| `QueryText.QueryRuleFlatten` | src/core/UrlQuery.cpp:46-51 | a printed map matches that rule iff no key or value contains `#`, `[` or `]` |
| `QueryText.EscapedByRule` | src/core/Util.hpp:40 | the encoder escapes exactly the bytes that sections 2.2 and 2.3 of RFC 3986 make neither reserved nor unreserved, and the reserved ones it is told to escape |
| `QueryText.QueryBytesStay` | src/core/Util.cpp:25-39 | a text of bytes a query may hold, without `&` and `=`, is printed as it is |
| `QueryText.DotDotEncode` | src/core/Util.cpp:25-39 | encoding neither makes nor hides two dots in a row |
| `QueryText.DotDotFlatten` | src/core/UrlQuery.cpp:41-56 | a printed map contains two dots in a row iff a key or value does |
| `Target.UrlImpl.SetQuery` | src/core/Url.cpp:45-55 | sets the query and reports, without undoing it, a refused copy |
| `Target.UrlImpl.SetEncodedQuery` | src/core/Url.cpp:66-75 | passes the string on to the query |
| `Target.UrlImpl.GetQueryValue` | src/core/Url.cpp:78-80 | a value iff the key is in the map, and then the one the map holds |
| `Target.UrlImpl.Target` | src/core/Url.cpp:90-96 | the stored path, `?`, and the stored query string |
| `Target.RequestImpl.ParseRequest` | src/core/Request.cpp:51-82 | method, path and query are those of the message cut at its first `?`, host, referer and user agent those of its headers if present; -1 and no change without a message |
| `Target.RequestImpl.ParseTarget` | src/core/Request.cpp:57-65 | the path up to the first `?`, and what follows it given to the query; no query without a `?` |
| `Target.RequestImpl.ParseHeaders` | src/core/Request.cpp:66-79 | each of the three headers overwrites its field only if present |
| `Target.CutGlued` | src/core/Request.cpp:57-65 | the path of a glued target is recovered iff it contains no `?`, and then the query is what followed |
| `Target.WithoutQuery` | src/core/Request.cpp:63-65 | a target without `?` is all path and leaves the query untouched |
| `Target.EndToEnd` | src/core/Url.cpp:90-96 | the server recovers a client's path and map iff the path has no `?` and the map is not empty; every key then looks up as it did |
| `Target.SaysAllParsed` | src/core/UrlQuery.cpp:24-40 | after one setter call the stored string parses to the stored map iff the call set a non-empty map, or a string that repeats what the map held |
| `Target.RunToServer` | src/core/Url.cpp:45-96 | after any run of a client's setter calls, a server that gets the target (of a path without `?`) holds the client's map iff the last call was of that kind |
| `Target.TargetArrives` | src/core/Request.cpp:51-65 | between a client's URL object and a request object that parsed its target: the path arrives iff it has no `?`, and then the request holds the client's query string and what that parses to |
| `Target.ObjectEndToEnd` | src/core/Url.cpp:45-96 | after a map was set on the client's object, both ends hold the same path and answer alike for every key iff the path has no `?` and the map is not empty |
| `Target.ObjectRunToServer` | src/core/Url.cpp:45-96 | after any run of setter calls on the client's object, both ends answer alike for every key iff the last call set a non-empty map, or a string that repeats what the map held |
| `Target.TargetInjective` | src/core/Url.cpp:90-96 | among paths without `?`, a built target determines path and map |
| `Target.TargetIdentifies` | src/core/Url.cpp:90-96 | among all paths and maps, a built target determines its own iff what follows any other `?` in it is not the print of a map |
| `Target.DotDotTarget` | src/core/ServerConnection.cpp:75-76 | a built target contains two dots in a row iff the path, a raw key or a raw value does |
| `Signals.ResponseMessage.Fill` | src/core/ServerRoute.cpp:107-114 | status, version, content type, keep-alive, body, and the body's length |
| `Signals.ResponseImpl.End` | src/core/Response.cpp:31-35 | stores the body and marks the response ended |
| `Signals.ConnectStable` | src/core/ServerRoute.cpp:53 | connecting a slot keeps the list the stable sort of what was connected |
| `Signals.StableSortUnique` | src/core/ServerRoute.cpp:53 | ascending priority with registration order inside a priority fixes the list |
| `Signals.StableSortRearranges` | src/core/ServerRoute.cpp:53 | a list is the stable sort of what was connected iff it is a rearrangement of it in which a slot precedes another iff its priority is lower, or equal and it was connected earlier |
| `Signals.CallsFrom` | src/core/ServerUtil.hpp:84-91 | the number of handlers called is the least that leaves the response ended, or all of them |
| `Signals.RunsThrough` | src/core/ServerUtil.hpp:77-94 | if handlers run one after the other thread the response through some states, and only the last of those states is ended or the list is used up, then exactly they are called, and the result is the ended response's body or what the last of them returned |
| `Signals.RouteCombiner.Combine` | src/core/ServerUtil.hpp:77-94 | the loop calls that many handlers, returns that result, and leaves the response as those calls leave it |
| `Router.RouteImpl.Add` | src/core/ServerRoute.cpp:41-55 | a slot joins the signal of its path, new or existing |
| `Router.RouteImpl.GetAdd` | src/core/ServerRoute.cpp:20-26 | one more registration for GET; the tables still hold exactly the registrations |
| `Router.RouteImpl.PostAdd` | src/core/ServerRoute.cpp:27-33 | the same for POST |
| `Router.RouteImpl.AllAdd` | src/core/ServerRoute.cpp:34-40 | the same for every method |
| `Router.RouteImpl.DoSignal` | src/core/ServerRoute.cpp:65-116 | -1 and nothing changed iff none of the four lookups hits; otherwise runs the hit and fills a 200 page with the result |
| `Router.RouteImpl.DoGetSignal` | src/core/ServerRoute.cpp:57-63 | on a router in any reachable state: -1 iff nothing was registered under any of the four keys, otherwise a 200 page with the result of running the stable sort of the chosen registrations, at least one handler |
| `Router.HitIsChosen` | src/core/ServerRoute.cpp:69-87 | after any registrations the four lookups hit iff something was registered under one of the keys, and then the stable sort of the first such list |
| `Router.ChosenIsFirst` | src/core/ServerRoute.cpp:69-87 | the keys are tried in the order GET path, GET `*`, all path, all `*`; the first under which anything was registered is chosen |
| `Router.TableHoldsStableSorts` | src/core/ServerRoute.cpp:41-55 | after any registrations a path is stored iff registered, with the stable sort of its registrations |
| `Router.DispatchRuns` | src/core/ServerRoute.cpp:69-103 | after any registrations a GET runs the stable sort of the first non-empty list among GET path, GET `*`, all path, all `*`, at least one handler, and fails iff all four are empty |
| `Router.GetIgnores` | src/core/ServerRoute.cpp:69-87 | dropping POST registrations never changes a GET; dropping catch-all ones does not once a GET entry matches |
| `Router.ReadOption` | src/core/Server.cpp:171-188 | which option may overwrite which local |
| `Router.ReadOptions` | src/core/Server.cpp:166-188 | method, path and priority from options of the right name and type, else GET, `*` and 10; the handler at the greatest key that holds one |
| `Router.ServerImpl.Route` | src/core/Server.cpp:164-198 | for method `GET`, `POST` or `*` the GET, POST or catch-all table gains one slot, at the end of the list of its path, and no other list changes; for any other method nothing changes |
| `Router.RouteReaches` | src/core/Server.cpp:189-195 | after that a GET for the path is answered if the method was `GET` or `*`; for any other method every GET finds what it found before |
| `ServerConnection.RejectedMeans` | src/core/ServerConnection.cpp:70-78 | a request is rejected iff its method is neither GET nor HEAD, its path is empty or does not start with a slash, or its path or its query contains two dots in a row |
| `ServerConnection.Connection.Run` | src/core/ServerConnection.cpp:26-117 | after any registrations, the operations performed and the value returned are those of `RunOf` for the registered routes and the outcomes met |
| `ServerConnection.Connection.ServeOne` | src/core/ServerConnection.cpp:44-103 | one iteration: read, check, dispatch, write; with or without a query |
| `ServerConnection.Connection.Dispatch` | src/core/ServerConnection.cpp:81-90 | after any registrations, the response becomes the answer to the request: the dispatch's page, or the 404 page |
| `ServerConnection.Connection.BadRequest` | src/core/ServerConnection.cpp:119-130 | fills a 400 page, which is not written, and returns 0 |
| `ServerConnection.Connection.NotFound` | src/core/ServerConnection.cpp:132-146 | fills a 404 page naming the path |
| `ServerConnection.RunsAreExactlyLegal` | src/core/ServerConnection.cpp:34-117 | over all outcomes, the operation sequences of runs are exactly those of the protocol given by `Follows` and `Rests` |
| `ServerConnection.RunIsLegal` | src/core/ServerConnection.cpp:34-117 | and the value returned is determined by the last operation |
| `ServerConnection.RunMeetsScript` | src/core/ServerConnection.cpp:34-117 | handshake, reads, writes and shutdown meet the outcomes of the script in order, and a run waits for a read only when all are used up |
| `ServerConnection.AnswersInOrder` | src/core/ServerConnection.cpp:44-103 | in any sequence of operations the protocol allows after a handshake, the i-th attempted write is the answer to the i-th request read, and only a request just read is outstanding |
| `ServerConnection.EveryMoment` | src/core/ServerConnection.cpp:44-103 | the same at every moment of every run |
| `ServerConnection.KeepAliveIgnored` | src/core/ServerConnection.cpp:44-103 | clearing `keep_alive` in every request changes that field of the pages and nothing else: the same operations, the same return value |
| `ServerConnection.FinalIsLast` | src/core/ServerConnection.cpp:57-99 | nothing follows a rejected request, a failed operation or shutdown |
| `ServerConnection.ShutdownWhenServed` | src/core/ServerConnection.cpp:57-60 | shutdown is reached only after the end of the stream, with every request answered |
| `ServerConnection.UnansweredIsRejected` | src/core/ServerConnection.cpp:57-117 | at most one request is never answered, then it was rejected; a run returns 0 iff it ended so or with a clean shutdown, nothing iff it waits after a handshake or a write, and otherwise -1; it never stops at the end of the stream |
| `ServerConnection.AnswerOfRegistrations` | src/core/ServerRoute.cpp:104-115 | an answer is 200 with the dispatch's result if a route was registered, else 404 with the text that names the path; its content length is the body's, its version and keep-alive are the request's |
| `ServerConnection.PageTexts` | src/core/ServerConnection.cpp:119-146 | the texts of the pages |
| `ServerConnection.ClientRejected` | src/core/ServerConnection.cpp:70-78 | a client-built request is rejected iff its method is unknown or its path, a raw key or a raw value is at fault |
| `ServerConnection.ClientToHandler` | src/core/ServerConnection.cpp:81-90 | for a path without `?`, the handlers that answer a client-built request see the client's path and map; for the empty map they see one empty key |
| `Cookie.CookieImpl.FromMap` | src/core/RequestCookie.cpp:31-74 | throws iff `max-age` or `version` is no number; otherwise each field is that of its key, the name the greatest other key, and `max-age` overrides `expires` |
| `Cookie.ThrowsMeans` | src/core/RequestCookie.cpp:45-66 | a map makes the constructor throw iff its `max-age` or its `version` is no `int` |
| `Cookie.ReadsTexts` | src/core/RequestCookie.cpp:37-44 | the keys `comment`, `domain`, `path` and `priority` give the fields of these names, empty if missing |
| `Cookie.ReadsNumbers` | src/core/RequestCookie.cpp:45-66 | `max-age`, else `expires` by the clock, else -1; `version`, else 0 |
| `Cookie.ReadsFlags` | src/core/RequestCookie.cpp:47-68 | `secure` and `HttpOnly` by presence; `SameSite` by the words `None`, `Lax` and `Strict`, any other left unspecified |
| `Cookie.Words` | src/core/RequestCookie.cpp:37-67 | the ten keys that are attributes; any other key is the name |
| `Cookie.CookieImpl.SetAttribute` | src/core/RequestCookie.cpp:37-72 | what one pair of the map does to the fields |
| `Cookie.ReadsStep` | src/core/RequestCookie.cpp:34-73 | the pairs, taken in key order, add up to that reading of the whole map |
| `Cookie.StoiDecimal` | src/core/RequestCookie.cpp:206 | every `int` survives `to_string` and `stoi` |
| `Cookie.DecimalNat` | src/core/RequestCookie.cpp:206 | digits only, without a leading zero except for zero itself |
| `Cookie.NatValueConcat` | src/core/RequestCookie.cpp:46 | decimal place value: a digit counts for itself, and every digit after it for a factor of ten |
| `Cookie.StoiReads` | src/core/RequestCookie.cpp:46 | `stoi` succeeds iff the text is white space, an optional sign, digits and something else, with a number that is an `int`, and then returns that number |
| `Cookie.CookieImpl.ToString` | src/core/RequestCookie.cpp:130-231 | prints the format the version selects |
| `Cookie.NetscapeSpelled` | src/core/RequestCookie.cpp:132-177 | the Netscape format, text by text |
| `Cookie.Rfc2109Spelled` | src/core/RequestCookie.cpp:178-228 | the RFC 2109 format, text by text |
| `Cookie.CookieImpl.AppendNetscape` | src/core/RequestCookie.cpp:136-177 | the attributes of the Netscape format |
| `Cookie.CookieImpl.AppendRfc2109` | src/core/RequestCookie.cpp:178-228 | the attributes of the RFC 2109 format |
| `CookieFormat.ReadBack` | src/core/RequestCookie.cpp:134-177 | the map read off a printed Netscape cookie without delimiters in its fields, key by key |
| `CookieFormat.NetscapeRoundTrip` | src/core/RequestCookie.cpp:31-177 | a Netscape cookie is rebuilt from its print iff no delimiter is in its fields, its name is no attribute word, it has no comment or priority, and the clock reads the printed date as its max-age |
| `CookieFormat.ReadsUnique` | src/core/RequestCookie.cpp:31-74 | a map is read as one cookie at most |
| `Rfc2109.Rfc2109Unambiguous` | src/core/RequestCookie.cpp:178-229 | without `=` in names and quotes in fields, two RFC 2109 prints are equal iff the cookies agree in everything but the version number |
| `Rfc2109.Rfc2109Identifies` | src/core/RequestCookie.cpp:178-229 | among all cookies with no `=` in the name, a print is that of one cookie only iff the cookie has no comment, domain, path, priority or max-age, and no quote in its value is followed by a printed attribute: a comment, domain, path or priority tag and at least one byte, or a max-age tag and a number that ends the value |
| `Rfc2109.AbsorbedTwin` | src/core/RequestCookie.cpp:180-208 | a cookie with a quoted attribute prints like the cookie whose value goes on with that attribute |
| `Rfc2109.QuoteConfuses` | src/core/RequestCookie.cpp:180-187 | a comment and the same bytes at the end of a value print alike, whichever cookie is the one with the quote |

## Left out

- Boost itself: signals, `boost::url` validation and storage other than the path, Beast parsing, TLS; thrown exceptions of `boost::url` only as the flag of `Target.UrlImpl.SetQuery`.
- Signals.ResponseMessage.Fill: does not model the `server` header, a fixed text of Boost.Beast, nor any step of `prepare_payload` but the content length of a body of known size.
- The five-second sleep of `notFound`, and what the user agent parser makes of the stored user agent.
- Handlers with state of their own between calls, handlers that throw, and handlers that reach into the Beast messages: a handler is a function of request and response state.
- Concurrent registration and dispatch: a dispatch is one step, and the tables do not change during a run.
- Cookie `expires`: its date text and the distance the clock reads from it are parameters; the date text is taken to hold no `;`.
- The splitting of a printed cookie into attributes is not in the source, which never parses one; `CookieFormat.Attributes` cuts at `;`, drops one space after it, and cuts at the first `=`.
- Int32 limits on handler priorities: they are only compared.
- The stubs: the JSON overload of `setQuery`, the string constructor of `QueryImpl`, cookie `escape` and `unescape`, cookie maps, `setCookie`, `getCookie`, `parseResponse`.
- `serverError`, which nothing calls, and the constructors of `UrlImpl` and `ClientImpl` from options.
- Certificates, client networking, listener, settings, module loading, templates, user agents, JSON printing, MIME types, logging.
