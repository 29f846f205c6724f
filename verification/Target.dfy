/**
  Both ends of a request target: the client's `UrlImpl` glues path and query together with `?`,
  and the server's `RequestImpl` cuts what it receives at the first `?`.
 */
module Target {
  import opened Text
  import opened Query
  import opened QueryText

  function TargetOf(path: Str, encoded: Str): Str {
    path + [QUESTION] + encoded
  }

  /** `UrlImpl` is a `QueryImpl` and a `boost::url`; of the latter only the stored path and host are modelled. */
  class UrlImpl {
    const query: QueryImpl
    var encodedPath: Str
    var host: Str

    constructor ()
      ensures fresh(query)
      ensures encodedPath == [] && host == [] && query.View() == State(map[], [])
    {
      query := new QueryImpl();
      encodedPath, host := [], [];
    }

    method SetHost(name: Str)
      modifies this`host
      ensures host == name
    {
      host := name;
    }

    method SetEncodedPath(path: Str)
      modifies this`encodedPath
      ensures encodedPath == path
    {
      encodedPath := path;
    }

    /**
      The fields and their print are in place before `boost::url` is offered a copy of the print,
      so its refusal is reported but undoes nothing.
     */
    method SetQuery(fields: Fields, copyAccepted: bool) returns (rc: int)
      modifies query
      ensures rc == if copyAccepted then 0 else -1
      ensures query.View() == Step(old(query.View()), SetMap(fields))
    {
      rc := query.SetQuery(fields);
      if !copyAccepted {
        return -1;
      }
    }

    method SetEncodedQuery(q: Str) returns (rc: int)
      modifies query
      ensures rc == 0
      ensures query.View() == Step(old(query.View()), SetEncoded(q))
    {
      rc := query.SetEncodedQuery(q);
    }

    function GetEncodedQuery(): (q: Str)
      reads query
      ensures q == query.queryEncodedStr
    {
      query.GetEncodedQuery()
    }

    function GetQueryValue(key: Str): (value: Option<Str>)
      reads query
      ensures value.Some? <==> key in query.queryMap
      ensures value.Some? ==> value.value == query.queryMap[key]
    {
      query.GetQueryValue(key)
    }

    function Target(): (target: Str)
      reads this, query
      ensures target == encodedPath + [QUESTION] + query.queryEncodedStr
    {
      TargetOf(encodedPath, GetEncodedQuery())
    }
  }

  /** The parts of a Beast request message the server looks at; a header is `None` if it is missing. */
  datatype Message = Message(
    verb: Str, target: Str, version: nat, keepAlive: bool,
    host: Option<Str>, referer: Option<Str>, userAgent: Option<Str>)

  /** What a request object has to say once it is parsed. */
  datatype RequestView = RequestView(verb: Str, path: Str, query: State, host: Str, referer: Str, userAgent: Str)

  function HeaderOr(header: Option<Str>, otherwise: Str): Str {
    match header
    case None => otherwise
    case Some(value) => value
  }

  /** Parsing a message into a request that already said `before`. */
  function Parsed(before: RequestView, message: Message): RequestView {
    var pos := Find(message.target, QUESTION);
    RequestView(
      message.verb,
      message.target[..pos],
      if pos == |message.target| then before.query else Step(before.query, SetEncoded(message.target[pos + 1..])),
      HeaderOr(message.host, before.host),
      HeaderOr(message.referer, before.referer),
      HeaderOr(message.userAgent, before.userAgent))
  }

  const FRESH_REQUEST := RequestView([], [], State(map[], []), [], [], [])

  /** What the request built for one message says. */
  function ViewOf(message: Message): RequestView {
    Parsed(FRESH_REQUEST, message)
  }

  /** A request with the method and headers of `message`, for a path and a query. */
  function SeenAs(message: Message, path: Str, query: State): RequestView {
    RequestView(
      message.verb, path, query,
      HeaderOr(message.host, []), HeaderOr(message.referer, []), HeaderOr(message.userAgent, []))
  }

  class RequestImpl {
    const urlPtr: UrlImpl
    var requestBeast: Option<Message>
    var methodStr: Str
    var refererStr: Str
    var userAgentStr: Str

    function View(): RequestView
      reads this, urlPtr, urlPtr.query
    {
      RequestView(methodStr, urlPtr.encodedPath, urlPtr.query.View(), urlPtr.host, refererStr, userAgentStr)
    }

    constructor ()
      ensures fresh(urlPtr) && fresh(urlPtr.query)
      ensures requestBeast.None? && View() == FRESH_REQUEST == RequestView([], [], State(map[], []), [], [], [])
    {
      urlPtr := new UrlImpl();
      requestBeast := None;
      methodStr, refererStr, userAgentStr := [], [], [];
    }

    method SetRequest(message: Option<Message>) returns (rc: int)
      modifies this`requestBeast
      ensures rc == 0 && requestBeast == message
    {
      requestBeast := message;
      rc := 0;
    }

    /** The three header look-ups at the end of `parseRequest`. */
    method ParseHeaders(message: Message)
      modifies this`userAgentStr, this`refererStr, urlPtr`host
      ensures userAgentStr == if message.userAgent.Some? then message.userAgent.value else old(userAgentStr)
      ensures refererStr == if message.referer.Some? then message.referer.value else old(refererStr)
      ensures urlPtr.host == if message.host.Some? then message.host.value else old(urlPtr.host)
    {
      if message.userAgent.Some? {
        userAgentStr := message.userAgent.value;
      }
      if message.referer.Some? {
        refererStr := message.referer.value;
      }
      if message.host.Some? {
        urlPtr.SetHost(message.host.value);
      }
    }

    /** The cut of the target at its first `?`. */
    method ParseTarget(target: Str)
      modifies urlPtr`encodedPath, urlPtr.query
      ensures urlPtr.encodedPath == target[..Find(target, QUESTION)]
      ensures QUESTION !in urlPtr.encodedPath
      ensures Find(target, QUESTION) == |target| ==> unchanged(urlPtr.query)
      ensures Find(target, QUESTION) < |target| ==>
                urlPtr.query.View() ==
                  Step(old(urlPtr.query.View()), SetEncoded(target[Find(target, QUESTION) + 1..]))
    {
      var pos := Find(target, QUESTION);
      if pos != |target| {
        urlPtr.SetEncodedPath(target[..pos]);
        var _ := urlPtr.SetEncodedQuery(target[pos + 1..]);
      } else {
        assert target[..pos] == target;
        urlPtr.SetEncodedPath(target);
      }
    }

    method ParseRequest() returns (rc: int)
      modifies this, urlPtr, urlPtr.query
      ensures requestBeast == old(requestBeast)
      ensures requestBeast.None? ==> rc == -1 && View() == old(View())
      ensures requestBeast.Some? ==> rc == 0 && View() == Parsed(old(View()), requestBeast.value)
      ensures requestBeast.Some? ==> methodStr == requestBeast.value.verb && QUESTION !in urlPtr.encodedPath
    {
      if requestBeast.None? {
        return -1;
      }
      var message := requestBeast.value;
      methodStr := message.verb;
      ParseTarget(message.target);
      ParseHeaders(message);
      rc := SetRequest(requestBeast);
    }
  }

  // ---------------------------------------------------------------- from one end to the other

  lemma CutGlued(message: Message, path: Str, encoded: Str)
    requires message.target == TargetOf(path, encoded)
    ensures ViewOf(message).path == path <==> QUESTION !in path
    ensures QUESTION !in path ==>
              ViewOf(message).query == State(ParseFresh(encoded), encoded)
  {
    var t := message.target;
    if QUESTION in path {
      var i :| 0 <= i < |path| && path[i] == QUESTION;
      assert t[i] == QUESTION;
      FindAtMost(t, QUESTION, i);
    } else {
      FindFirst(path, QUESTION, encoded);
      assert t[..|path|] == path && t[|path| + 1..] == encoded;
    }
  }

  lemma WithoutQuery(message: Message)
    requires QUESTION !in message.target
    ensures ViewOf(message) == SeenAs(message, message.target, State(map[], []))
  {
  }

  /**
    A path and a map set on a client's URL reach the server unchanged exactly when the path holds
    no `?` and the map is not empty.
   */
  lemma EndToEnd(message: Message, path: Str, fields: Fields)
    requires message.target == TargetOf(path, Flatten(fields))
    ensures (ViewOf(message).path == path && ViewOf(message).query.fields == fields) <==>
            QUESTION !in path && fields != map[]
    ensures QUESTION !in path && fields != map[] ==>
              ViewOf(message) == SeenAs(message, path, State(fields, Flatten(fields))) &&
              forall key :: Lookup(ViewOf(message).query.fields, key) == Lookup(fields, key)
    ensures QUESTION !in path && fields == map[] ==>
              ViewOf(message) == SeenAs(message, path, State(map[[] := []], []))
  {
    CutGlued(message, path, Flatten(fields));
    RoundTrip(fields);
    ParseEmpty();
  }

  /** A setter call whose string says everything the map holds after it. */
  ghost predicate SaysAll(before: Fields, op: Op) {
    match op
    case SetMap(m) => m != map[]
    case SetEncoded(q) => forall key :: key in before ==> FirstMatch(Parse(q), key) == Some(before[key])
  }

  lemma SaysAllParsed(before: State, op: Op)
    ensures ParseFresh(Step(before, op).encoded) == Step(before, op).fields <==> SaysAll(before.fields, op)
  {
    match op
    case SetMap(m) => RoundTrip(m);
    case SetEncoded(q) => EncodedMatchesFields(before, q);
  }

  /**
    Over any run of a client's query setters: the server's map is the client's iff the last call set
    a map that is not empty, or a string that repeats everything the map held before.
   */
  lemma RunToServer(message: Message, path: Str, ops: seq<Op>)
    requires message.target == TargetOf(path, After(ops).encoded) && QUESTION !in path
    ensures ViewOf(message).query.fields == After(ops).fields <==>
            ops != [] && SaysAll(After(ops[..|ops| - 1]).fields, ops[|ops| - 1])
  {
    CutGlued(message, path, After(ops).encoded);
    if ops == [] {
      ParseEmpty();
      RoundTrip(map[]);
    } else {
      SaysAllParsed(After(ops[..|ops| - 1]), ops[|ops| - 1]);
    }
  }

  // ---------------------------------------------------------------- the same between two objects

  /** A fresh request that has parsed a message whose target a client's URL object built. */
  ghost predicate Parses(request: RequestImpl, message: Message, url: UrlImpl)
    reads request, request.urlPtr, request.urlPtr.query, url, url.query
  {
    message.target == url.Target() && request.View() == ViewOf(message)
  }

  /** The server holds the client's path, if it has no `?`, and what the client's stored string parses to. */
  lemma TargetArrives(request: RequestImpl, message: Message, url: UrlImpl)
    requires Parses(request, message, url)
    ensures request.urlPtr.encodedPath == url.encodedPath <==> QUESTION !in url.encodedPath
    ensures QUESTION !in url.encodedPath ==>
              var q := url.query.queryEncodedStr;
              request.urlPtr.query.queryEncodedStr == q && request.urlPtr.query.queryMap == ParseFresh(q)
  {
    assert request.View().query == request.urlPtr.query.View();
    CutGlued(message, url.encodedPath, url.query.queryEncodedStr);
  }

  /** `EndToEnd` for a URL object that a map was set on: both ends then answer alike for every key. */
  lemma ObjectEndToEnd(request: RequestImpl, message: Message, url: UrlImpl, before: State, fields: Fields)
    requires Parses(request, message, url) && url.query.View() == Step(before, SetMap(fields))
    ensures (&& request.urlPtr.encodedPath == url.encodedPath
             && forall key :: request.urlPtr.GetQueryValue(key) == url.GetQueryValue(key)) <==>
            QUESTION !in url.encodedPath && fields != map[]
    ensures forall key :: url.GetQueryValue(key) == if key in fields then Some(fields[key]) else None
  {
    TargetArrives(request, message, url);
    RoundTrip(fields);
    SameAnswers(request.urlPtr, url);
  }

  lemma SameAnswers(a: UrlImpl, b: UrlImpl)
    ensures (forall key :: a.GetQueryValue(key) == b.GetQueryValue(key)) <==> a.query.queryMap == b.query.queryMap
  {
    if forall key :: a.GetQueryValue(key) == b.GetQueryValue(key) {
      forall key ensures Lookup(a.query.queryMap, key) == Lookup(b.query.queryMap, key) {
        assert a.GetQueryValue(key) == b.GetQueryValue(key);
      }
      SameLookups(a.query.queryMap, b.query.queryMap);
    }
  }

  /** `RunToServer` for a URL object after any run of setter calls on its query. */
  lemma ObjectRunToServer(request: RequestImpl, message: Message, url: UrlImpl, ops: seq<Op>)
    requires Parses(request, message, url) && url.query.View() == After(ops) && QUESTION !in url.encodedPath
    ensures (forall key :: request.urlPtr.GetQueryValue(key) == url.GetQueryValue(key)) <==>
            ops != [] && SaysAll(After(ops[..|ops| - 1]).fields, ops[|ops| - 1])
  {
    assert request.View().query == request.urlPtr.query.View();
    RunToServer(message, url.encodedPath, ops);
    SameAnswers(request.urlPtr, url);
  }

  /** What a server reads off a built target determines the path and the map it was built from. */
  lemma TargetInjective(path: Str, fields: Fields, path': Str, fields': Fields)
    requires QUESTION !in path && QUESTION !in path'
    requires TargetOf(path, Flatten(fields)) == TargetOf(path', Flatten(fields'))
    ensures path == path' && fields == fields'
  {
    var t := TargetOf(path, Flatten(fields));
    FindFirst(path, QUESTION, Flatten(fields));
    FindFirst(path', QUESTION, Flatten(fields'));
    assert t[..|path|] == path && t[..|path'|] == path';
    assert t[|path| + 1..] == Flatten(fields) && t[|path'| + 1..] == Flatten(fields');
    FlattenInjective(fields, fields');
  }

  /** Cut at another `?` than the one the builder put in, no part of the target is a printed map. */
  predicate CutsOnce(path: Str, encoded: Str) {
    var t := TargetOf(path, encoded);
    forall i :: 0 <= i < |t| && t[i] == QUESTION && i != |path| ==> !IsPrint(t[i + 1..])
  }

  lemma TargetParts(path: Str, encoded: Str)
    ensures |TargetOf(path, encoded)| == |path| + 1 + |encoded|
    ensures TargetOf(path, encoded)[..|path|] == path && TargetOf(path, encoded)[|path| + 1..] == encoded
    ensures TargetOf(path, encoded)[|path|] == QUESTION
  {
  }

  lemma NoOtherCut(path: Str, fields: Fields, path': Str, fields': Fields)
    requires CutsOnce(path, Flatten(fields))
    requires TargetOf(path', Flatten(fields')) == TargetOf(path, Flatten(fields))
    ensures path' == path && fields' == fields
  {
    var q, q' := Flatten(fields), Flatten(fields');
    TargetParts(path, q);
    TargetParts(path', q');
    PrintImage(q');
    assert |path'| == |path|;
    FlattenInjective(fields, fields');
  }

  lemma CutAt(t: Str, i: nat)
    requires i < |t| && t[i] == QUESTION
    ensures TargetOf(t[..i], t[i + 1..]) == t
  {
  }

  lemma OtherCut(path: Str, encoded: Str) returns (path': Str, fields': Fields)
    requires !CutsOnce(path, encoded)
    ensures TargetOf(path', Flatten(fields')) == TargetOf(path, encoded) && path' != path
  {
    var t := TargetOf(path, encoded);
    var i :| 0 <= i < |t| && t[i] == QUESTION && i != |path| && IsPrint(t[i + 1..]);
    CutAt(t, i);
    path' := t[..i];
    fields' := MapPrinting(t[i + 1..]);
  }

  /** When a built target determines the path and the map it was built from, among all paths and maps. */
  lemma TargetIdentifies(path: Str, fields: Fields)
    ensures CutsOnce(path, Flatten(fields)) <==>
            forall path', fields' :: TargetOf(path', Flatten(fields')) == TargetOf(path, Flatten(fields)) ==>
              path' == path && fields' == fields
  {
    if CutsOnce(path, Flatten(fields)) {
      forall path', fields' | TargetOf(path', Flatten(fields')) == TargetOf(path, Flatten(fields))
        ensures path' == path && fields' == fields
      {
        NoOtherCut(path, fields, path', fields');
      }
    } else {
      var path', fields' := OtherCut(path, Flatten(fields));
    }
  }

  /** The check for two dots on the target is a check on the path and on the raw keys and values. */
  lemma DotDotTarget(path: Str, fields: Fields)
    ensures HasDotDot(TargetOf(path, Flatten(fields))) <==>
            HasDotDot(path) || exists t :: t in Texts(fields) && HasDotDot(t)
  {
    DotDotSeparated(path, QUESTION, Flatten(fields));
    DotDotFlatten(fields);
  }
}
