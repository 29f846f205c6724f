/**
  The router: three tables from path to a signal, the dispatch that picks a signal and runs it,
  and the server call that fills the tables.
 */
module Router {
  import opened Text
  import opened Target
  import opened Signals

  // ---------------------------------------------------------------- the tables

  type Table = map<Str, Signal>

  datatype TableName = GetTable | PostTable | AllTable

  datatype Registration = Registration(table: TableName, path: Str, slot: Slot)

  datatype Tables = Tables(get: Table, post: Table, all: Table)

  function AddTo(table: Table, path: Str, slot: Slot): Table {
    table[path := Connect(if path in table then table[path] else [], slot)]
  }

  /** The table that a run of registrations leaves. */
  ghost function TableOf(regs: seq<Registration>, name: TableName): Table {
    if regs == [] then
      map[]
    else
      var before, last := TableOf(regs[..|regs| - 1], name), regs[|regs| - 1];
      if last.table == name then AddTo(before, last.path, last.slot) else before
  }

  ghost function TablesOf(regs: seq<Registration>): Tables {
    Tables(TableOf(regs, GetTable), TableOf(regs, PostTable), TableOf(regs, AllTable))
  }

  /** The signal that answers for `path`: the method's table before the catch-all one, the path before `*`. */
  function FirstHit(routeMap: Table, routeAllMap: Table, path: Str): Option<Signal> {
    if path in routeMap then Some(routeMap[path])
    else if [STAR] in routeMap then Some(routeMap[[STAR]])
    else if path in routeAllMap then Some(routeAllMap[path])
    else if [STAR] in routeAllMap then Some(routeAllMap[[STAR]])
    else None
  }

  /** The body a GET dispatch produces on a fresh response, if a route matches. */
  function Outcome(tables: Tables, path: Str, request: RequestView): Option<Str> {
    match FirstHit(tables.get, tables.all, path)
    case None => None
    case Some(signal) => Some(Combined(signal, request, FRESH_RESPONSE))
  }

  class RouteImpl {
    var routePostMap: Table
    var routeGetMap: Table
    var routeAllMap: Table
    ghost var registrations: seq<Registration>

    function View(): Tables
      reads this
    {
      Tables(routeGetMap, routePostMap, routeAllMap)
    }

    /** The tables hold what was registered, and nothing else. */
    ghost predicate Valid()
      reads this
    {
      View() == TablesOf(registrations)
    }

    constructor ()
      ensures Valid() && registrations == []
    {
      routePostMap, routeGetMap, routeAllMap := map[], map[], map[];
      registrations := [];
    }

    ghost method Register(last: Registration)
      modifies this`registrations
      ensures registrations == old(registrations) + [last]
      ensures forall name :: TableOf(registrations, name) ==
                if last.table == name then AddTo(TableOf(old(registrations), name), last.path, last.slot)
                else TableOf(old(registrations), name)
    {
      registrations := registrations + [last];
      forall name {
        TableOfMore(old(registrations), last, name);
      }
    }

    method GetAdd(path: Str, priority: int, routeFunction: Handler) returns (rc: int)
      requires Valid()
      modifies this
      ensures Valid() && rc == 0
      ensures registrations == old(registrations) + [Registration(GetTable, path, Slot(priority, routeFunction))]
    {
      rc, routeGetMap := Add(path, priority, routeFunction, routeGetMap);
      Register(Registration(GetTable, path, Slot(priority, routeFunction)));
    }

    method PostAdd(path: Str, priority: int, routeFunction: Handler) returns (rc: int)
      requires Valid()
      modifies this
      ensures Valid() && rc == 0
      ensures registrations == old(registrations) + [Registration(PostTable, path, Slot(priority, routeFunction))]
    {
      rc, routePostMap := Add(path, priority, routeFunction, routePostMap);
      Register(Registration(PostTable, path, Slot(priority, routeFunction)));
    }

    method AllAdd(path: Str, priority: int, routeFunction: Handler) returns (rc: int)
      requires Valid()
      modifies this
      ensures Valid() && rc == 0
      ensures registrations == old(registrations) + [Registration(AllTable, path, Slot(priority, routeFunction))]
    {
      rc, routeAllMap := Add(path, priority, routeFunction, routeAllMap);
      Register(Registration(AllTable, path, Slot(priority, routeFunction)));
    }

    /** The table is an argument by reference in the source; here its next value is returned. */
    method Add(path: Str, priority: int, routeFunction: Handler, routeMap: Table) returns (rc: int, updated: Table)
      ensures rc == 0 && updated == AddTo(routeMap, path, Slot(priority, routeFunction))
    {
      updated := routeMap;
      var pathSignal: Signal := [];
      if path in routeMap {
        pathSignal := routeMap[path];
      }
      updated := updated[path := Connect(pathSignal, Slot(priority, routeFunction))];
      rc := 0;
    }

    /** On a router in any reachable state, in terms of what was registered. */
    method DoGetSignal(path: Str, req: RequestImpl, res: ResponseImpl) returns (rc: int, ghost calls: nat)
      requires Valid()
      requires Chosen(registrations, path) != [] ==> req.requestBeast.Some? && res.resBeast != null
      modifies res`bodyStr, res`writableEndedFlag, res.resBeast
      ensures Valid()
      ensures rc == if Chosen(registrations, path) != [] then 0 else -1
      ensures rc == -1 ==> calls == 0 && unchanged(res) && (res.resBeast != null ==> unchanged(res.resBeast))
      ensures rc == 0 ==>
                forall signal :: StableSort(signal, Chosen(registrations, path)) ==>
                  && calls == CallCount(signal, req.View(), old(res.View())) >= 1
                  && res.View() == StateAfter(signal, req.View(), old(res.View()), calls)
                  && res.resBeast != null
                  && res.resBeast.page ==
                       PageFor(200, req.requestBeast.value, Combined(signal, req.View(), old(res.View())))
    {
      HitIsChosen(registrations, path);
      rc, calls := DoSignal(path, req, res, routeGetMap);
      if rc == 0 {
        ghost var hit := FirstHit(routeGetMap, routeAllMap, path).value;
        forall signal | StableSort(signal, Chosen(registrations, path)) ensures signal == hit && signal != [] {
          StableSortUnique(signal, hit, Chosen(registrations, path));
          StableSortNonempty(signal, Chosen(registrations, path));
        }
      }
    }

    method DoSignal(path: Str, reqImpl: RequestImpl, resImpl: ResponseImpl, routeMap: Table)
      returns (rc: int, ghost calls: nat)
      requires FirstHit(routeMap, routeAllMap, path).Some? ==> reqImpl.requestBeast.Some? && resImpl.resBeast != null
      modifies resImpl`bodyStr, resImpl`writableEndedFlag, resImpl.resBeast
      ensures rc == if FirstHit(routeMap, routeAllMap, path).Some? then 0 else -1
      ensures rc == -1 ==>
                calls == 0 && unchanged(resImpl) && (resImpl.resBeast != null ==> unchanged(resImpl.resBeast))
      ensures rc == 0 ==>
                var signal := FirstHit(routeMap, routeAllMap, path).value;
                && calls == CallCount(signal, reqImpl.View(), old(resImpl.View()))
                && resImpl.View() == StateAfter(signal, reqImpl.View(), old(resImpl.View()), calls)
                && resImpl.resBeast != null
                && resImpl.resBeast.page ==
                     PageFor(200, reqImpl.requestBeast.value, Combined(signal, reqImpl.View(), old(resImpl.View())))
    {
      calls := 0;
      var pathSignal: Signal;
      if path in routeMap {
        pathSignal := routeMap[path];
      } else if [STAR] in routeMap {
        pathSignal := routeMap[[STAR]];
      } else if path in routeAllMap {
        pathSignal := routeAllMap[path];
      } else if [STAR] in routeAllMap {
        pathSignal := routeAllMap[[STAR]];
      } else {
        return -1, 0;
      }
      var routeCombiner := new RouteCombiner();
      var _ := routeCombiner.SetRequest(reqImpl);
      var _ := routeCombiner.SetResponse(resImpl);
      var bodyStr: Str;
      bodyStr, calls := routeCombiner.Combine(pathSignal);
      resImpl.resBeast.Fill(200, reqImpl.requestBeast.value, bodyStr);
      rc := 0;
    }
  }

  // ---------------------------------------------------------------- runs of registrations

  /** The slots registered for a table and a path, in registration order. */
  ghost function Registered(regs: seq<Registration>, name: TableName, path: Str): seq<Slot> {
    if regs == [] then
      []
    else
      var before, last := Registered(regs[..|regs| - 1], name, path), regs[|regs| - 1];
      if last.table == name && last.path == path then before + [last.slot] else before
  }

  /** A stored signal is the stable sort, by priority, of what was registered; nothing else is stored. */
  lemma {:induction false} TableHoldsStableSorts(regs: seq<Registration>, name: TableName, path: Str)
    ensures path in TableOf(regs, name) <==> Registered(regs, name, path) != []
    ensures path in TableOf(regs, name) ==> StableSort(TableOf(regs, name)[path], Registered(regs, name, path))
  {
    if regs != [] {
      var before, last := regs[..|regs| - 1], regs[|regs| - 1];
      TableHoldsStableSorts(before, name, path);
      if last.table == name && last.path == path {
        var signal := if path in TableOf(before, name) then TableOf(before, name)[path] else [];
        ConnectStable(signal, last.slot, Registered(before, name, path));
      }
    }
  }

  /** The registered slots a GET for `path` comes down to: the first non-empty list of the four. */
  ghost function Chosen(regs: seq<Registration>, path: Str): seq<Slot> {
    if Registered(regs, GetTable, path) != [] then Registered(regs, GetTable, path)
    else if Registered(regs, GetTable, [STAR]) != [] then Registered(regs, GetTable, [STAR])
    else if Registered(regs, AllTable, path) != [] then Registered(regs, AllTable, path)
    else Registered(regs, AllTable, [STAR])
  }

  /** The four keys of a GET, in the order they are tried: the first under which anything was registered answers. */
  lemma ChosenIsFirst(regs: seq<Registration>, path: Str, i: nat)
    requires i < 4
    ensures var tried := [(GetTable, path), (GetTable, [STAR]), (AllTable, path), (AllTable, [STAR])];
            (forall j :: 0 <= j < i ==> Registered(regs, tried[j].0, tried[j].1) == []) &&
            (i == 3 || Registered(regs, tried[i].0, tried[i].1) != []) ==>
              Chosen(regs, path) == Registered(regs, tried[i].0, tried[i].1)
  {
    var tried := [(GetTable, path), (GetTable, [STAR]), (AllTable, path), (AllTable, [STAR])];
    assert tried[0] == (GetTable, path) && tried[1] == (GetTable, [STAR]) && tried[2] == (AllTable, path);
  }

  /** From `before` to `after` one table gained one slot, at the end of the list of one path. */
  ghost predicate Gains(
    before: seq<Registration>, after: seq<Registration>, name: TableName, path: Str, slot: Slot)
  {
    forall p :: Registered(after, name, p) == Registered(before, name, p) + if p == path then [slot] else []
  }

  ghost predicate Keeps(before: seq<Registration>, after: seq<Registration>, name: TableName) {
    forall p :: Registered(after, name, p) == Registered(before, name, p)
  }

  lemma OneMore(regs: seq<Registration>, last: Registration)
    ensures Gains(regs, regs + [last], last.table, last.path, last.slot)
    ensures forall name :: name != last.table ==> Keeps(regs, regs + [last], name)
  {
    assert (regs + [last])[..|regs|] == regs;
  }

  /** What the four lookups hit is the stable sort of the chosen registrations, if there are any. */
  lemma HitIsChosen(regs: seq<Registration>, path: Str)
    ensures var tables := TablesOf(regs);
            var hit := FirstHit(tables.get, tables.all, path);
            && (hit.Some? <==> Chosen(regs, path) != [])
            && (hit.Some? ==> StableSort(hit.value, Chosen(regs, path)))
  {
    TableHoldsStableSorts(regs, GetTable, path);
    TableHoldsStableSorts(regs, GetTable, [STAR]);
    TableHoldsStableSorts(regs, AllTable, path);
    TableHoldsStableSorts(regs, AllTable, [STAR]);
  }

  /**
    After any run of registrations, a GET dispatch fails iff nothing was registered under any of the
    four keys; otherwise it runs the stable sort of the chosen registrations, and at least one handler.
   */
  lemma DispatchRuns(regs: seq<Registration>, path: Str, request: RequestView, signal: Signal)
    requires StableSort(signal, Chosen(regs, path))
    ensures Outcome(TablesOf(regs), path, request) ==
              if Chosen(regs, path) == [] then None else Some(Combined(signal, request, FRESH_RESPONSE))
    ensures Chosen(regs, path) != [] ==> CallCount(signal, request, FRESH_RESPONSE) >= 1
  {
    HitIsChosen(regs, path);
    var tables := TablesOf(regs);
    if Chosen(regs, path) != [] {
      var hit := FirstHit(tables.get, tables.all, path).value;
      StableSortUnique(signal, hit, Chosen(regs, path));
      StableSortNonempty(signal, Chosen(regs, path));
    }
  }

  lemma StableSortNonempty(signal: Signal, order: seq<Slot>)
    requires StableSort(signal, order)
    ensures signal == [] <==> order == []
  {
    if signal != [] {
      WithPriorityMember(signal, signal[0]);
      assert WithPriority(signal, signal[0].priority) == WithPriority(order, signal[0].priority);
    }
    if order != [] {
      WithPriorityMember(order, order[0]);
      assert WithPriority(signal, order[0].priority) == WithPriority(order, order[0].priority);
    }
  }

  /** The registrations that did not go to one table. */
  ghost function Without(regs: seq<Registration>, name: TableName): seq<Registration> {
    if regs == [] then
      []
    else
      var before, last := Without(regs[..|regs| - 1], name), regs[|regs| - 1];
      if last.table == name then before else before + [last]
  }

  lemma TableOfMore(regs: seq<Registration>, last: Registration, name: TableName)
    ensures TableOf(regs + [last], name) ==
            if last.table == name then AddTo(TableOf(regs, name), last.path, last.slot) else TableOf(regs, name)
  {
  }

  lemma {:induction false} OtherTableUnaffected(regs: seq<Registration>, dropped: TableName, name: TableName)
    requires name != dropped
    ensures TableOf(Without(regs, dropped), name) == TableOf(regs, name)
  {
    if regs != [] {
      var before, last := regs[..|regs| - 1], regs[|regs| - 1];
      OtherTableUnaffected(before, dropped, name);
      if last.table != dropped {
        TableOfMore(Without(before, dropped), last, name);
      }
    }
  }

  /** POST registrations never reach a GET; catch-all ones do only when no GET entry matches. */
  lemma GetIgnores(regs: seq<Registration>, path: Str, request: RequestView)
    ensures Outcome(TablesOf(Without(regs, PostTable)), path, request) == Outcome(TablesOf(regs), path, request)
    ensures Registered(regs, GetTable, path) != [] || Registered(regs, GetTable, [STAR]) != [] ==>
              Outcome(TablesOf(Without(regs, AllTable)), path, request) == Outcome(TablesOf(regs), path, request)
  {
    OtherTableUnaffected(regs, PostTable, GetTable);
    OtherTableUnaffected(regs, PostTable, AllTable);
    OtherTableUnaffected(regs, AllTable, GetTable);
    TableHoldsStableSorts(regs, GetTable, path);
    TableHoldsStableSorts(regs, GetTable, [STAR]);
  }

  // ---------------------------------------------------------------- filling the tables from options

  datatype RouteOption = IntOption(i: int) | DoubleOption(d: real) | StringOption(s: Str) | HandlerOption(h: Handler)

  type Options = map<Str, RouteOption>

  const METHOD: Str := Ascii("method")
  const GET: Str := Ascii("GET")
  const POST: Str := Ascii("POST")

  function StringOr(options: Options, key: Str, default: Str): Str {
    if key in options && options[key].StringOption? then options[key].s else default
  }

  function IntOr(options: Options, key: Str, default: int): int {
    if key in options && options[key].IntOption? then options[key].i else default
  }

  /** The greatest key that holds a handler; under which name it stands does not matter. */
  ghost predicate HandlerKey(options: Options, key: Str) {
    && key in options && options[key].HandlerOption?
    && forall k :: k in options && options[k].HandlerOption? ==> k == key || Less(k, key)
  }

  /** The methods a route can be added for. */
  predicate Recognised(verb: Str) {
    verb == GET || verb == POST || verb == [STAR]
  }

  /** One step of the walk: the type of an option's value decides which local it may overwrite. */
  method ReadOption(key: Str, option: RouteOption, verb: Str, path: Str, priority: int, routeFunction: Option<Handler>)
    returns (verb': Str, path': Str, priority': int, routeFunction': Option<Handler>)
    ensures verb' == if option.StringOption? && key == METHOD then option.s else verb
    ensures path' == if option.StringOption? && key == PATH then option.s else path
    ensures priority' == if option.IntOption? && key == PRIORITY then option.i else priority
    ensures routeFunction' == if option.HandlerOption? then Some(option.h) else routeFunction
  {
    verb', path', priority', routeFunction' := verb, path, priority, routeFunction;
    match option {
      case IntOption(value) =>
        if key == PRIORITY {
          priority' := value;
        }
      case DoubleOption(_) =>
      case StringOption(value) =>
        if key == METHOD {
          verb' := value;
        } else if key == PATH {
          path' := value;
        }
      case HandlerOption(value) =>
        routeFunction' := Some(value);
    }
  }

  /** The walk over the options, in key order, that overwrites the four locals of `route`. */
  method ReadOptions(options: Options)
    returns (verb: Str, path: Str, priority: int, routeFunction: Option<Handler>)
    ensures verb == StringOr(options, METHOD, GET)
    ensures path == StringOr(options, PATH, [STAR])
    ensures priority == IntOr(options, PRIORITY, 10)
    ensures match routeFunction
            case None => forall k :: k in options ==> !options[k].HandlerOption?
            case Some(h) => exists k :: HandlerKey(options, k) && options[k].h == h
  {
    routeFunction := None;
    verb, path, priority := GET, [STAR], 10;
    var keys := SortedKeys(options.Keys);
    ghost var walked: Options := map[];
    ghost var handlerKey: Str := [];
    var i := 0;
    while i < |keys|
      invariant 0 <= i <= |keys|
      invariant Walked(options, keys, i, walked)
      invariant ReadSoFar(walked, verb, path, priority, routeFunction, handlerKey)
    {
      var key := keys[i];
      WalkOne(options, keys, i, walked);
      ReadStep(walked, key, options[key], verb, path, priority, routeFunction, handlerKey);
      walked := walked[key := options[key]];
      verb, path, priority, routeFunction := ReadOption(key, options[key], verb, path, priority, routeFunction);
      handlerKey := if walked[key].HandlerOption? then key else handlerKey;
      i := i + 1;
    }
    WalkedAll(options, keys, walked);
  }

  /** `found` is the handler at the greatest key that holds one, if any does. */
  ghost predicate HandlerRead(walked: Options, found: Option<Handler>, at: Str) {
    match found
    case None => forall k :: k in walked ==> !walked[k].HandlerOption?
    case Some(h) => HandlerKey(walked, at) && walked[at].h == h
  }

  /** The four locals of `route` after walking `walked`. */
  ghost predicate ReadSoFar(walked: Options, verb: Str, path: Str, priority: int, found: Option<Handler>, at: Str) {
    && verb == StringOr(walked, METHOD, GET)
    && path == StringOr(walked, PATH, [STAR])
    && priority == IntOr(walked, PRIORITY, 10)
    && HandlerRead(walked, found, at)
  }

  lemma ReadStep(walked: Options, key: Str, option: RouteOption,
                 verb: Str, path: Str, priority: int, found: Option<Handler>, at: Str)
    requires ReadSoFar(walked, verb, path, priority, found, at)
    requires key !in walked && forall k :: k in walked ==> Less(k, key)
    ensures ReadSoFar(
              walked[key := option],
              if option.StringOption? && key == METHOD then option.s else verb,
              if option.StringOption? && key == PATH then option.s else path,
              if option.IntOption? && key == PRIORITY then option.i else priority,
              if option.HandlerOption? then Some(option.h) else found,
              if option.HandlerOption? then key else at)
  {
  }

  /**
    From `before` to `after` one table gained the slot that the options give, at the end of the list
    of the path they give, and no other list changed.
   */
  ghost predicate AddedTo(options: Options, before: seq<Registration>, after: seq<Registration>, name: TableName) {
    && (exists key ::
          && HandlerKey(options, key)
          && after == before + [Given(options, name, key)]
          && Gains(before, after, name, Given(options, name, key).path, Given(options, name, key).slot))
    && forall other :: other != name ==> Keeps(before, after, other)
  }

  /** The registration that the options ask for, with the handler at `key`. */
  function Given(options: Options, name: TableName, key: Str): Registration
    requires key in options && options[key].HandlerOption?
  {
    Registration(
      name, StringOr(options, Ascii("path"), Ascii("*")), Slot(IntOr(options, Ascii("priority"), 10), options[key].h))
  }

  /** What adding a route by its options does to the registrations. */
  ghost predicate RouteEffect(options: Options, before: seq<Registration>, after: seq<Registration>) {
    var verb := StringOr(options, Ascii("method"), Ascii("GET"));
    if verb == Ascii("GET") then AddedTo(options, before, after, GetTable)
    else if verb == Ascii("POST") then AddedTo(options, before, after, PostTable)
    else if verb == Ascii("*") then AddedTo(options, before, after, AllTable)
    else after == before
  }

  lemma OneAdded(options: Options, before: seq<Registration>, name: TableName, key: Str)
    requires HandlerKey(options, key)
    ensures AddedTo(options, before, before + [Given(options, name, key)], name)
  {
    OneMore(before, Given(options, name, key));
  }

  /** A route added for GET or for every method answers a GET for its path; one added for POST changes no GET. */
  lemma RouteReaches(options: Options, before: seq<Registration>, after: seq<Registration>)
    requires RouteEffect(options, before, after)
    ensures var verb := StringOr(options, Ascii("method"), Ascii("GET"));
            && (verb == Ascii("GET") || verb == Ascii("*") ==>
                  Chosen(after, StringOr(options, Ascii("path"), Ascii("*"))) != [])
            && (verb != Ascii("GET") && verb != Ascii("*") ==>
                  forall path :: Chosen(after, path) == Chosen(before, path))
  {
    hide Registered, HandlerKey, StringOr, IntOr;
    var verb := StringOr(options, Ascii("method"), Ascii("GET"));
    if verb != Ascii("GET") && verb == Ascii("POST") {
      assert Keeps(before, after, GetTable) && Keeps(before, after, AllTable);
    }
  }

  class ServerImpl {
    const routePtr: RouteImpl

    constructor ()
      ensures fresh(routePtr) && routePtr.Valid() && routePtr.registrations == []
    {
      routePtr := new RouteImpl();
    }

    /**
      A recognised method with no handler among the options dereferences a null pointer in the source.
      The slot joins the list of its path in the table of its method, and no other list changes.
     */
    method Route(options: Options) returns (rc: int)
      requires routePtr.Valid()
      requires Recognised(StringOr(options, METHOD, GET)) ==> exists k :: k in options && options[k].HandlerOption?
      modifies routePtr
      ensures routePtr.Valid() && rc == 0
      ensures RouteEffect(options, old(routePtr.registrations), routePtr.registrations)
    {
      var verb, path, priority, routeFunction := ReadOptions(options);
      rc := 0;
      assert Ascii("*") == [STAR];
      ghost var before := routePtr.registrations;
      forall name: TableName, key | HandlerKey(options, key)
        ensures AddedTo(options, before, before + [Registration(name, path, Slot(priority, options[key].h))], name)
      {
        OneAdded(options, before, name, key);
      }
      if verb == GET {
        var _ := routePtr.GetAdd(path, priority, routeFunction.value);
      } else if verb == POST {
        var _ := routePtr.PostAdd(path, priority, routeFunction.value);
      } else if verb == [STAR] {
        var _ := routePtr.AllAdd(path, priority, routeFunction.value);
      }
    }
  }
}
