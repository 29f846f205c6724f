/**
  The server side of one connection: handshake, then read, check, dispatch and write until the
  stream ends, then shutdown.

  The outcomes of the stream's operations are an arbitrary script. A run whose script is used up
  is waiting for its next read; scripts of every length together cover runs that never end.
 */
module ServerConnection {
  import opened Text
  import opened Query
  import opened QueryText
  import opened Target
  import opened Signals
  import opened Router

  // ---------------------------------------------------------------- the stream

  datatype ReadResult = EndOfStream | ReadError | Received(message: Message)

  /** What one read yields, and whether the write that may answer it succeeds. */
  datatype Exchange = Exchange(read: ReadResult, writeOk: bool)

  datatype Script = Script(handshakeOk: bool, exchanges: seq<Exchange>, shutdownOk: bool)

  datatype Event = Handshake(ok: bool) | Read(result: ReadResult) | Write(page: Page, ok: bool) | Shutdown(ok: bool)

  /** An SSL stream that plays a script and keeps a record of every completed operation. */
  class SslStream {
    const handshakeOk: bool
    const shutdownOk: bool
    var exchanges: seq<Exchange>
    var writeOk: bool
    var log: seq<Event>

    constructor (script: Script)
      ensures handshakeOk == script.handshakeOk && shutdownOk == script.shutdownOk
      ensures exchanges == script.exchanges && log == []
    {
      handshakeOk, shutdownOk, exchanges := script.handshakeOk, script.shutdownOk, script.exchanges;
      writeOk := false;
      log := [];
    }

    method AsyncHandshake() returns (ok: bool)
      modifies this`log
      ensures ok == handshakeOk && log == old(log) + [Handshake(ok)]
    {
      ok := handshakeOk;
      log := log + [Handshake(ok)];
    }

    method AsyncRead() returns (result: ReadResult)
      requires exchanges != []
      modifies this
      ensures exchanges == old(exchanges)[1..] && writeOk == old(exchanges)[0].writeOk
      ensures result == old(exchanges)[0].read && log == old(log) + [Read(result)]
    {
      result, writeOk := exchanges[0].read, exchanges[0].writeOk;
      exchanges := exchanges[1..];
      log := log + [Read(result)];
    }

    method AsyncWrite(message: ResponseMessage) returns (ok: bool)
      modifies this`log
      ensures ok == writeOk && log == old(log) + [Write(message.page, ok)]
    {
      ok := writeOk;
      log := log + [Write(message.page, ok)];
    }

    method AsyncShutdown() returns (ok: bool)
      modifies this`log
      ensures ok == shutdownOk && log == old(log) + [Shutdown(ok)]
    {
      ok := shutdownOk;
      log := log + [Shutdown(ok)];
    }
  }

  // ---------------------------------------------------------------- one request

  const HEAD: Str := Ascii("HEAD")
  const UNKNOWN_METHOD: Str := Ascii("Unknown HTTP-method")
  const ILLEGAL_TARGET: Str := Ascii("Illegal request-target")
  const NOT_FOUND_BEFORE: Str := Ascii("The resource '")
  const NOT_FOUND_AFTER: Str := Ascii("' was not found.")

  predicate KnownMethod(verb: Str) {
    verb == GET || verb == HEAD
  }

  predicate LegalTarget(target: Str) {
    target != [] && target[0] == SLASH && !HasDotDot(target)
  }

  predicate Rejected(message: Message) {
    !KnownMethod(message.verb) || !LegalTarget(message.target)
  }

  /**
    Which requests are rejected, in terms of what the server would have made of them: a method other
    than GET and HEAD, a path that is not absolute, or two dots in a row in the path or the query.
   */
  lemma RejectedMeans(message: Message)
    ensures var seen := ViewOf(message);
            Rejected(message) <==>
              || (message.verb != Ascii("GET") && message.verb != Ascii("HEAD"))
              || seen.path == [] || seen.path[0] != SLASH
              || HasDotDot(seen.path) || HasDotDot(seen.query.encoded)
  {
    var t, pos := message.target, Find(message.target, QUESTION);
    if pos < |t| {
      assert t == t[..pos] + [QUESTION] + t[pos + 1..];
      DotDotSeparated(t[..pos], QUESTION, t[pos + 1..]);
    } else {
      assert t[..pos] == t;
    }
  }

  /** The page that answers a request that is not rejected. */
  function Answer(tables: Tables, message: Message): Page {
    var request := ViewOf(message);
    match Outcome(tables, request.path, request)
    case None => PageFor(404, message, NOT_FOUND_BEFORE + request.path + NOT_FOUND_AFTER)
    case Some(body) => PageFor(200, message, body)
  }

  // ---------------------------------------------------------------- the loop

  /** The operations of a run, and what it returned if it did. */
  datatype RunResult = RunResult(events: seq<Event>, rc: Option<int>)

  function Serve(tables: Tables, exchanges: seq<Exchange>, shutdownOk: bool): RunResult
    decreases |exchanges|
  {
    if exchanges == [] then
      RunResult([], None)
    else
      var read := Read(exchanges[0].read);
      match exchanges[0].read
      case EndOfStream => RunResult([read, Shutdown(shutdownOk)], Some(if shutdownOk then 0 else -1))
      case ReadError => RunResult([read], Some(-1))
      case Received(message) =>
        if Rejected(message) then
          RunResult([read], Some(0))
        else
          var write := Write(Answer(tables, message), exchanges[0].writeOk);
          if !write.ok then
            RunResult([read, write], Some(-1))
          else
            var rest := Serve(tables, exchanges[1..], shutdownOk);
            RunResult([read, write] + rest.events, rest.rc)
  }

  function RunOf(tables: Tables, script: Script): RunResult {
    if !script.handshakeOk then
      RunResult([Handshake(false)], Some(-1))
    else
      var served := Serve(tables, script.exchanges, script.shutdownOk);
      RunResult([Handshake(true)] + served.events, served.rc)
  }

  /** What a read, and the operations it leads to, add after a record `log`. */
  lemma ServeStep(tables: Tables, exchanges: seq<Exchange>, shutdownOk: bool, log: seq<Event>)
    requires exchanges != []
    ensures var run, first := Serve(tables, exchanges, shutdownOk), exchanges[0];
            var whole := log + run.events;
            match first.read
            case EndOfStream => whole == log + [Read(EndOfStream)] + [Shutdown(shutdownOk)]
            case ReadError => whole == log + [Read(ReadError)]
            case Received(message) =>
              if Rejected(message) then whole == log + [Read(first.read)]
              else
                var write := Write(Answer(tables, message), first.writeOk);
                whole == log + [Read(first.read)] + [write] +
                         if write.ok then Serve(tables, exchanges[1..], shutdownOk).events else []
  {
    hide Answer, Rejected;
  }

  /** How an iteration of the loop ends. */
  datatype LoopExit = Continue | Break | Return(rc: int)

  class Connection {
    const sslStream: SslStream
    const routePtr: RouteImpl

    constructor (stream: SslStream, routes: RouteImpl)
      ensures sslStream == stream && routePtr == routes
    {
      sslStream, routePtr := stream, routes;
    }

    /** The result is `None` while the run waits for a read. */
    method Run() returns (rc: Option<int>)
      requires routePtr.Valid()
      modifies sslStream
      ensures routePtr.Valid() && routePtr.registrations == old(routePtr.registrations)
      ensures var script := Script(sslStream.handshakeOk, old(sslStream.exchanges), sslStream.shutdownOk);
              var run := RunOf(TablesOf(routePtr.registrations), script);
              sslStream.log == old(sslStream.log) + run.events && rc == run.rc
    {
      var close := true;
      var ok := sslStream.AsyncHandshake();
      if !ok {
        return Some(-1);
      }
      ghost var tables := routePtr.View();
      ghost var run := Serve(tables, sslStream.exchanges, sslStream.shutdownOk);
      ghost var rest := run;
      ghost var start := sslStream.log;
      assert old(sslStream.log) + ([Handshake(true)] + run.events) == start + run.events;
      while close
        invariant close && routePtr.Valid() && routePtr.View() == tables
        invariant routePtr.registrations == old(routePtr.registrations)
        invariant rest == Serve(tables, sslStream.exchanges, sslStream.shutdownOk)
        invariant sslStream.log + rest.events == start + run.events && rest.rc == run.rc
        decreases |sslStream.exchanges|
      {
        if sslStream.exchanges == [] {
          assert sslStream.log + [] == sslStream.log;
          return None;
        }
        var exit;
        exit, rest := ServeOne(rest);
        if exit == Break {
          break;
        }
        if exit != Continue {
          return Some(exit.rc);
        }
      }
      ok := sslStream.AsyncShutdown();
      return Some(if ok then 0 else -1);
    }

    /** The body of the loop: read a request, check it, dispatch it and write the response. */
    method ServeOne(ghost run: RunResult) returns (exit: LoopExit, ghost rest: RunResult)
      requires routePtr.Valid() && sslStream.exchanges != []
      requires run == Serve(routePtr.View(), sslStream.exchanges, sslStream.shutdownOk)
      modifies sslStream
      ensures unchanged(routePtr) && sslStream.exchanges == old(sslStream.exchanges)[1..]
      ensures rest == Serve(routePtr.View(), sslStream.exchanges, sslStream.shutdownOk)
      ensures match exit
              case Continue => old(sslStream.log) + run.events == sslStream.log + rest.events && run.rc == rest.rc
              case Break =>
                && old(sslStream.log) + run.events == sslStream.log + [Shutdown(sslStream.shutdownOk)]
                && run.rc == Some(if sslStream.shutdownOk then 0 else -1)
              case Return(code) => old(sslStream.log) + run.events == sslStream.log && run.rc == Some(code)
    {
      ghost var tables := routePtr.View();
      rest := Serve(tables, sslStream.exchanges[1..], sslStream.shutdownOk);
      ServeStep(tables, sslStream.exchanges, sslStream.shutdownOk, sslStream.log);
      var result := sslStream.AsyncRead();
      if result == EndOfStream {
        return Break, rest;
      }
      if result == ReadError {
        return Return(-1), rest;
      }
      var reqBeast := result.message;
      var resBeast := new ResponseMessage();
      if reqBeast.verb != GET && reqBeast.verb != HEAD {
        var code := BadRequest(reqBeast, resBeast, UNKNOWN_METHOD);
        return Return(code), rest;
      }
      if |reqBeast.target| == 0 || reqBeast.target[0] != SLASH || HasDotDot(reqBeast.target) {
        var code := BadRequest(reqBeast, resBeast, ILLEGAL_TARGET);
        return Return(code), rest;
      }
      Dispatch(reqBeast, resBeast);
      var ok := sslStream.AsyncWrite(resBeast);
      exit := if ok then Continue else Return(-1);
    }

    /** The setup, dispatch and fallback phases of the loop body. */
    method Dispatch(reqBeast: Message, resBeast: ResponseMessage)
      requires routePtr.Valid()
      modifies resBeast
      ensures resBeast.page == Answer(TablesOf(routePtr.registrations), reqBeast)
    {
      var reqImpl := new RequestImpl();
      var _ := reqImpl.SetRequest(Some(reqBeast));
      var _ := reqImpl.ParseRequest();
      var resImpl := new ResponseImpl();
      var _ := resImpl.SetResponse(resBeast);
      var path := reqImpl.urlPtr.encodedPath;
      HitIsChosen(routePtr.registrations, path);
      var rc, _ := routePtr.DoGetSignal(path, reqImpl, resImpl);
      if rc < 0 {
        var _ := NotFound(reqBeast, resBeast, path);
      }
    }

    method BadRequest(req: Message, res: ResponseMessage, what: Str) returns (rc: int)
      modifies res
      ensures rc == 0 && res.page == PageFor(400, req, what)
    {
      res.Fill(400, req, what);
      rc := 0;
    }

    method NotFound(req: Message, res: ResponseMessage, what: Str) returns (rc: int)
      modifies res
      ensures rc == 0 && res.page == PageFor(404, req, NOT_FOUND_BEFORE + what + NOT_FOUND_AFTER)
    {
      res.Fill(404, req, NOT_FOUND_BEFORE + what + NOT_FOUND_AFTER);
      rc := 0;
    }
  }

  // ---------------------------------------------------------------- the protocol

  /** Which operation may come next. After anything not listed, none may. */
  predicate Follows(tables: Tables, event: Event, next: Event) {
    match event
    case Handshake(ok) => ok && next.Read?
    case Read(EndOfStream) => next.Shutdown?
    case Read(ReadError) => false
    case Read(Received(message)) => !Rejected(message) && next.Write? && next.page == Answer(tables, message)
    case Write(_, ok) => ok && next.Read?
    case Shutdown(_) => false
  }

  /** A run does not stop between a good request and its answer, nor between the end of the stream and shutdown. */
  predicate Rests(event: Event) {
    match event
    case Read(EndOfStream) => false
    case Read(Received(message)) => Rejected(message)
    case _ => true
  }

  /** What a run has returned by the time `event` is its last: nothing, if it waits for a read. */
  function ReturnedAfter(event: Event): Option<int> {
    match event
    case Handshake(ok) => if ok then None else Some(-1)
    case Read(Received(_)) => Some(0)
    case Read(_) => Some(-1)
    case Write(_, ok) => if ok then None else Some(-1)
    case Shutdown(ok) => Some(if ok then 0 else -1)
  }

  ghost predicate Chain(tables: Tables, events: seq<Event>) {
    forall i :: 0 <= i < |events| - 1 ==> Follows(tables, events[i], events[i + 1])
  }

  ghost predicate Legal(tables: Tables, events: seq<Event>) {
    events != [] && events[0].Handshake? && Chain(tables, events) && Rests(events[|events| - 1])
  }

  lemma {:induction false} ServeChains(tables: Tables, exchanges: seq<Exchange>, shutdownOk: bool)
    ensures var run := Serve(tables, exchanges, shutdownOk);
            && Chain(tables, run.events)
            && (exchanges == [] <==> run.events == [])
            && (run.events == [] ==> run.rc == None)
            && (run.events != [] ==>
                  && run.events[0].Read?
                  && Rests(run.events[|run.events| - 1])
                  && run.rc == ReturnedAfter(run.events[|run.events| - 1]))
    decreases |exchanges|
  {
    if exchanges != [] && exchanges[0].read.Received? && !Rejected(exchanges[0].read.message) && exchanges[0].writeOk {
      ServeChains(tables, exchanges[1..], shutdownOk);
      var rest := Serve(tables, exchanges[1..], shutdownOk).events;
      var events := Serve(tables, exchanges, shutdownOk).events;
      assert events[2..] == rest;
      forall i | 0 <= i < |events| - 1 ensures Follows(tables, events[i], events[i + 1]) {
        if i >= 2 {
          assert events[i] == rest[i - 2] && events[i + 1] == rest[i - 1];
        }
      }
    }
  }

  /** Conversely a legal sequence of operations after the handshake is what some script leads to. */
  lemma {:induction false} ChainsAreServed(tables: Tables, events: seq<Event>)
      returns (exchanges: seq<Exchange>, shutdownOk: bool)
    requires Chain(tables, events)
    requires events != [] ==> events[0].Read? && Rests(events[|events| - 1])
    ensures Serve(tables, exchanges, shutdownOk).events == events
    decreases |events|
  {
    exchanges, shutdownOk := [], true;
    if events != [] {
      var first := events[0];
      if |events| == 1 {
        exchanges := [Exchange(first.result, true)];
      } else if first.result == EndOfStream {
        assert Follows(tables, events[0], events[1]);
        assert |events| > 2 ==> Follows(tables, events[1], events[2]);
        exchanges, shutdownOk := [Exchange(EndOfStream, true)], events[1].ok;
      } else {
        assert Follows(tables, events[0], events[1]);
        assert |events| > 2 ==> Follows(tables, events[1], events[2]);
        forall i | 0 <= i < |events[2..]| - 1 ensures Follows(tables, events[2..][i], events[2..][i + 1]) {
          assert Follows(tables, events[i + 2], events[i + 3]);
        }
        var rest;
        rest, shutdownOk := ChainsAreServed(tables, events[2..]);
        exchanges := [Exchange(first.result, events[1].ok)] + rest;
        assert exchanges[1..] == rest;
        assert events == [events[0], events[1]] + events[2..];
      }
    }
  }

  lemma RunIsLegal(tables: Tables, script: Script)
    ensures var run := RunOf(tables, script);
            Legal(tables, run.events) && run.rc == ReturnedAfter(run.events[|run.events| - 1])
  {
    if script.handshakeOk {
      ServeChains(tables, script.exchanges, script.shutdownOk);
      var served := Serve(tables, script.exchanges, script.shutdownOk).events;
      var events := RunOf(tables, script).events;
      forall i | 0 <= i < |events| - 1 ensures Follows(tables, events[i], events[i + 1]) {
        if i >= 1 {
          assert events[i] == served[i - 1] && events[i + 1] == served[i];
        }
      }
    }
  }

  /** The runs of a connection, over all outcomes of its operations, are exactly the legal sequences. */
  lemma RunsAreExactlyLegal(tables: Tables, events: seq<Event>)
    ensures (exists script :: RunOf(tables, script).events == events) <==> Legal(tables, events)
  {
    if script :| RunOf(tables, script).events == events {
      RunIsLegal(tables, script);
    }
    if Legal(tables, events) {
      if |events| == 1 {
        assert Serve(tables, [], true).events == [];
        assert RunOf(tables, Script(events[0].ok, [], true)).events == events;
      } else {
        assert Follows(tables, events[0], events[1]);
        forall i | 0 <= i < |events[1..]| - 1 ensures Follows(tables, events[1..][i], events[1..][i + 1]) {
          assert Follows(tables, events[i + 1], events[i + 2]);
        }
        var exchanges, shutdownOk := ChainsAreServed(tables, events[1..]);
        assert events == [Handshake(true)] + events[1..];
        assert RunOf(tables, Script(true, exchanges, shutdownOk)).events == events;
      }
    }
  }

  // ---------------------------------------------------------------- what every run keeps

  /** The requests read, in order. */
  function Requests(events: seq<Event>): seq<Message> {
    if events == [] then
      []
    else
      var before, last := Requests(events[..|events| - 1]), events[|events| - 1];
      if last.Read? && last.result.Received? then before + [last.result.message] else before
  }

  /** The writes attempted, in order. */
  function Answers(events: seq<Event>): seq<Page> {
    if events == [] then
      []
    else
      var before, last := Answers(events[..|events| - 1]), events[|events| - 1];
      if last.Write? then before + [last.page] else before
  }

  /**
    At every moment of every run the i-th attempted write is the answer to the i-th request read, no
    answered request was a rejected one, and a request is outstanding only if it was read last.
   */
  lemma {:induction false} AnswersInOrder(tables: Tables, events: seq<Event>)
    requires events != [] && events[0].Handshake? && Chain(tables, events)
    ensures |Requests(events)| ==
              |Answers(events)| + if events[|events| - 1].Read? && events[|events| - 1].result.Received? then 1 else 0
    ensures forall i :: 0 <= i < |Answers(events)| ==>
              !Rejected(Requests(events)[i]) && Answers(events)[i] == Answer(tables, Requests(events)[i])
  {
    if |events| > 1 {
      var before := events[..|events| - 1];
      forall i | 0 <= i < |before| - 1 ensures Follows(tables, before[i], before[i + 1]) {
        assert Follows(tables, events[i], events[i + 1]);
      }
      AnswersInOrder(tables, before);
      var previous := events[|events| - 2];
      assert Follows(tables, previous, events[|events| - 1]);
      assert previous == before[|before| - 1];
      if previous.Read? && previous.result.Received? {
        LastRequest(before);
      }
    }
  }

  /** The same for what any run has done after any number of operations. */
  lemma EveryMoment(tables: Tables, script: Script, n: nat)
    requires 0 < n <= |RunOf(tables, script).events|
    ensures var sofar := RunOf(tables, script).events[..n];
            && |Answers(sofar)| <= |Requests(sofar)| <= |Answers(sofar)| + 1
            && (|Requests(sofar)| == |Answers(sofar)| + 1 <==> IsRequest(sofar[n - 1]))
            && forall i :: 0 <= i < |Answers(sofar)| ==>
                 !Rejected(Requests(sofar)[i]) && Answers(sofar)[i] == Answer(tables, Requests(sofar)[i])
  {
    var events := RunOf(tables, script).events;
    RunIsLegal(tables, script);
    forall i | 0 <= i < n - 1 ensures Follows(tables, events[..n][i], events[..n][i + 1]) {
      assert Follows(tables, events[i], events[i + 1]);
    }
    AnswersInOrder(tables, events[..n]);
  }

  // The run of a connection whose clients all asked not to be kept alive.

  function Muted(message: Message): Message {
    message.(keepAlive := false)
  }

  function MutedRead(result: ReadResult): ReadResult {
    if result.Received? then Received(Muted(result.message)) else result
  }

  function MutedEvent(event: Event): Event {
    match event
    case Read(result) => Read(MutedRead(result))
    case Write(page, ok) => Write(page.(keepAlive := false), ok)
    case _ => event
  }

  function MutedExchanges(exchanges: seq<Exchange>): seq<Exchange> {
    seq(|exchanges|, i requires 0 <= i < |exchanges| =>
      Exchange(MutedRead(exchanges[i].read), exchanges[i].writeOk))
  }

  function MutedEvents(events: seq<Event>): seq<Event> {
    seq(|events|, i requires 0 <= i < |events| => MutedEvent(events[i]))
  }

  lemma MutedAnswer(tables: Tables, message: Message)
    ensures Rejected(Muted(message)) == Rejected(message)
    ensures Answer(tables, Muted(message)) == Answer(tables, message).(keepAlive := false)
  {
    assert ViewOf(Muted(message)) == ViewOf(message);
  }

  lemma {:induction false} ServeMuted(tables: Tables, exchanges: seq<Exchange>, shutdownOk: bool)
    ensures var run := Serve(tables, exchanges, shutdownOk);
            var muted := Serve(tables, MutedExchanges(exchanges), shutdownOk);
            muted.events == MutedEvents(run.events) && muted.rc == run.rc
    decreases |exchanges|
  {
    hide Answer, Rejected;
    if exchanges != [] {
      var first := exchanges[0];
      assert MutedExchanges(exchanges)[1..] == MutedExchanges(exchanges[1..]);
      ServeMuted(tables, exchanges[1..], shutdownOk);
      if first.read.Received? {
        MutedAnswer(tables, first.read.message);
      }
    }
  }

  /** `keep_alive` shows in the pages only: without it the same operations follow, and the same value is returned. */
  lemma KeepAliveIgnored(tables: Tables, script: Script)
    ensures var run := RunOf(tables, script);
            var muted := RunOf(tables, script.(exchanges := MutedExchanges(script.exchanges)));
            muted.events == MutedEvents(run.events) && muted.rc == run.rc
  {
    ServeMuted(tables, script.exchanges, script.shutdownOk);
  }

  lemma LastRequest(events: seq<Event>)
    requires events != [] && events[|events| - 1].Read? && events[|events| - 1].result.Received?
    ensures Requests(events) != []
    ensures Requests(events)[|Requests(events)| - 1] == events[|events| - 1].result.message
  {
  }

  predicate IsRequest(event: Event) {
    event.Read? && event.result.Received?
  }

  predicate IsRejection(event: Event) {
    IsRequest(event) && Rejected(event.result.message)
  }

  /** Nothing follows a rejected request, a failed operation or shutdown. */
  predicate Final(event: Event) {
    || IsRejection(event) || event == Read(ReadError) || event.Shutdown?
    || ((event.Handshake? || event.Write?) && !event.ok)
  }

  lemma FinalIsLast(tables: Tables, script: Script, i: nat)
    requires i < |RunOf(tables, script).events| && Final(RunOf(tables, script).events[i])
    ensures i == |RunOf(tables, script).events| - 1
  {
    RunIsLegal(tables, script);
    var events := RunOf(tables, script).events;
    forall j | 0 <= j < |events| - 1 ensures !Final(events[j]) {
      NotFinal(tables, events[j], events[j + 1]);
    }
  }

  lemma NotFinal(tables: Tables, event: Event, next: Event)
    requires Follows(tables, event, next)
    ensures !Final(event)
  {
  }

  /** Shutdown comes only after the end of the stream, with every request answered. */
  lemma ShutdownWhenServed(tables: Tables, script: Script, i: nat)
    requires i < |RunOf(tables, script).events| && RunOf(tables, script).events[i].Shutdown?
    ensures var events := RunOf(tables, script).events;
            i > 0 && events[i - 1] == Read(EndOfStream) && |Requests(events)| == |Answers(events)|
  {
    RunIsLegal(tables, script);
    FinalIsLast(tables, script, i);
    var events := RunOf(tables, script).events;
    assert Follows(tables, events[i - 1], events[i]);
    AnswersInOrder(tables, events);
  }

  /**
    At most one request of a run is left without a write, and then it was rejected and the run
    returned 0, as it otherwise does only after a clean shutdown. A run that has not returned waits
    after a handshake or a write, and the end of the stream is never the last thing it meets.
   */
  lemma UnansweredIsRejected(tables: Tables, script: Script)
    ensures var run := RunOf(tables, script);
            var events, last := run.events, run.events[|run.events| - 1];
            && |Requests(events)| == |Answers(events)| + (if IsRejection(last) then 1 else 0)
            && (run.rc == Some(0) <==> last == Shutdown(true) || IsRejection(last))
            && (run.rc == None <==> last == Handshake(true) || (last.Write? && last.ok))
            && run.rc in [None, Some(0), Some(-1)]
            && last != Read(EndOfStream)
  {
    RunIsLegal(tables, script);
    AnswersInOrder(tables, RunOf(tables, script).events);
  }

  // Where the outcomes of a run come from.

  function ReadsOf(events: seq<Event>): seq<ReadResult> {
    if events == [] then []
    else (if events[0].Read? then [events[0].result] else []) + ReadsOf(events[1..])
  }

  function WritesOf(events: seq<Event>): seq<bool> {
    if events == [] then []
    else (if events[0].Write? then [events[0].ok] else []) + WritesOf(events[1..])
  }

  /** Reads, and the writes that answer them, meet the outcomes of the exchanges in order. */
  ghost predicate Meets(events: seq<Event>, exchanges: seq<Exchange>) {
    && |WritesOf(events)| <= |ReadsOf(events)| <= |exchanges|
    && (forall i :: 0 <= i < |ReadsOf(events)| ==> ReadsOf(events)[i] == exchanges[i].read)
    && (forall i :: 0 <= i < |WritesOf(events)| ==> WritesOf(events)[i] == exchanges[i].writeOk)
  }

  lemma EventFirst(event: Event, rest: seq<Event>)
    ensures ReadsOf([event] + rest) == (if event.Read? then [event.result] else []) + ReadsOf(rest)
    ensures WritesOf([event] + rest) == (if event.Write? then [event.ok] else []) + WritesOf(rest)
  {
    assert ([event] + rest)[1..] == rest;
  }

  lemma ExchangeMeets(exchange: Exchange, page: Page, rest: seq<Event>, exchanges: seq<Exchange>)
    requires Meets(rest, exchanges)
    ensures ReadsOf([Read(exchange.read), Write(page, exchange.writeOk)] + rest) == [exchange.read] + ReadsOf(rest)
    ensures Meets([Read(exchange.read), Write(page, exchange.writeOk)] + rest, [exchange] + exchanges)
  {
    var read, write := Read(exchange.read), Write(page, exchange.writeOk);
    EventFirst(write, rest);
    EventFirst(read, [write] + rest);
    assert [read, write] + rest == [read] + ([write] + rest);
  }

  lemma ReadMeets(read: ReadResult, exchanges: seq<Exchange>, shutdownOk: bool)
    requires exchanges != [] && exchanges[0].read == read
    ensures Meets([Read(read)], exchanges) && Meets([Read(read), Shutdown(shutdownOk)], exchanges)
  {
    EventFirst(Read(read), []);
    EventFirst(Shutdown(shutdownOk), []);
    EventFirst(Read(read), [Shutdown(shutdownOk)]);
    assert [Read(read)] + [] == [Read(read)] && [Shutdown(shutdownOk)] + [] == [Shutdown(shutdownOk)];
    assert [Read(read)] + [Shutdown(shutdownOk)] == [Read(read), Shutdown(shutdownOk)];
  }

  lemma {:induction false} ServeMeets(tables: Tables, exchanges: seq<Exchange>, shutdownOk: bool)
    ensures var run := Serve(tables, exchanges, shutdownOk);
            Meets(run.events, exchanges) && (run.rc == None ==> |ReadsOf(run.events)| == |exchanges|)
    decreases |exchanges|
  {
    if exchanges != [] {
      var first := exchanges[0];
      ReadMeets(first.read, exchanges, shutdownOk);
      assert exchanges == [first] + exchanges[1..];
      if first.read.Received? && !Rejected(first.read.message) {
        var rest := if first.writeOk then Serve(tables, exchanges[1..], shutdownOk) else RunResult([], Some(-1));
        if first.writeOk {
          ServeMeets(tables, exchanges[1..], shutdownOk);
        }
        var page := Answer(tables, first.read.message);
        ExchangeMeets(first, page, rest.events, exchanges[1..]);
        var pair := [Read(first.read), Write(page, first.writeOk)];
        assert pair + [] == pair;
      }
    }
  }

  /** Nothing shakes hands again, and shutdown meets its own outcome. */
  predicate PlainServing(event: Event, shutdownOk: bool) {
    !event.Handshake? && (event.Shutdown? ==> event.ok == shutdownOk)
  }

  lemma {:induction false} ServePlainly(tables: Tables, exchanges: seq<Exchange>, shutdownOk: bool)
    ensures forall e :: e in Serve(tables, exchanges, shutdownOk).events ==> PlainServing(e, shutdownOk)
    decreases |exchanges|
  {
    if exchanges != [] {
      ServePlainly(tables, exchanges[1..], shutdownOk);
    }
  }

  /** A run meets the outcomes of its script in order, and waits for a read only once all are used up. */
  lemma RunMeetsScript(tables: Tables, script: Script)
    ensures var run := RunOf(tables, script);
            && run.events[0] == Handshake(script.handshakeOk)
            && Meets(run.events, script.exchanges)
            && (run.rc == None ==> |ReadsOf(run.events)| == |script.exchanges|)
            && forall e :: e in run.events && e.Shutdown? ==> e.ok == script.shutdownOk
  {
    hide Answer, Rejected, Serve;
    var served := Serve(tables, script.exchanges, script.shutdownOk).events;
    ServeMeets(tables, script.exchanges, script.shutdownOk);
    ServePlainly(tables, script.exchanges, script.shutdownOk);
    EventFirst(Handshake(script.handshakeOk), if script.handshakeOk then served else []);
    assert [Handshake(false)] + [] == [Handshake(false)];
  }

  /** The texts of the pages. */
  lemma PageTexts()
    ensures TEXT_HTML == Ascii("text/html")
    ensures NOT_FOUND_BEFORE == Ascii("The resource '") && NOT_FOUND_AFTER == Ascii("' was not found.")
    ensures UNKNOWN_METHOD == Ascii("Unknown HTTP-method") && ILLEGAL_TARGET == Ascii("Illegal request-target")
  {
  }

  /** An answer is a 200 with the dispatch's body if a route matches, else a 404; its length is that of its body. */
  lemma AnswerOfRegistrations(regs: seq<Registration>, message: Message, signal: Signal)
    requires StableSort(signal, Chosen(regs, ViewOf(message).path))
    ensures var page := Answer(TablesOf(regs), message);
            && page.contentLength == |page.body|
            && page.version == message.version && page.keepAlive == message.keepAlive
            && page.contentType == TEXT_HTML
            && (page.status == 200 || page.status == 404)
            && (page.status == 200 <==> Chosen(regs, ViewOf(message).path) != [])
            && (page.status == 200 ==> page.body == Combined(signal, ViewOf(message), FRESH_RESPONSE))
            && (page.status == 404 ==>
                  page.body == NOT_FOUND_BEFORE + ViewOf(message).path + NOT_FOUND_AFTER)
  {
    hide Outcome, ViewOf, Chosen, Combined;
    DispatchRuns(regs, ViewOf(message).path, ViewOf(message), signal);
  }

  // ---------------------------------------------------------------- from a client's map to a handler

  /** The checks on a target a client built are checks on its path and on its raw keys and values. */
  lemma ClientRejected(message: Message, path: Str, fields: Fields)
    requires message.target == TargetOf(path, Flatten(fields))
    ensures Rejected(message) <==>
            || !KnownMethod(message.verb)
            || path == [] || path[0] != SLASH || HasDotDot(path)
            || exists t :: t in Texts(fields) && HasDotDot(t)
  {
    DotDotTarget(path, fields);
    assert message.target[0] == if path == [] then QUESTION else path[0];
  }

  /** Handlers that answer a client's request see the client's path and map, none of it escaped. */
  lemma ClientToHandler(tables: Tables, message: Message, path: Str, fields: Fields)
    requires message.target == TargetOf(path, Flatten(fields)) && QUESTION !in path
    ensures var received := if fields == map[] then map[[] := []] else fields;
            var seen := SeenAs(message, path, State(received, Flatten(fields)));
            Answer(tables, message) ==
              match Outcome(tables, path, seen)
              case None => PageFor(404, message, NOT_FOUND_BEFORE + path + NOT_FOUND_AFTER)
              case Some(body) => PageFor(200, message, body)
  {
    EndToEnd(message, path, fields);
    ParseEmpty();
  }
}
