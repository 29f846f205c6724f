/**
  Responses, the signals that hold route handlers, and the combiner that runs a signal until one
  handler ends the response.

  A Boost signal is the list of its slots in calling order. A handler is a function of what the
  request says and of the response's state to a returned string and the response's next state.
 */
module Signals {
  import opened Text
  import opened Target

  // ---------------------------------------------------------------- responses

  /** The `ended` flag of a response and the body that `end` stored. */
  datatype ResponseState = ResponseState(ended: bool, body: Str)

  const FRESH_RESPONSE := ResponseState(false, [])

  const TEXT_HTML: Str := Ascii("text/html")

  /** A Beast response message. */
  datatype Page = Page(status: nat, version: nat, contentType: Str, keepAlive: bool, body: Str, contentLength: nat)

  function PageFor(status: nat, message: Message, body: Str): Page {
    Page(status, message.version, TEXT_HTML, message.keepAlive, body, |body|)
  }

  class ResponseMessage {
    var page: Page

    constructor ()
      ensures page == Page(200, 11, [], false, [], 0)
    {
      page := Page(200, 11, [], false, [], 0);
    }

    /** The block that fills a response, the same for a page, a bad request and a missing resource. */
    method Fill(status: nat, message: Message, body: Str)
      modifies this
      ensures page == PageFor(status, message, body)
      ensures page == Page(status, message.version, Ascii("text/html"), message.keepAlive, body, |body|)
    {
      page := page.(status := status);
      page := page.(version := message.version);
      page := page.(contentType := TEXT_HTML);
      page := page.(keepAlive := message.keepAlive);
      page := page.(body := body);
      page := page.(contentLength := |page.body|);
      PreparePayload();
    }

    /** For a body of known size: the content length is set to that size. */
    method PreparePayload()
      modifies this
      ensures page == old(page).(contentLength := |old(page).body|)
    {
      page := page.(contentLength := |page.body|);
    }
  }

  class ResponseImpl {
    var resBeast: ResponseMessage?
    var writableEndedFlag: bool
    var bodyStr: Str

    function View(): ResponseState
      reads this
    {
      ResponseState(writableEndedFlag, bodyStr)
    }

    constructor ()
      ensures resBeast == null && View() == FRESH_RESPONSE == ResponseState(false, [])
    {
      resBeast := null;
      writableEndedFlag := false;
      bodyStr := [];
    }

    method SetResponse(message: ResponseMessage?) returns (rc: int)
      modifies this`resBeast
      ensures rc == 0 && resBeast == message
    {
      resBeast := message;
      rc := 0;
    }

    method End(body: Str) returns (rc: int)
      modifies this`bodyStr, this`writableEndedFlag
      ensures rc == 0 && View() == ResponseState(true, body)
    {
      bodyStr := body;
      writableEndedFlag := true;
      rc := 0;
    }

    predicate WritableEnded()
      reads this
    {
      writableEndedFlag
    }

    /** Lets a handler act on this response and returns the string it gave back. */
    method Run(handler: Handler, request: RequestView) returns (value: Str)
      modifies this`bodyStr, this`writableEndedFlag
      ensures value == handler(request, old(View())).value
      ensures View() == handler(request, old(View())).state
    {
      var reply := handler(request, View());
      bodyStr := reply.state.body;
      writableEndedFlag := reply.state.ended;
      value := reply.value;
    }
  }

  // ---------------------------------------------------------------- signals

  datatype Reply = Reply(value: Str, state: ResponseState)

  type Handler = (RequestView, ResponseState) -> Reply

  datatype Slot = Slot(priority: int, handler: Handler)

  type Signal = seq<Slot>

  /** `connect(priority, handler)`: after every slot of the same or a lower group. */
  function Connect(signal: Signal, slot: Slot): Signal {
    if signal == [] || slot.priority < signal[0].priority then [slot] + signal
    else [signal[0]] + Connect(signal[1..], slot)
  }

  ghost predicate Sorted(signal: Signal) {
    forall i, j :: 0 <= i < j < |signal| ==> signal[i].priority <= signal[j].priority
  }

  ghost function WithPriority(signal: Signal, priority: int): Signal {
    if signal == [] then []
    else (if signal[0].priority == priority then [signal[0]] else []) + WithPriority(signal[1..], priority)
  }

  /** `signal` holds the slots of `order`, by ascending priority and, within a priority, in the order of `order`. */
  ghost predicate StableSort(signal: Signal, order: seq<Slot>) {
    Sorted(signal) && forall priority :: WithPriority(signal, priority) == WithPriority(order, priority)
  }

  lemma {:induction false} WithPriorityConcat(a: Signal, b: Signal, priority: int)
    ensures WithPriority(a + b, priority) == WithPriority(a, priority) + WithPriority(b, priority)
  {
    if a == [] {
      assert a + b == b;
    } else {
      assert (a + b)[1..] == a[1..] + b;
      WithPriorityConcat(a[1..], b, priority);
      var head: Signal := if a[0].priority == priority then [a[0]] else [];
      var u, v := WithPriority(a[1..], priority), WithPriority(b, priority);
      assert head + (u + v) == head + u + v;
    }
  }

  lemma {:induction false} WithPriorityMember(signal: Signal, slot: Slot)
    ensures slot in signal <==> slot in WithPriority(signal, slot.priority)
  {
    if signal != [] {
      WithPriorityMember(signal[1..], slot);
      assert signal == [signal[0]] + signal[1..];
    }
  }

  lemma {:induction false} ConnectMembers(signal: Signal, slot: Slot)
    ensures forall s :: s in Connect(signal, slot) <==> s == slot || s in signal
  {
    if signal != [] && slot.priority >= signal[0].priority {
      ConnectMembers(signal[1..], slot);
      assert signal == [signal[0]] + signal[1..];
    }
  }

  lemma {:induction false} ConnectSorted(signal: Signal, slot: Slot)
    requires Sorted(signal)
    ensures Sorted(Connect(signal, slot))
  {
    if signal != [] && slot.priority >= signal[0].priority {
      var rest := Connect(signal[1..], slot);
      ConnectSorted(signal[1..], slot);
      ConnectMembers(signal[1..], slot);
      forall i | 0 <= i < |rest| ensures signal[0].priority <= rest[i].priority {
        assert rest[i] in rest;
      }
    }
  }

  lemma NoneBelowFirst(signal: Signal, priority: int)
    requires Sorted(signal) && signal != [] && priority < signal[0].priority
    ensures WithPriority(signal, priority) == []
  {
    if WithPriority(signal, priority) != [] {
      WithPriorityElements(signal, priority, WithPriority(signal, priority)[0]);
    }
  }

  lemma {:induction false} WithPriorityElements(signal: Signal, priority: int, s: Slot)
    requires s in WithPriority(signal, priority)
    ensures s in signal && s.priority == priority
  {
    if s !in WithPriority(signal[1..], priority) {
      assert s == signal[0];
    } else {
      WithPriorityElements(signal[1..], priority, s);
    }
  }

  lemma {:induction false} ConnectWithPriority(signal: Signal, slot: Slot, priority: int)
    requires Sorted(signal)
    ensures WithPriority(Connect(signal, slot), priority) == WithPriority(signal + [slot], priority)
  {
    WithPriorityConcat(signal, [slot], priority);
    if signal != [] {
      if slot.priority < signal[0].priority {
        if priority == slot.priority {
          NoneBelowFirst(signal, priority);
        }
      } else {
        ConnectWithPriority(signal[1..], slot, priority);
        WithPriorityConcat(signal[1..], [slot], priority);
      }
    }
  }

  lemma ConnectStable(signal: Signal, slot: Slot, order: seq<Slot>)
    requires StableSort(signal, order)
    ensures StableSort(Connect(signal, slot), order + [slot])
  {
    ConnectSorted(signal, slot);
    forall priority ensures WithPriority(Connect(signal, slot), priority) == WithPriority(order + [slot], priority) {
      ConnectWithPriority(signal, slot, priority);
      WithPriorityConcat(signal, [slot], priority);
      WithPriorityConcat(order, [slot], priority);
    }
  }

  /** A list of slots has one stable sort. */
  lemma StableSortUnique(a: Signal, b: Signal, order: seq<Slot>)
    requires StableSort(a, order) && StableSort(b, order)
    ensures a == b
  {
    SameByPriority(a, b);
  }

  lemma {:induction false} SameByPriority(a: Signal, b: Signal)
    requires Sorted(a) && Sorted(b)
    requires forall priority :: WithPriority(a, priority) == WithPriority(b, priority)
    ensures a == b
  {
    hide WithPriority;
    if a == [] || b == [] {
      var x := if a == [] then b else a;
      if x != [] {
        HeadWithPriority(x);
      }
    } else {
      LowestFirst(a, b);
      LowestFirst(b, a);
      HeadWithPriority(a);
      HeadWithPriority(b);
      forall q ensures WithPriority(a[1..], q) == WithPriority(b[1..], q) {
        TailWithPriority(a, q);
        TailWithPriority(b, q);
      }
      SameByPriority(a[1..], b[1..]);
      assert a == [a[0]] + a[1..] && b == [b[0]] + b[1..];
    }
  }

  lemma HeadWithPriority(signal: Signal)
    requires signal != []
    ensures WithPriority(signal, signal[0].priority) != []
    ensures WithPriority(signal, signal[0].priority)[0] == signal[0]
    ensures WithPriority([], signal[0].priority) == []
  {
  }

  lemma TailWithPriority(signal: Signal, priority: int)
    requires signal != []
    ensures WithPriority(signal[1..], priority) ==
            if signal[0].priority == priority then WithPriority(signal, priority)[1..]
            else WithPriority(signal, priority)
  {
  }

  lemma LowestFirst(a: Signal, b: Signal)
    requires Sorted(a) && Sorted(b) && a != [] && b != []
    requires forall priority :: WithPriority(a, priority) == WithPriority(b, priority)
    ensures a[0].priority <= b[0].priority
  {
    WithPriorityMember(b, b[0]);
    assert b[0] in WithPriority(a, b[0].priority);
    WithPriorityElements(a, b[0].priority, b[0]);
  }

  // ---------------------------------------------------------------- the stable sort as a rearrangement

  /** `at` lists the positions of `order` in calling order: each once, by priority and then by position. */
  ghost predicate CallOrder(at: seq<nat>, order: seq<Slot>) {
    && |at| == |order|
    && (forall i :: 0 <= i < |at| ==> at[i] < |order|)
    && (forall i, j :: 0 <= i < j < |at| ==> Before(order, at[i], at[j]))
  }

  predicate Before(order: seq<Slot>, a: nat, b: nat) {
    && a < |order| && b < |order|
    && (order[a].priority < order[b].priority || (order[a].priority == order[b].priority && a < b))
  }

  ghost predicate Rearranged(signal: Signal, order: seq<Slot>, at: seq<nat>) {
    CallOrder(at, order) && |signal| == |at| && forall i :: 0 <= i < |at| ==> signal[i] == order[at[i]]
  }

  /** Where a slot is connected: after every slot that is not of a greater priority. */
  lemma {:induction false} ConnectAt(signal: Signal, slot: Slot) returns (k: nat)
    requires Sorted(signal)
    ensures k <= |signal| && Connect(signal, slot) == InsertAt(signal, k, slot)
    ensures forall i :: 0 <= i < k ==> signal[i].priority <= slot.priority
    ensures forall i :: k <= i < |signal| ==> slot.priority < signal[i].priority
  {
    if signal == [] || slot.priority < signal[0].priority {
      k := 0;
    } else {
      var rest := ConnectAt(signal[1..], slot);
      k := rest + 1;
      assert signal[..k] == [signal[0]] + signal[1..][..rest] && signal[k..] == signal[1..][rest..];
    }
  }

  function InsertAt<T>(s: seq<T>, k: nat, x: T): (r: seq<T>)
    requires k <= |s|
    ensures |r| == |s| + 1 && r[k] == x
    ensures forall i :: 0 <= i < k ==> r[i] == s[i]
    ensures forall i :: k < i < |r| ==> r[i] == s[i - 1]
  {
    s[..k] + [x] + s[k..]
  }

  lemma RearrangeOne(signal: Signal, order: seq<Slot>, at: seq<nat>, slot: Slot, k: nat)
    requires Rearranged(signal, order, at) && k <= |signal|
    requires forall i :: 0 <= i < k ==> signal[i].priority <= slot.priority
    requires forall i :: k <= i < |signal| ==> slot.priority < signal[i].priority
    ensures Rearranged(InsertAt(signal, k, slot), order + [slot], InsertAt(at, k, |order|))
  {
    hide InsertAt;
    var more, at' := order + [slot], InsertAt(at, k, |order|);
    forall i, j | 0 <= i < j < |at'| ensures Before(more, at'[i], at'[j]) {
      if i != k && j != k {
        assert Before(order, at[if i < k then i else i - 1], at[if j < k then j else j - 1]);
      } else if j == k {
        assert signal[i] == order[at[i]];
      } else {
        assert signal[j - 1] == order[at[j - 1]];
      }
    }
  }

  /** Every list of slots can be rearranged so, and connecting its slots one by one does it. */
  lemma {:induction false} RearrangementExists(order: seq<Slot>) returns (signal: Signal, at: seq<nat>)
    ensures Rearranged(signal, order, at) && StableSort(signal, order)
  {
    if order == [] {
      signal, at := [], [];
    } else {
      var before, slot := order[..|order| - 1], order[|order| - 1];
      assert order == before + [slot];
      var sorted, at0 := RearrangementExists(before);
      var k := ConnectAt(sorted, slot);
      RearrangeOne(sorted, before, at0, slot, k);
      ConnectStable(sorted, slot, before);
      signal, at := Connect(sorted, slot), InsertAt(at0, k, |before|);
    }
  }

  /** No more than `m` positions lie below `m`. */
  lemma {:induction false} FewBelow(at: seq<nat>, m: nat)
    requires forall i, j :: 0 <= i < j < |at| ==> at[i] != at[j]
    requires forall i :: 0 <= i < |at| ==> at[i] < m
    ensures |at| <= m
    decreases m
  {
    if at != [] {
      assert 0 <= at[0] < m;
      if k :| 0 <= k < |at| && at[k] == m - 1 {
        FewBelow(at[..k] + at[k + 1..], m - 1);
      } else {
        FewBelow(at, m - 1);
      }
    }
  }

  lemma LastPosition(at: seq<nat>, order: seq<Slot>) returns (k: nat)
    requires CallOrder(at, order) && order != []
    ensures k < |at| && at[k] == |order| - 1
  {
    forall i, j | 0 <= i < j < |at| ensures at[i] != at[j] {
      assert Before(order, at[i], at[j]);
    }
    if forall i :: 0 <= i < |at| ==> at[i] != |order| - 1 {
      FewBelow(at, |order| - 1);
    }
    k :| k < |at| && at[k] == |order| - 1;
  }

  lemma WithoutLast(signal: Signal, order: seq<Slot>, at: seq<nat>, k: nat)
    requires Rearranged(signal, order, at) && k < |at| && at[k] == |order| - 1
    ensures Rearranged(signal[..k] + signal[k + 1..], order[..|order| - 1], at[..k] + at[k + 1..])
    ensures forall i :: 0 <= i < k ==> signal[i].priority <= signal[k].priority
    ensures forall i :: k < i < |signal| ==> signal[k].priority < signal[i].priority
  {
    var less, at' := order[..|order| - 1], at[..k] + at[k + 1..];
    forall i | 0 <= i < |at| && i != k ensures at[i] < |less| {
      assert Before(order, at[if i < k then i else k], at[if i < k then k else i]);
    }
    forall i, j | 0 <= i < j < |at'| ensures Before(less, at'[i], at'[j]) {
      assert Before(order, at[if i < k then i else i + 1], at[if j < k then j else j + 1]);
    }
    forall i | 0 <= i < |signal| && i != k
      ensures i < k ==> signal[i].priority <= signal[k].priority
      ensures i > k ==> signal[k].priority < signal[i].priority
    {
      assert Before(order, at[if i < k then i else k], at[if i < k then k else i]);
    }
  }

  /** Taken out and connected again, such a slot is back in its place. */
  lemma ConnectsBack(signal: Signal, others: Signal, k: nat)
    requires k < |signal| && others == signal[..k] + signal[k + 1..] && Sorted(others)
    requires forall i :: 0 <= i < k ==> signal[i].priority <= signal[k].priority
    requires forall i :: k < i < |signal| ==> signal[k].priority < signal[i].priority
    ensures Connect(others, signal[k]) == signal
  {
    hide Connect, Sorted;
    var k' := ConnectAt(others, signal[k]);
    assert k < |others| ==> signal[k].priority < others[k].priority;
    assert k' < |others| ==> signal[k].priority < others[k'].priority;
  }

  lemma {:induction false} RearrangedStable(signal: Signal, order: seq<Slot>, at: seq<nat>)
    requires Rearranged(signal, order, at)
    ensures StableSort(signal, order)
    decreases |order|
  {
    if order != [] {
      var before, slot := order[..|order| - 1], order[|order| - 1];
      var k := LastPosition(at, order);
      var others := signal[..k] + signal[k + 1..];
      WithoutLast(signal, order, at, k);
      RearrangedStable(others, before, at[..k] + at[k + 1..]);
      ConnectsBack(signal, others, k);
      assert order == before + [slot] && signal[k] == slot;
      ConnectStable(others, slot, before);
    }
  }

  /**
    What a stable sort is without priority classes: its slots are those of `order`, each once, those
    of a lower priority first and those of one priority in the order of `order`.
   */
  lemma StableSortRearranges(signal: Signal, order: seq<Slot>)
    ensures StableSort(signal, order) <==> exists at :: Rearranged(signal, order, at)
  {
    if StableSort(signal, order) {
      var sorted, at := RearrangementExists(order);
      StableSortUnique(signal, sorted, order);
    }
    if at :| Rearranged(signal, order, at) {
      RearrangedStable(signal, order, at);
    }
  }

  // ---------------------------------------------------------------- running a signal

  /** The response after the first `k` handlers have run. */
  function StateAfter(signal: Signal, request: RequestView, res: ResponseState, k: nat): ResponseState
    requires k <= |signal|
  {
    if k == 0 then res else signal[k - 1].handler(request, StateAfter(signal, request, res, k - 1)).state
  }

  /** What the handler at index `k` returns. */
  function ReturnOf(signal: Signal, request: RequestView, res: ResponseState, k: nat): Str
    requires k < |signal|
  {
    signal[k].handler(request, StateAfter(signal, request, res, k)).value
  }

  /** How many handlers run once `k` have run without leaving the response ended. */
  function CallsFrom(signal: Signal, request: RequestView, res: ResponseState, k: nat): (n: nat)
    requires k <= |signal|
    ensures k <= n <= |signal|
    ensures k < |signal| ==> k < n
    ensures forall j :: k < j < n ==> !StateAfter(signal, request, res, j).ended
    ensures n < |signal| ==> StateAfter(signal, request, res, n).ended
    decreases |signal| - k
  {
    if k == |signal| then k
    else if StateAfter(signal, request, res, k + 1).ended then k + 1
    else CallsFrom(signal, request, res, k + 1)
  }

  /** How many handlers run: up to and including the first that leaves the response ended. */
  function CallCount(signal: Signal, request: RequestView, res: ResponseState): nat {
    CallsFrom(signal, request, res, 0)
  }

  /** The result of a run: the body of a response that was ended, or else the last value returned. */
  function Combined(signal: Signal, request: RequestView, res: ResponseState): Str {
    var n := CallCount(signal, request, res);
    if n == 0 then []
    else if StateAfter(signal, request, res, n).ended then StateAfter(signal, request, res, n).body
    else ReturnOf(signal, request, res, n - 1)
  }

  /** `states` are those of a response that the first handlers of `signal` are let at one after the other. */
  ghost predicate Threaded(signal: Signal, request: RequestView, states: seq<ResponseState>) {
    && 0 < |states| <= |signal| + 1
    && forall j :: 0 <= j < |states| - 1 ==> states[j + 1] == signal[j].handler(request, states[j]).state
  }

  lemma {:induction false} ThreadedStates(signal: Signal, request: RequestView, states: seq<ResponseState>, k: nat)
    requires Threaded(signal, request, states) && k < |states|
    ensures StateAfter(signal, request, states[0], k) == states[k]
  {
    if k > 0 {
      ThreadedStates(signal, request, states, k - 1);
      assert states[k - 1 + 1] == signal[k - 1].handler(request, states[k - 1]).state;
    }
  }

  /**
    A run calls exactly the first `n` handlers if none of them but perhaps the last leaves the
    response ended, and the last does unless it is the last of all. The result is the body of a
    response that was ended, or else what the last of them returned.
   */
  lemma RunsThrough(signal: Signal, request: RequestView, states: seq<ResponseState>)
    requires Threaded(signal, request, states)
    requires var n := |states| - 1;
             && 0 < n
             && (forall j :: 0 < j < n ==> !states[j].ended)
             && (n < |signal| ==> states[n].ended)
    ensures var n := |states| - 1;
            && CallCount(signal, request, states[0]) == n
            && StateAfter(signal, request, states[0], n) == states[n]
            && Combined(signal, request, states[0]) ==
                 if states[n].ended then states[n].body else signal[n - 1].handler(request, states[n - 1]).value
  {
    forall k: nat | k < |states| ensures StateAfter(signal, request, states[0], k) == states[k] {
      ThreadedStates(signal, request, states, k);
    }
    CallsAre(signal, request, states[0], |states| - 1);
  }

  lemma CallsAre(signal: Signal, request: RequestView, res: ResponseState, n: nat)
    requires 0 < n <= |signal|
    requires forall j :: 0 < j < n ==> !StateAfter(signal, request, res, j).ended
    requires n < |signal| ==> StateAfter(signal, request, res, n).ended
    ensures CallCount(signal, request, res) == n
  {
  }

  class RouteCombiner {
    var req: RequestImpl?
    var res: ResponseImpl?

    constructor ()
    {
      req := null;
      res := null;
    }

    method SetRequest(req_: RequestImpl?) returns (rc: int)
      modifies this`req
      ensures rc == 0 && req == req_
    {
      req := req_;
      rc := 0;
    }

    method SetResponse(res_: ResponseImpl?) returns (rc: int)
      modifies this`res
      ensures rc == 0 && res == res_
    {
      res := res_;
      rc := 0;
    }

    /** Dereferencing the iterator calls the slot; `calls` counts the slots called. */
    method Combine(signal: Signal) returns (value: Str, ghost calls: nat)
      requires req != null && res != null
      modifies res`bodyStr, res`writableEndedFlag
      ensures calls == CallCount(signal, req.View(), old(res.View()))
      ensures value == Combined(signal, req.View(), old(res.View()))
      ensures res.View() == StateAfter(signal, req.View(), old(res.View()), calls)
    {
      calls := 0;
      if |signal| == 0 {
        return [], 0;
      }
      var valueLast: Str := [];
      var first := 0;
      while first != |signal|
        invariant first <= |signal|
        invariant res.View() == StateAfter(signal, req.View(), old(res.View()), first)
        invariant CallCount(signal, req.View(), old(res.View())) ==
                    CallsFrom(signal, req.View(), old(res.View()), first)
        invariant first > 0 ==> !res.View().ended
        invariant first > 0 ==> valueLast == ReturnOf(signal, req.View(), old(res.View()), first - 1)
        decreases |signal| - first
      {
        valueLast := res.Run(signal[first].handler, req.View());
        if res.WritableEnded() {
          return res.bodyStr, first + 1;
        }
        first := first + 1;
      }
      return valueLast, first;
    }
  }
}
