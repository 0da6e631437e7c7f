/**
 The event loop of a data connection client (pkg/dataconn/client.go): requests get
 sequence numbers, responses complete the request with their number, and the first
 transport error or timeout fails everything, now and later.
 */
module DataConn {
  import opened Sectors
  import opened Sets

  const SEQ_LIMIT: nat := 0x1_0000_0000

  datatype Kind = Read | Write | Unmap | Ping

  /** A request; `id` is its identity for the caller that waits for it, `number` is 0 until it was given a number. */
  datatype Request = Request(id: nat, kind: Kind, number: nat)

  datatype Event =
    | Submit(id: nat, kind: Kind)
    | Respond(number: nat, payload: seq<byte>)
    | TransportError(message: string)
    | Tick(exceeded: bool)

  datatype Outcome = Answered(number: nat, payload: seq<byte>) | Failed(message: string)

  /** The completion that a waiting caller sees. */
  datatype Completion = Completion(id: nat, outcome: Outcome)

  predicate IsIO(kind: Kind) {
    kind != Ping
  }

  /** The numbers of the pending requests that count as I/O. */
  function PendingIO(messages: map<nat, Request>): set<nat> {
    set s | s in messages && messages[s].kind != Ping
  }

  /** Completed requests are distinct, and an answer carries the number that its request was given. */
  ghost predicate LogOk(log: seq<Completion>, given: map<nat, nat>) {
    && (forall i, j :: 0 <= i < j < |log| ==> log[i].id != log[j].id)
    && (forall i :: 0 <= i < |log| && log[i].outcome.Answered? ==>
        log[i].id in given && given[log[i].id] == log[i].outcome.number)
  }

  /** Pending requests are filed under their own number, which no other request was given, and are not completed. */
  ghost predicate PendingOk(messages: map<nat, Request>, lastSeq: nat, log: seq<Completion>, given: map<nat, nat>) {
    && (forall s :: s in messages ==>
        1 <= s <= lastSeq && messages[s].number == s && messages[s].id in given && given[messages[s].id] == s)
    && (forall s :: s in messages ==> NotLogged(log, messages[s].id))
  }

  ghost predicate NotLogged(log: seq<Completion>, x: nat) {
    forall i :: 0 <= i < |log| ==> log[i].id != x
  }

  ghost predicate GivenOk(given: map<nat, nat>, lastSeq: nat) {
    && (forall x :: x in given ==> 1 <= given[x] <= lastSeq)
    && (forall x, y :: x in given && y in given && given[x] == given[y] ==> x == y)
  }

  /** The requests went out with the numbers 1, 2, ..., each under the number that it was given. */
  ghost predicate SentOk(sent: seq<Request>, given: map<nat, nat>, lastSeq: nat) {
    && |sent| == lastSeq
    && (forall i :: 0 <= i < |sent| ==> sent[i].number == i + 1 && sent[i].id in given && given[sent[i].id] == i + 1)
  }

  /** Every submitted request is pending or completed. */
  ghost predicate Accounted(asked: set<nat>, messages: map<nat, Request>, log: seq<Completion>) {
    && (forall x :: x in asked ==> IsPending(messages, x) || IsCompleted(log, x))
    && (forall s :: s in messages ==> messages[s].id in asked)
    && (forall i :: 0 <= i < |log| ==> log[i].id in asked)
  }

  ghost predicate IsPending(messages: map<nat, Request>, x: nat) {
    exists s :: s in messages && messages[s].id == x
  }

  ghost predicate IsCompleted(log: seq<Completion>, x: nat) {
    exists i :: 0 <= i < |log| && log[i].id == x
  }

  class Client {
    var lastSeq: nat
    var messages: map<nat, Request>
    var sent: seq<Request>
    var ioInflight: int
    var clientError: Option<string>
    var log: seq<Completion>
    ghost var given: map<nat, nat>   // the number that each request got
    ghost var asked: set<nat>        // the requests submitted so far

    ghost predicate Valid()
      reads this
    {
      && lastSeq < SEQ_LIMIT
      && LogOk(log, given) && PendingOk(messages, lastSeq, log, given) && GivenOk(given, lastSeq)
      && SentOk(sent, given, lastSeq) && Accounted(asked, messages, log) && (forall x :: x in given ==> x in asked)
      && ioInflight == |PendingIO(messages)|
      && (clientError.Some? ==> messages == map[])
    }

    constructor ()
      ensures Valid() && lastSeq == 0 && clientError == None && log == [] && asked == {} && messages == map[] &&
              sent == []
    {
      lastSeq, messages, sent, ioInflight, clientError, log, given, asked := 0, map[], [], 0, None, [], map[], {};
    }

    /** Completes a request with an error. */
    method ReplyError(req: Request, message: string)
      modifies this`messages, this`log
      ensures messages == old(messages) - {req.number}
      ensures log == old(log) + [Completion(req.id, Failed(message))]
    {
      messages := messages - {req.number};
      log := log + [Completion(req.id, Failed(message))];
    }

    /** Fails all pending requests, in any order, and remembers the error. */
    method HandleClientError(message: string)
      requires Valid()
      modifies this`messages, this`log, this`ioInflight, this`clientError
      ensures Valid() && clientError == Some(message) && messages == map[] && ioInflight == 0
      ensures old(log) <= log
      ensures forall i :: |old(log)| <= i < |log| ==> log[i].outcome == Failed(message)
    {
      hide LogOk, PendingOk, GivenOk, Accounted, SentOk;
      clientError := Some(message);
      while messages != map[]
        invariant clientError == Some(message)
        invariant LogOk(log, given) && PendingOk(messages, lastSeq, log, given) && Accounted(asked, messages, log)
        invariant old(log) <= log && forall i :: |old(log)| <= i < |log| ==> log[i].outcome == Failed(message)
        decreases |messages|
      {
        var s :| s in messages;
        FailOne(messages, lastSeq, log, given, asked, s, message);
        ReplyError(messages[s], message);
      }
      ioInflight := 0;
    }

    /** Gives a request the next number, files it and sends it. */
    method HandleRequest(req: Request)
      requires lastSeq + 1 < SEQ_LIMIT
      modifies this`lastSeq, this`messages, this`sent, this`given
      ensures lastSeq == old(lastSeq) + 1
      ensures messages == old(messages)[lastSeq := req.(number := lastSeq)]
      ensures given == old(given)[req.id := lastSeq]
      ensures sent == old(sent) + [req.(number := lastSeq)]
    {
      lastSeq := (lastSeq + 1) % SEQ_LIMIT;
      messages := messages[lastSeq := req.(number := lastSeq)];
      given := given[req.id := lastSeq];
      sent := sent + [req.(number := lastSeq)];
    }

    method OnRequest(id: nat, kind: Kind)
      requires Valid() && id !in asked && lastSeq + 1 < SEQ_LIMIT
      modifies this
      ensures Valid() && asked == old(asked) + {id} && clientError == old(clientError)
      ensures lastSeq <= old(lastSeq) + 1
      ensures clientError.Some? ==>
                log == old(log) + [Completion(id, Failed(clientError.value))] && messages == map[] && sent == old(sent)
      ensures clientError.Some? ==> lastSeq == old(lastSeq)
      ensures clientError.None? ==>
                && lastSeq == old(lastSeq) + 1 && log == old(log) && IsPending(messages, id)
                && messages == old(messages)[lastSeq := Request(id, kind, lastSeq)]
                && sent == old(sent) + [Request(id, kind, lastSeq)]
    {
      hide LogOk, PendingOk, GivenOk, Accounted, SentOk;
      asked := asked + {id};
      var req := Request(id, kind, 0);
      if clientError.Some? {
        FailFast(messages, lastSeq, log, given, old(asked), id, clientError.value);
        ReplyError(req, clientError.value);
        return;
      }
      if IsIO(kind) {
        ioInflight := ioInflight + 1;
      }
      FileRequest(messages, lastSeq, log, given, old(asked), id, kind);
      FileSent(sent, given, lastSeq, id, kind, old(asked));
      HandleRequest(req);
    }

    method OnResponse(s: nat, payload: seq<byte>)
      requires Valid()
      modifies this
      ensures Valid() && asked == old(asked) && clientError == old(clientError) && lastSeq == old(lastSeq) &&
              sent == old(sent)
      ensures s !in old(messages) ==> log == old(log) && messages == old(messages)
      ensures s in old(messages) ==>
                messages == old(messages) - {s} && log == old(log) +
                    [Completion(old(messages)[s].id, Answered(s, payload))]
    {
      hide LogOk, PendingOk, GivenOk, Accounted, SentOk;
      if s !in messages {
        return;
      }
      var req := messages[s];
      AnswerOne(messages, lastSeq, log, given, asked, s, payload);
      if IsIO(req.kind) {
        ioInflight := ioInflight - 1;
      }
      messages := messages - {s};
      log := log + [Completion(req.id, Answered(s, payload))];
    }

    /** A tick of the clock fails the connection only if I/O is in flight and has been silent for too long. */
    method OnTick(exceeded: bool)
      requires Valid()
      modifies this`messages, this`log, this`ioInflight, this`clientError
      ensures Valid()
      ensures exceeded && old(ioInflight) != 0 ==> clientError == Some("r/w timeout")
      ensures !(exceeded && old(ioInflight) != 0) ==>
                log == old(log) && messages == old(messages) && clientError == old(clientError)
      ensures old(log) <= log && forall i :: |old(log)| <= i < |log| ==> log[i].outcome.Failed?
    {
      if ioInflight == 0 {
        return;
      }
      if exceeded {
        HandleClientError("r/w timeout");
      }
    }
  }

  lemma {:induction false} FailOne(messages: map<nat, Request>, lastSeq: nat, log: seq<Completion>,
                                   given: map<nat, nat>, asked: set<nat>, s: nat, message: string)
    requires LogOk(log, given) && PendingOk(messages, lastSeq, log, given) && Accounted(asked, messages, log) &&
             s in messages
    ensures messages[s].number == s
    ensures var log' := log + [Completion(messages[s].id, Failed(message))];
            LogOk(log', given) && PendingOk(messages - {s}, lastSeq, log', given) &&
                Accounted(asked, messages - {s}, log')
  {
    Completed(messages, log, asked, s, Failed(message));
  }

  lemma {:induction false} AnswerOne(messages: map<nat, Request>, lastSeq: nat, log: seq<Completion>,
                                     given: map<nat, nat>, asked: set<nat>, s: nat, payload: seq<byte>)
    requires LogOk(log, given) && PendingOk(messages, lastSeq, log, given) && Accounted(asked, messages, log) &&
             s in messages
    ensures var log' := log + [Completion(messages[s].id, Answered(s, payload))];
            LogOk(log', given) && PendingOk(messages - {s}, lastSeq, log', given) &&
                Accounted(asked, messages - {s}, log')
    ensures |PendingIO(messages - {s})| == |PendingIO(messages)| - if IsIO(messages[s].kind) then 1 else 0
  {
    Completed(messages, log, asked, s, Answered(s, payload));
    assert PendingIO(messages - {s}) == PendingIO(messages) - {s};
  }

  /** Moving a request from the pending to the completed ones loses nobody. */
  lemma {:induction false} Completed(messages: map<nat, Request>, log: seq<Completion>, asked: set<nat>, s: nat,
                                     outcome: Outcome)
    requires Accounted(asked, messages, log) && s in messages
    ensures Accounted(asked, messages - {s}, log + [Completion(messages[s].id, outcome)])
  {
    var log' := log + [Completion(messages[s].id, outcome)];
    forall x | x in asked
      ensures IsPending(messages - {s}, x) || IsCompleted(log', x)
    {
      if IsCompleted(log, x) {
        var i :| 0 <= i < |log| && log[i].id == x;
        assert log'[i].id == x;
      } else {
        var t :| t in messages && messages[t].id == x;
        if t == s {
          assert log'[|log|].id == x;
        } else {
          assert t in messages - {s};
        }
      }
    }
  }

  lemma {:induction false} FailFast(messages: map<nat, Request>, lastSeq: nat, log: seq<Completion>,
                                    given: map<nat, nat>, asked: set<nat>, id: nat, message: string)
    requires LogOk(log, given) && PendingOk(messages, lastSeq, log, given) && Accounted(asked, messages, log) &&
             id !in asked
    requires messages == map[]
    ensures var log' := log + [Completion(id, Failed(message))];
            LogOk(log', given) && PendingOk(messages, lastSeq, log', given) && Accounted(asked + {id}, messages, log')
  {
    var log' := log + [Completion(id, Failed(message))];
    forall x | x in asked + {id}
      ensures IsCompleted(log', x)
    {
      if x == id {
        assert log'[|log|].id == x;
      } else {
        var i :| 0 <= i < |log| && log[i].id == x;
        assert log'[i].id == x;
      }
    }
  }

  lemma {:induction false} FileRequest(messages: map<nat, Request>, lastSeq: nat, log: seq<Completion>,
                                       given: map<nat, nat>, asked: set<nat>, id: nat, kind: Kind)
    requires LogOk(log, given) && PendingOk(messages, lastSeq, log, given) && GivenOk(given, lastSeq) &&
             Accounted(asked, messages, log)
    requires id !in asked && id !in given
    ensures var s := lastSeq + 1;
            var messages', given' := messages[s := Request(id, kind, s)], given[id := s];
            && LogOk(log, given') && PendingOk(messages', s, log, given') && GivenOk(given', s) &&
                Accounted(asked + {id}, messages', log)
            && IsPending(messages', id)
            && |PendingIO(messages')| == |PendingIO(messages)| + if IsIO(kind) then 1 else 0
  {
    hide LogOk, PendingOk, GivenOk, Accounted, PendingIO;
    var s := lastSeq + 1;
    FiledPending(messages, lastSeq, log, given, asked, id, kind, s);
    FiledGiven(lastSeq, log, given, asked, messages, id, s);
    FiledAccounted(messages, lastSeq, log, given, asked, id, kind, s);
  }

  lemma {:induction false} FileSent(sent: seq<Request>, given: map<nat, nat>, lastSeq: nat, id: nat, kind: Kind,
                                    asked: set<nat>)
    requires SentOk(sent, given, lastSeq) && (forall x :: x in given ==> x in asked) && id !in asked
    ensures SentOk(sent + [Request(id, kind, lastSeq + 1)], given[id := lastSeq + 1], lastSeq + 1)
  {
  }

  lemma {:induction false} FiledPending(messages: map<nat, Request>, lastSeq: nat, log: seq<Completion>,
                                        given: map<nat, nat>, asked: set<nat>, id: nat, kind: Kind, s: nat)
    requires PendingOk(messages, lastSeq, log, given) && Accounted(asked, messages, log) && id !in asked &&
             id !in given && s == lastSeq + 1
    ensures PendingOk(messages[s := Request(id, kind, s)], s, log, given[id := s])
    ensures |PendingIO(messages[s := Request(id, kind, s)])| == |PendingIO(messages)| + if IsIO(kind) then 1 else 0
  {
    assert NotLogged(log, id);
    FiledIO(messages, id, kind, s);
  }

  lemma {:induction false} FiledIO(messages: map<nat, Request>, id: nat, kind: Kind, s: nat)
    requires s !in messages
    ensures |PendingIO(messages[s := Request(id, kind, s)])| == |PendingIO(messages)| + if IsIO(kind) then 1 else 0
  {
    assert PendingIO(messages[s := Request(id, kind, s)]) == PendingIO(messages) + if IsIO(kind) then {s} else {};
  }

  lemma {:induction false} FiledGiven(lastSeq: nat, log: seq<Completion>, given: map<nat, nat>, asked: set<nat>,
                                      messages: map<nat, Request>, id: nat, s: nat)
    requires LogOk(log, given) && GivenOk(given, lastSeq) && Accounted(asked, messages, log) && id !in asked &&
             id !in given && s == lastSeq + 1
    ensures LogOk(log, given[id := s]) && GivenOk(given[id := s], s)
  {
  }

  lemma {:induction false} FiledAccounted(messages: map<nat, Request>, lastSeq: nat, log: seq<Completion>,
                                          given: map<nat, nat>, asked: set<nat>, id: nat, kind: Kind, s: nat)
    requires PendingOk(messages, lastSeq, log, given) && Accounted(asked, messages, log) && s == lastSeq + 1
    ensures Accounted(asked + {id}, messages[s := Request(id, kind, s)], log) &&
            IsPending(messages[s := Request(id, kind, s)], id)
  {
    hide IsCompleted;
    var messages' := messages[s := Request(id, kind, s)];
    assert s !in messages && messages'[s].id == id;
    forall x | x in asked
      ensures IsPending(messages', x) || IsCompleted(log, x)
    {
      if !IsCompleted(log, x) {
        var t :| t in messages && messages[t].id == x;
        assert t in messages' && messages'[t].id == x;
      }
    }
  }

  // ---------------------------------------------------------------- whole runs

  /** The requests that the first `n` events submit. */
  ghost function Submitted(events: seq<Event>, n: nat): set<nat>
    requires n <= |events|
  {
    set i | 0 <= i < n && events[i].Submit? :: events[i].id
  }

  /** No request is submitted twice. */
  ghost predicate Fresh(events: seq<Event>) {
    forall i, j :: 0 <= i < j < |events| && events[i].Submit? && events[j].Submit? ==> events[i].id != events[j].id
  }

  /** How many of the first `n` events submit a request. */
  ghost function Count(events: seq<Event>, n: nat): nat
    requires n <= |events|
  {
    if n == 0 then 0 else Count(events, n - 1) + if events[n - 1].Submit? then 1 else 0
  }

  /** The number of the request that event `j` submits. */
  ghost function Num(events: seq<Event>, j: nat): nat {
    if j < |events| then Count(events, j) + 1 else 0
  }

  /** Event `j` submitted a request, and none of the events up to `n` responds to its number. */
  ghost predicate Waiting(events: seq<Event>, j: nat, n: nat) {
    && j < n <= |events| && events[j].Submit?
    && forall m :: j < m < n ==> !(events[m].Respond? && events[m].number == Num(events, j))
  }

  /** Event `k` breaks the connection: a transport error, or too long a silence while I/O is waiting. */
  ghost predicate Breaks(events: seq<Event>, k: nat) {
    && k < |events|
    && (events[k].TransportError? || (events[k].Tick? && events[k].exceeded && exists j :: WaitingIO(events, j, k)))
  }

  ghost predicate WaitingIO(events: seq<Event>, j: nat, n: nat) {
    Waiting(events, j, n) && events[j].kind != Ping
  }

  /** The completion is the answer to the request of event `j`, with the first response to its number, event `m`. */
  ghost predicate AnswerAt(events: seq<Event>, j: nat, m: nat, c: Completion) {
    && Waiting(events, j, m) && m < |events| && events[j].id == c.id
    && c.outcome.Answered? && c.outcome.number == Num(events, j)
    && events[m] == Respond(Num(events, j), c.outcome.payload)
  }

  /** Every answer in the log comes from one of the first `n` events. */
  ghost predicate LogFrom(events: seq<Event>, n: nat, log: seq<Completion>) {
    forall i :: 0 <= i < |log| && log[i].outcome.Answered? ==>
        exists j: nat, m: nat :: m < n && AnswerAt(events, j, m, log[i])
  }

  /** The pending messages are the requests still waiting, under their numbers. */
  ghost predicate PendingAre(events: seq<Event>, n: nat, messages: map<nat, Request>) {
    && (forall j: nat :: Waiting(events, j, n) ==> FiledAs(events, j, messages))
    && (forall s :: s in messages ==> WaitsFor(events, n, s))
  }

  /** The request of event `j` is pending under its number. */
  ghost predicate FiledAs(events: seq<Event>, j: nat, messages: map<nat, Request>) {
    && j < |events| && events[j].Submit? && Num(events, j) in messages
    && messages[Num(events, j)] == Request(events[j].id, events[j].kind, Num(events, j))
  }

  /** A request with this number is waiting. */
  ghost predicate WaitsFor(events: seq<Event>, n: nat, number: nat) {
    exists j: nat :: Waiting(events, j, n) && Num(events, j) == number
  }

  /** Every request of the first `n` events that got a response was answered. */
  ghost predicate AnsweredAll(events: seq<Event>, n: nat, log: seq<Completion>) {
    n <= |events| &&
    forall j: nat :: j < n && events[j].Submit? && !Waiting(events, j, n) ==> IsAnswered(log, events[j].id)
  }

  ghost predicate IsAnswered(log: seq<Completion>, x: nat) {
    exists i :: 0 <= i < |log| && log[i].id == x && log[i].outcome.Answered?
  }

  lemma {:induction false} AnsweredStay(log: seq<Completion>, log': seq<Completion>)
    requires log <= log'
    ensures forall x :: IsAnswered(log, x) ==> IsAnswered(log', x)
  {
    forall x | IsAnswered(log, x)
      ensures IsAnswered(log', x)
    {
      var i :| 0 <= i < |log| && log[i].id == x && log[i].outcome.Answered?;
      assert log'[i] == log[i];
    }
  }

  /** The log after one more event, which answered whoever stopped waiting. */
  lemma {:induction false} AnsweredNext(events: seq<Event>, i: nat, messages: map<nat, Request>, log: seq<Completion>,
                                        log': seq<Completion>)
    requires i < |events| && AnsweredAll(events, i, log) && PendingAre(events, i, messages) && log <= log'
    requires events[i].Respond? && events[i].number in messages ==>
               |log'| == |log| + 1 && log'[|log|].id == messages[events[i].number].id && log'[|log|].outcome.Answered?
    ensures AnsweredAll(events, i + 1, log')
  {
    hide Waiting, Num;
    AnsweredStay(log, log');
    forall j: nat | j < i + 1 && events[j].Submit? && !Waiting(events, j, i + 1)
      ensures IsAnswered(log', events[j].id)
    {
      WaitingNext(events, j, i);
      if Waiting(events, j, i) {
        assert FiledAs(events, j, messages);
        assert log'[|log|].id == events[j].id;
      }
    }
  }

  /** The requests of the first `n` events, with their numbers. */
  ghost function Sent(events: seq<Event>, n: nat): seq<Request>
    requires n <= |events|
  {
    if n == 0 then []
    else if events[n - 1].Submit? then
      Sent(events, n - 1) + [Request(events[n - 1].id, events[n - 1].kind, Num(events, n - 1))]
    else Sent(events, n - 1)
  }

  /** The client after `n` events that did not break the connection. */
  ghost predicate Tracks(events: seq<Event>, n: nat, c: (nat, map<nat, Request>, seq<Completion>, seq<Request>)) {
    && n <= |events| && c.0 == Count(events, n) && PendingAre(events, n, c.1)
    && LogFrom(events, n, c.2) && AnsweredAll(events, n, c.2) && c.3 == Sent(events, n)
  }

  /**
   Runs the loop over a sequence of events; `failedAt` is the number of events after which it first had an error: the
   first event that breaks the connection. Up to there every request is sent under the next number, and is answered by
   the first response to that number; afterwards every request fails.
   */
  method Loop(events: seq<Event>) returns (c: Client, ghost failedAt: Option<nat>)
    requires |Submitted(events, |events|)| < SEQ_LIMIT && Fresh(events)
    ensures fresh(c) && c.Valid() && c.asked == Submitted(events, |events|)
    ensures c.clientError.Some? <==> failedAt.Some?
    ensures failedAt.Some? ==> && 1 <= failedAt.value <= |events| && Breaks(events, failedAt.value - 1)
                               && (forall k :: 0 <= k < failedAt.value - 1 ==> !Breaks(events, k))
                               && c.messages == map[] && c.sent == Sent(events, failedAt.value - 1)
                               && LogFrom(events, failedAt.value - 1, c.log)
                               && AnsweredAll(events, failedAt.value - 1, c.log)
    ensures failedAt.Some? ==>
              forall i :: failedAt.value <= i < |events| && events[i].Submit? ==> IsFailed(c.log, events[i].id)
    ensures failedAt.None? ==> && (forall k :: 0 <= k < |events| ==> !Breaks(events, k))
                               && PendingAre(events, |events|, c.messages) && c.sent == Sent(events, |events|)
                               && LogFrom(events, |events|, c.log) && AnsweredAll(events, |events|, c.log)
    ensures failedAt.None? ==> forall i :: 0 <= i < |c.log| ==> c.log[i].outcome.Answered?
  {
    hide Client.Valid, IsFailed, Submitted, Fresh, Tracks, Breaks, Broken, LogFrom, AnsweredAll, PendingAre, Sent;
    c := new Client();
    failedAt := None;
    NoneSubmitted(events);
    NoneTracked(events);
    for i := 0 to |events|
      invariant fresh(c) && c.Valid() && c.asked == Submitted(events, i) && c.lastSeq <= |c.asked|
      invariant (c.clientError.Some? <==> failedAt.Some?) && (failedAt.Some? ==> c.messages == map[])
      invariant failedAt.Some? ==> Broken(events, i, failedAt.value, c.messages, c.log, c.sent)
      invariant failedAt.None? ==> Tracks(events, i, (c.lastSeq, c.messages, c.log, c.sent))
      invariant failedAt.None? ==> forall k :: 0 <= k < i ==> !Breaks(events, k)
      invariant failedAt.None? ==> forall k :: 0 <= k < |c.log| ==> c.log[k].outcome.Answered?
    {
      ghost var lastSeq, messages, log, sent := c.lastSeq, c.messages, c.log, c.sent;
      SubmittedNext(events, i);
      SubmittedFew(events, i + 1);
      InflightWaiting(c, events, i);
      match events[i] {
        case Submit(id, kind) => c.OnRequest(id, kind);
        case Respond(number, payload) => c.OnResponse(number, payload);
        case TransportError(message) => c.HandleClientError(message);
        case Tick(exceeded) => c.OnTick(exceeded);
      }
      if failedAt.Some? {
        StillBroken(events, i, failedAt.value, messages, log, sent, c.messages, c.log, c.sent);
      } else {
        BreaksNow(events, i);
        if c.clientError.Some? {
          failedAt := Some(i + 1);
          BrokenNow(events, i, lastSeq, messages, log, sent, c.messages, c.log, c.sent);
        } else {
          TracksNext(events, i, lastSeq, messages, log, sent, c.lastSeq, c.messages, c.log, c.sent);
        }
      }
    }
    if failedAt.Some? {
      BrokenAll(events, failedAt.value, c.messages, c.log, c.sent);
    } else {
      TrackedAll(events, c.lastSeq, c.messages, c.log, c.sent);
    }
  }

  /** The connection broke at event `f - 1`. */
  ghost predicate Broken(events: seq<Event>, n: nat, f: nat, messages: map<nat, Request>, log: seq<Completion>,
                         sent: seq<Request>) {
    && 1 <= f <= n <= |events| && Breaks(events, f - 1) && (forall k :: 0 <= k < f - 1 ==> !Breaks(events, k))
    && messages == map[] && sent == Sent(events, f - 1) && LogFrom(events, f - 1, log) &&
        AnsweredAll(events, f - 1, log)
    && (forall k :: f <= k < n && events[k].Submit? ==> IsFailed(log, events[k].id))
  }

  lemma {:induction false} NoneTracked(events: seq<Event>)
    ensures Tracks(events, 0, (0, map[], [], []))
  {
  }

  lemma {:induction false} BrokenAll(events: seq<Event>, f: nat, messages: map<nat, Request>, log: seq<Completion>,
                                     sent: seq<Request>)
    requires Broken(events, |events|, f, messages, log, sent)
    ensures 1 <= f <= |events| && Breaks(events, f - 1) && (forall k :: 0 <= k < f - 1 ==> !Breaks(events, k))
    ensures messages == map[] && sent == Sent(events, f - 1)
    ensures LogFrom(events, f - 1, log) && AnsweredAll(events, f - 1, log)
    ensures forall i :: f <= i < |events| && events[i].Submit? ==> IsFailed(log, events[i].id)
  {
  }

  lemma {:induction false} TrackedAll(events: seq<Event>, lastSeq: nat, messages: map<nat, Request>,
                                      log: seq<Completion>, sent: seq<Request>)
    requires Tracks(events, |events|, (lastSeq, messages, log, sent))
    ensures PendingAre(events, |events|, messages) && sent == Sent(events, |events|)
    ensures LogFrom(events, |events|, log) && AnsweredAll(events, |events|, log)
  {
  }

  /** I/O is in flight exactly if a request for I/O is waiting. */
  lemma {:induction false} InflightWaiting(c: Client, events: seq<Event>, n: nat)
    requires c.Valid()
    ensures Tracks(events, n, (c.lastSeq, c.messages, c.log, c.sent)) ==>
              (c.ioInflight != 0 <==> exists j :: WaitingIO(events, j, n))
  {
    if Tracks(events, n, (c.lastSeq, c.messages, c.log, c.sent)) {
      if j :| WaitingIO(events, j, n) {
        assert Num(events, j) in PendingIO(c.messages);
      } else if c.ioInflight != 0 {
        assert PendingIO(c.messages) != {};
        var s :| s in PendingIO(c.messages);
        var j: nat :| Waiting(events, j, n) && Num(events, j) == s;
        assert WaitingIO(events, j, n);
      }
    }
  }

  lemma {:induction false} BreaksNow(events: seq<Event>, i: nat)
    requires i < |events|
    ensures Breaks(events, i) <==>
            events[i].TransportError? || (events[i].Tick? && events[i].exceeded && exists j :: WaitingIO(events, j, i))
  {
  }

  /** A failed client stays failed, and fails what is submitted. */
  lemma {:induction false} StillBroken(events: seq<Event>, i: nat, f: nat, messages: map<nat, Request>,
                                       log: seq<Completion>, sent: seq<Request>, messages': map<nat, Request>,
                                       log': seq<Completion>, sent': seq<Request>)
    requires i < |events| && Broken(events, i, f, messages, log, sent)
    requires messages' == map[] && sent' == sent && log <= log'
    requires forall k :: |log| <= k < |log'| ==> log'[k].outcome.Failed?
    requires events[i].Submit? ==> |log'| == |log| + 1 && log'[|log|].id == events[i].id
    ensures Broken(events, i + 1, f, messages', log', sent')
  {
    hide Breaks, IsFailed, AnswerAt, IsAnswered;
    FailedStay(log, log');
    AnsweredStay(log, log');
    LogGrows(events, f - 1, f - 1, log, log');
    if events[i].Submit? {
      FailedNow(log, log', events[i].id);
    }
  }

  /** Failures add no answers, and later events take none away. */
  lemma {:induction false} LogGrows(events: seq<Event>, n: nat, n': nat, log: seq<Completion>, log': seq<Completion>)
    requires LogFrom(events, n, log) && n <= n' && log <= log'
    requires forall k :: |log| <= k < |log'| ==> log'[k].outcome.Failed?
    ensures LogFrom(events, n', log')
  {
    hide AnswerAt;
    forall i | 0 <= i < |log'| && log'[i].outcome.Answered?
      ensures exists j: nat, m: nat :: m < n' && AnswerAt(events, j, m, log'[i])
    {
      assert log'[i] == log[i];
      var j: nat, m: nat :| m < n && AnswerAt(events, j, m, log[i]);
    }
  }

  lemma {:induction false} BrokenNow(events: seq<Event>, i: nat, lastSeq: nat, messages: map<nat, Request>,
                                     log: seq<Completion>, sent: seq<Request>, messages': map<nat, Request>,
                                     log': seq<Completion>, sent': seq<Request>)
    requires i < |events| && Tracks(events, i, (lastSeq, messages, log, sent))
    requires Breaks(events, i) && forall k :: 0 <= k < i ==> !Breaks(events, k)
    requires messages' == map[] && sent' == sent && log <= log'
    requires forall k :: |log| <= k < |log'| ==> log'[k].outcome.Failed?
    ensures Broken(events, i + 1, i + 1, messages', log', sent')
  {
    hide Breaks, IsFailed, LogFrom, IsAnswered;
    LogGrows(events, i, i, log, log');
    AnsweredStay(log, log');
  }

  /** What an event does that does not break the connection. */
  lemma {:induction false} TracksNext(events: seq<Event>, i: nat, lastSeq: nat, messages: map<nat, Request>,
                                      log: seq<Completion>, sent: seq<Request>, lastSeq': nat,
                                      messages': map<nat, Request>, log': seq<Completion>, sent': seq<Request>)
    requires i < |events| && Tracks(events, i, (lastSeq, messages, log, sent)) && !events[i].TransportError?
    requires events[i].Submit? ==>
               && lastSeq' == lastSeq + 1 && log' == log &&
                   sent' == sent + [Request(events[i].id, events[i].kind, lastSeq')]
               && messages' == messages[lastSeq' := Request(events[i].id, events[i].kind, lastSeq')]
    requires events[i].Respond? && events[i].number in messages ==>
               && lastSeq' == lastSeq && sent' == sent && messages' == messages - {events[i].number}
               && log' == log + [Completion(messages[events[i].number].id,
                   Answered(events[i].number, events[i].payload))]
    requires events[i].Tick? || (events[i].Respond? && events[i].number !in messages) ==>
               lastSeq' == lastSeq && messages' == messages && log' == log && sent' == sent
    ensures Tracks(events, i + 1, (lastSeq', messages', log', sent'))
  {
    hide LogFrom, PendingAre, Waiting, AnsweredAll;
    AnsweredNext(events, i, messages, log, log');
    match events[i]
    case Submit(_, _) =>
      PendingSubmit(events, i, messages);
      LogGrows(events, i, i + 1, log, log');
    case Respond(number, payload) =>
      PendingRespond(events, i, messages);
      if number in messages {
        LogRespond(events, i, messages, log);
      } else {
        LogGrows(events, i, i + 1, log, log');
      }
    case Tick(_) =>
      PendingTick(events, i, messages);
      LogGrows(events, i, i + 1, log, log');
  }

  /** Earlier requests have smaller numbers. */
  lemma {:induction false} NumGrows(events: seq<Event>, j: nat, n: nat)
    requires j < n <= |events| && events[j].Submit?
    ensures Num(events, j) <= Count(events, n)
    decreases n
  {
    if j < n - 1 {
      NumGrows(events, j, n - 1);
    }
  }

  lemma {:induction false} NumsDiffer(events: seq<Event>, j: nat, k: nat)
    requires j < |events| && k < |events| && events[j].Submit? && events[k].Submit? && Num(events, j) == Num(events, k)
    ensures j == k
  {
    if j < k {
      NumGrows(events, j, k);
    } else if k < j {
      NumGrows(events, k, j);
    }
  }

  /** Who waits after one more event. */
  lemma {:induction false} WaitingNext(events: seq<Event>, j: nat, n: nat)
    requires n < |events|
    ensures Waiting(events, j, n + 1) <==>
            (Waiting(events, j, n) && !(events[n].Respond? && events[n].number == Num(events, j))) ||
                (j == n && events[n].Submit?)
  {
  }

  lemma {:induction false} PendingSubmit(events: seq<Event>, i: nat, messages: map<nat, Request>)
    requires i < |events| && events[i].Submit? && PendingAre(events, i, messages)
    ensures var s := Num(events, i);
            PendingAre(events, i + 1, messages[s := Request(events[i].id, events[i].kind, s)])
  {
    hide Waiting, Num;
    var s := Num(events, i);
    var next := messages[s := Request(events[i].id, events[i].kind, s)];
    WaitingNext(events, i, i);
    forall j: nat | Waiting(events, j, i + 1)
      ensures FiledAs(events, j, next)
    {
      WaitingFacts(events, j, i + 1);
      WaitingNext(events, j, i);
      if Num(events, j) == s {
        NumsDiffer(events, j, i);
      }
    }
    forall t | t in next
      ensures WaitsFor(events, i + 1, t)
    {
      if t != s {
        var j: nat :| Waiting(events, j, i) && Num(events, j) == t;
        WaitingNext(events, j, i);
      }
    }
  }

  lemma {:induction false} WaitingFacts(events: seq<Event>, j: nat, n: nat)
    requires Waiting(events, j, n)
    ensures j < n <= |events| && events[j].Submit?
  {
  }

  lemma {:induction false} PendingRespond(events: seq<Event>, i: nat, messages: map<nat, Request>)
    requires i < |events| && events[i].Respond? && PendingAre(events, i, messages)
    ensures PendingAre(events, i + 1, messages - {events[i].number})
    ensures events[i].number !in messages ==> PendingAre(events, i + 1, messages)
  {
    hide Waiting, Num;
    var next := messages - {events[i].number};
    assert events[i].number !in messages ==> next == messages;
    forall j: nat | Waiting(events, j, i + 1)
      ensures FiledAs(events, j, next)
    {
      WaitingNext(events, j, i);
    }
    forall t | t in next
      ensures WaitsFor(events, i + 1, t)
    {
      var j: nat :| Waiting(events, j, i) && Num(events, j) == t;
      WaitingNext(events, j, i);
    }
  }

  lemma {:induction false} PendingTick(events: seq<Event>, i: nat, messages: map<nat, Request>)
    requires i < |events| && events[i].Tick? && PendingAre(events, i, messages)
    ensures PendingAre(events, i + 1, messages)
  {
    hide Waiting, Num;
    forall j: nat
      ensures Waiting(events, j, i + 1) <==> Waiting(events, j, i)
    {
      WaitingNext(events, j, i);
    }
    forall t | t in messages
      ensures WaitsFor(events, i + 1, t)
    {
      var j: nat :| Waiting(events, j, i) && Num(events, j) == t;
    }
  }

  /** A response answers the request that waits under its number. */
  lemma {:induction false} LogRespond(events: seq<Event>, i: nat, messages: map<nat, Request>, log: seq<Completion>)
    requires i < |events| && events[i].Respond? && events[i].number in messages
    requires PendingAre(events, i, messages) && LogFrom(events, i, log)
    ensures LogFrom(events, i + 1,
                    log + [Completion(messages[events[i].number].id, Answered(events[i].number, events[i].payload))])
  {
    hide Waiting, Num;
    var n := events[i].number;
    var log' := log + [Completion(messages[n].id, Answered(n, events[i].payload))];
    forall k | 0 <= k < |log'| && log'[k].outcome.Answered?
      ensures exists j: nat, m: nat :: m < i + 1 && AnswerAt(events, j, m, log'[k])
    {
      if k < |log| {
        var j: nat, m: nat :| m < i && AnswerAt(events, j, m, log[k]);
        assert AnswerAt(events, j, m, log'[k]);
      } else {
        var j: nat :| Waiting(events, j, i) && Num(events, j) == n;
        WaitingFacts(events, j, i);
        assert AnswerAt(events, j, i, log'[k]);
      }
    }
  }

  ghost predicate IsFailed(log: seq<Completion>, x: nat) {
    exists i :: 0 <= i < |log| && log[i].id == x && log[i].outcome.Failed?
  }

  lemma {:induction false} FailedStay(log: seq<Completion>, now: seq<Completion>)
    requires log <= now
    ensures forall x :: IsFailed(log, x) ==> IsFailed(now, x)
  {
    forall x | IsFailed(log, x)
      ensures IsFailed(now, x)
    {
      var i :| 0 <= i < |log| && log[i].id == x && log[i].outcome.Failed?;
      assert now[i] == log[i];
    }
  }

  lemma {:induction false} FailedNow(log: seq<Completion>, now: seq<Completion>, x: nat)
    requires |now| == |log| + 1 && now[|log|].id == x && now[|log|].outcome.Failed?
    ensures IsFailed(now, x)
  {
  }

  lemma {:induction false} NoneSubmitted(events: seq<Event>)
    ensures Submitted(events, 0) == {}
  {
  }

  lemma {:induction false} SubmittedFew(events: seq<Event>, n: nat)
    requires n <= |events|
    ensures |Submitted(events, n)| <= |Submitted(events, |events|)|
  {
    SubsetSize(Submitted(events, n), Submitted(events, |events|));
  }

  lemma {:induction false} SubmittedNext(events: seq<Event>, n: nat)
    requires n < |events| && Fresh(events)
    ensures Submitted(events, n + 1) == Submitted(events, n) + if events[n].Submit? then {events[n].id} else {}
    ensures events[n].Submit? ==> events[n].id !in Submitted(events, n)
  {
  }

  /**
   What a valid client says about one request: it was completed at most once, and answered only with its own number's
   response.
   */
  lemma {:induction false} OneCompletion(c: Client, i: nat, j: nat)
    requires c.Valid() && i < |c.log| && j < |c.log| && c.log[i].id == c.log[j].id
    ensures i == j
    ensures c.log[i].outcome.Answered? ==> c.log[i].id in c.given && c.given[c.log[i].id] == c.log[i].outcome.number
    ensures c.log[i].outcome.Answered? ==>
              var n := c.log[i].outcome.number;
              1 <= n <= |c.sent| && c.sent[n - 1].id == c.log[i].id && c.sent[n - 1].number == n
    ensures forall s :: s in c.messages ==> c.messages[s].id != c.log[i].id
  {
  }
}
