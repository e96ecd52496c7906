/** Pairing clangd's responses with requests (src/completers/cpp/clangd_completer.cpp:57-67, 188-294). */
module RequestTracker {
  import opened Bytes

  // lsp::ID. The numbers that matter are those of next_id, a double that only ever holds integers.
  datatype Id = Number(n: int) | Text(s: string)

  // A parsed message of the server: its method and id, where it has them, and all the rest.
  datatype ServerMessage = ServerMessage(methodName: Option<string>, id: Option<Id>, rest: ByteString)

  // A request waiting for its response; handlers are told apart by the number of their request.
  datatype PendingRequest = PendingRequest(id: Id, handler: nat)

  // A handler that was called, and the message it was called with.
  datatype Firing = Firing(handler: nat, message: ServerMessage)

  // 2^53: from here on, adding one to a double that holds an integer changes nothing.
  const LIMIT: nat := 0x20_0000_0000_0000

  function Increment(n: nat): nat {
    if n < LIMIT then n + 1 else n
  }

  // ----- The client as a function of what happens to it -----

  datatype Event = Issue | Receive(message: ServerMessage)

  datatype Client = Client(nextId: nat, issued: nat, pending: seq<PendingRequest>, fired: seq<Firing>)

  const INITIAL: Client := Client(0, 0, [], [])

  // The first pending request with this id, or their number.
  function FindPending(pending: seq<PendingRequest>, id: Id): (k: nat)
    ensures k <= |pending| && (k < |pending| ==> pending[k].id == id)
    ensures forall i :: 0 <= i < k ==> pending[i].id != id
  {
    if pending == [] || pending[0].id == id then 0 else 1 + FindPending(pending[1..], id)
  }

  function Step(c: Client, e: Event): Client {
    match e
    case Issue =>
      Client(Increment(c.nextId), c.issued + 1, c.pending + [PendingRequest(Number(c.nextId), c.issued)], c.fired)
    case Receive(m) =>
      if m.methodName.Some? || m.id.None? then c
      else
        var k := FindPending(c.pending, m.id.value);
        if k == |c.pending| then c
        else c.(pending := c.pending[..k] + c.pending[k + 1..],
                fired := c.fired + [Firing(c.pending[k].handler, m)])
  }

  function Run(events: seq<Event>): Client {
    if events == [] then INITIAL else Step(Run(events[..|events| - 1]), events[|events| - 1])
  }

  class ClangdRequests {
    var nextId: nat
    var pendingRequests: seq<PendingRequest>
    // Kept to say which handlers exist and which were called, with what.
    var issued: nat
    var fired: seq<Firing>
    ghost var events: seq<Event>

    function State(): Client
      reads this
    {
      Client(nextId, issued, pendingRequests, fired)
    }

    ghost predicate Valid()
      reads this
    {
      State() == Run(events)
    }

    constructor ()
      ensures Valid() && events == []
    {
      nextId, pendingRequests, issued, fired, events := 0, [], 0, [], [];
    }

    /** get_response, up to the send: registers the handler under the next id. */
    method GetResponse() returns (id: Id, handler: nat)
      requires Valid()
      modifies this
      ensures Valid() && events == old(events) + [Issue]
      ensures State() == Step(old(State()), Issue)
      ensures handler == old(issued) && PendingRequest(id, handler) in pendingRequests
      ensures handler <= 0x20_0000_0000_0000 ==> id == Number(handler)
    {
      RunInvariant(events);
      RunSnoc(events, Issue);
      id, handler := Number(nextId), issued;
      pendingRequests := pendingRequests + [PendingRequest(id, handler)];
      assert pendingRequests[|pendingRequests| - 1] == PendingRequest(id, handler);
      nextId := Increment(nextId);
      issued := issued + 1;
      events := events + [Issue];
    }

    /** One turn of message_pump: a response goes to the first pending request with its id, if there is one;
        notifications and the server's own requests concern no handler. */
    method HandleMessage(message: ServerMessage)
      requires Valid()
      modifies this
      ensures Valid() && events == old(events) + [Receive(message)]
      ensures State() == Step(old(State()), Receive(message))
    {
      RunSnoc(events, Receive(message));
      events := events + [Receive(message)];
      if message.methodName.None? && message.id.Some? {
        var pos := FindRequest(message.id.value);
        if pos == |pendingRequests| {
          return;
        }
        var handler := pendingRequests[pos].handler;
        pendingRequests := pendingRequests[..pos] + pendingRequests[pos + 1..];
        fired := fired + [Firing(handler, message)];
      }
    }

    // std::find_if over the pending ids.
    method FindRequest(id: Id) returns (pos: nat)
      ensures pos == FindPending(pendingRequests, id)
    {
      pos := 0;
      while pos < |pendingRequests| && pendingRequests[pos].id != id
        invariant 0 <= pos <= |pendingRequests|
        invariant FindPending(pendingRequests, id) == pos + FindPending(pendingRequests[pos..], id)
      {
        pos := pos + 1;
      }
    }
  }

  lemma RunSnoc(events: seq<Event>, e: Event)
    ensures Run(events + [e]) == Step(Run(events), e)
  {
    assert (events + [e])[..|events|] == events;
  }

  // ----- What holds after every run -----

  // The id request k is sent with.
  function IdOf(k: nat): Id {
    Number(if k < LIMIT then k else LIMIT)
  }

  ghost predicate PendingInOrder(c: Client) {
    && (forall i :: 0 <= i < |c.pending| ==>
          c.pending[i].handler < c.issued && c.pending[i].id == IdOf(c.pending[i].handler))
    && (forall i, j :: 0 <= i < j < |c.pending| ==> c.pending[i].handler < c.pending[j].handler)
  }

  // Every handler fired was called once, with a response that carries the id of its request.
  ghost predicate FiredOnce(c: Client) {
    && (forall i :: 0 <= i < |c.fired| ==>
          && c.fired[i].handler < c.issued
          && c.fired[i].message.methodName.None?
          && c.fired[i].message.id == Some(IdOf(c.fired[i].handler)))
    && (forall i, j :: 0 <= i < j < |c.fired| ==> c.fired[i].handler != c.fired[j].handler)
  }

  ghost predicate IsPending(c: Client, k: nat) {
    exists i :: 0 <= i < |c.pending| && c.pending[i].handler == k
  }

  ghost predicate IsFired(c: Client, k: nat) {
    exists i :: 0 <= i < |c.fired| && c.fired[i].handler == k
  }

  // Each request issued is either pending or completed, and not both.
  ghost predicate Partitioned(c: Client) {
    forall k: nat :: k < c.issued ==> IsPending(c, k) != IsFired(c, k)
  }

  ghost predicate Invariant(c: Client) {
    && c.nextId == (if c.issued < LIMIT then c.issued else LIMIT)
    && PendingInOrder(c) && FiredOnce(c) && Partitioned(c)
  }

  lemma IssueKeeps(c: Client)
    requires Invariant(c)
    ensures Invariant(Step(c, Issue))
  {
    var d := Step(c, Issue);
    assert d.pending[|c.pending|].handler == c.issued;
    forall k: nat | k < d.issued ensures IsPending(d, k) != IsFired(d, k) {
      if k < c.issued {
        assert IsPending(c, k) != IsFired(c, k);
        if IsPending(c, k) {
          var i :| 0 <= i < |c.pending| && c.pending[i].handler == k;
          assert d.pending[i].handler == k;
        }
      }
    }
  }

  lemma ReceiveKeeps(c: Client, m: ServerMessage)
    requires Invariant(c)
    ensures Invariant(Step(c, Receive(m)))
  {
    if m.methodName.None? && m.id.Some? {
      var p := FindPending(c.pending, m.id.value);
      if p < |c.pending| {
        CompleteKeeps(c, m, p);
      }
    }
  }

  lemma CompleteKeeps(c: Client, m: ServerMessage, p: nat)
    requires Invariant(c) && m.methodName.None? && p < |c.pending| && m.id == Some(c.pending[p].id)
    ensures Invariant(c.(pending := c.pending[..p] + c.pending[p + 1..],
                         fired := c.fired + [Firing(c.pending[p].handler, m)]))
  {
    var handler := c.pending[p].handler;
    var d := c.(pending := c.pending[..p] + c.pending[p + 1..], fired := c.fired + [Firing(handler, m)]);
    assert IsPending(c, handler);
    assert !IsFired(c, handler);
    assert d.fired[|c.fired|].handler == handler;
    forall k: nat | k < d.issued ensures IsPending(d, k) != IsFired(d, k) {
      assert IsPending(c, k) != IsFired(c, k);
      if i :| 0 <= i < |c.fired| && c.fired[i].handler == k {
        assert d.fired[i].handler == k;
      }
      if i :| 0 <= i < |c.pending| && c.pending[i].handler == k && i != p {
        assert d.pending[if i < p then i else i - 1].handler == k;
      }
    }
  }

  /** Over every interleaving of requests and messages of the server, whatever they say: a handler fires at most
      once and with its own id, and the requests issued are the disjoint union of the pending and the completed. */
  lemma {:induction false} RunInvariant(events: seq<Event>)
    ensures Invariant(Run(events))
  {
    if events == [] {
    } else {
      RunInvariant(events[..|events| - 1]);
      match events[|events| - 1]
      case Issue => IssueKeeps(Run(events[..|events| - 1]));
      case Receive(m) => ReceiveKeeps(Run(events[..|events| - 1]), m);
    }
  }

  ghost predicate PendingIdsDistinct(c: Client) {
    forall i, j :: 0 <= i < j < |c.pending| ==> c.pending[i].id != c.pending[j].id
  }

  // A run of requests that the server never answers.
  function Unanswered(n: nat): (events: seq<Event>)
    ensures |events| == n
  {
    seq(n, _ => Issue)
  }

  lemma {:induction false} UnansweredRun(n: nat)
    ensures var c := Run(Unanswered(n));
            c.issued == n && |c.pending| == n && forall k :: 0 <= k < n ==> c.pending[k] == PendingRequest(IdOf(k), k)
  {
    if n == 0 {
    } else {
      assert Unanswered(n)[..n - 1] == Unanswered(n - 1);
      UnansweredRun(n - 1);
      RunInvariant(Unanswered(n - 1));
    }
  }

  /** The pending ids of every run of at most n requests are pairwise distinct exactly as long as next_id, a double,
      can count them: the client that issues two requests more than 2^53 has two pending with one id. */
  lemma IdsDistinctIff(n: nat)
    ensures (forall events :: Run(events).issued <= n ==> PendingIdsDistinct(Run(events)))
            <==> n <= 0x20_0000_0000_0001 // 2^53 + 1
  {
    if n <= LIMIT + 1 {
      forall events | Run(events).issued <= n ensures PendingIdsDistinct(Run(events)) {
        RunInvariant(events);
      }
    } else {
      UnansweredRun(LIMIT + 2);
      var c := Run(Unanswered(LIMIT + 2));
      assert c.issued <= n && c.pending[LIMIT].id == c.pending[LIMIT + 1].id;
    }
  }

  /** Until next_id stops, each request is pending under its own number, and next_id is above all of them. */
  lemma PendingIdsBelowNext(events: seq<Event>)
    requires Run(events).issued <= 0x20_0000_0000_0000 // 2^53
    ensures forall r :: r in Run(events).pending ==> r.id == Number(r.handler) && r.handler < Run(events).nextId
    ensures PendingIdsDistinct(Run(events))
  {
    RunInvariant(events);
  }

  // ----- Which message each handler gets -----

  function Issues(events: seq<Event>): nat {
    if events == [] then 0 else Issues(events[..|events| - 1]) + if events[|events| - 1].Issue? then 1 else 0
  }

  // Event j is a response with the id of request k, which was issued before.
  predicate Answers(events: seq<Event>, k: nat, j: nat)
    requires j < |events|
  {
    && events[j].Receive? && events[j].message.methodName.None? && events[j].message.id == Some(Number(k))
    && k < Issues(events[..j])
  }

  ghost predicate FirstAnswer(events: seq<Event>, k: nat, m: ServerMessage) {
    exists j: nat :: j < |events| && Answers(events, k, j) && events[j].message == m
                     && forall i: nat :: i < j ==> !Answers(events, k, i)
  }

  ghost predicate FiredWith(c: Client, k: nat, m: ServerMessage) {
    exists i :: 0 <= i < |c.fired| && c.fired[i] == Firing(k, m)
  }

  lemma {:induction false} IssuedIsIssues(events: seq<Event>)
    ensures Run(events).issued == Issues(events)
  {
    if events == [] {
    } else {
      IssuedIsIssues(events[..|events| - 1]);
    }
  }

  // One more event leaves the answers before it as they were.
  lemma AnswersPrefix(events: seq<Event>, k: nat, j: nat)
    requires j < |events| - 1
    ensures Answers(events[..|events| - 1], k, j) == Answers(events, k, j)
  {
    assert events[..|events| - 1][..j] == events[..j];
  }

  lemma AnyAnswerHasFirst(events: seq<Event>, k: nat, j: nat) returns (m: ServerMessage)
    requires j < |events| && Answers(events, k, j)
    ensures FirstAnswer(events, k, m)
  {
    var i := 0;
    while !Answers(events, k, i)
      invariant i <= j
      invariant forall h: nat :: h < i ==> !Answers(events, k, h)
      decreases j - i
    {
      i := i + 1;
    }
    m := events[i].message;
  }

  // What the last event adds to the first answers: its own, if the request had none.
  lemma FirstAnswerStep(events: seq<Event>, k: nat, m: ServerMessage)
    requires events != []
    ensures var front, last := events[..|events| - 1], |events| - 1;
            FirstAnswer(events, k, m) <==>
            || FirstAnswer(front, k, m)
            || (Answers(events, k, last) && events[last].message == m && !exists n :: FirstAnswer(front, k, n))
  {
    var front, last := events[..|events| - 1], |events| - 1;
    forall j: nat | j < last ensures Answers(front, k, j) == Answers(events, k, j) {
      AnswersPrefix(events, k, j);
    }
    if FirstAnswer(events, k, m) {
      var j: nat :| j < |events| && Answers(events, k, j) && events[j].message == m
                    && forall i: nat :: i < j ==> !Answers(events, k, i);
      if j < last {
        assert Answers(front, k, j) && front[j].message == m;
      }
    }
    if FirstAnswer(front, k, m) {
      var j: nat :| j < |front| && Answers(front, k, j) && front[j].message == m
                    && forall i: nat :: i < j ==> !Answers(front, k, i);
      assert Answers(events, k, j) && events[j].message == m;
    }
    if Answers(events, k, last) && events[last].message == m && !exists n :: FirstAnswer(front, k, n) {
      forall i: nat | i < last ensures !Answers(events, k, i) {
        if Answers(front, k, i) {
          var n := AnyAnswerHasFirst(front, k, i);
        }
      }
    }
  }

  // What one event adds to the firings, while ids are distinct.
  lemma FiredStep(c: Client, e: Event, k: nat, m: ServerMessage)
    requires Invariant(c) && Step(c, e).issued <= LIMIT + 1
    ensures FiredWith(Step(c, e), k, m) <==>
            || FiredWith(c, k, m)
            || (e == Receive(m) && m.methodName.None? && m.id == Some(Number(k)) && k < c.issued && !IsFired(c, k))
  {
    var d := Step(c, e);
    if i :| 0 <= i < |c.fired| && c.fired[i] == Firing(k, m) {
      assert d.fired[i] == Firing(k, m);
    }
    if e.Receive? && e.message.methodName.None? && e.message.id.Some? {
      var p := FindPending(c.pending, e.message.id.value);
      if p < |c.pending| {
        assert d.fired[|c.fired|] == Firing(c.pending[p].handler, e.message);
        assert IsPending(c, c.pending[p].handler);
      }
      if k < c.issued && !IsFired(c, k) && e.message.id == Some(Number(k)) {
        assert IsPending(c, k);
        var i :| 0 <= i < |c.pending| && c.pending[i].handler == k;
        assert c.pending[i].id == Number(k) && p <= i;
      }
    }
  }

  /** While ids are distinct, the handler of request k has fired with m exactly when m is the first response with
      id k to arrive after the request was issued: out of order, duplicate and unknown ids notwithstanding. */
  lemma {:induction false} FiredIffFirstAnswer(events: seq<Event>, k: nat, m: ServerMessage)
    requires Run(events).issued <= 0x20_0000_0000_0001 // 2^53 + 1
    ensures FiredWith(Run(events), k, m) <==> FirstAnswer(events, k, m)
  {
    if events == [] {
    } else {
      var front, last := events[..|events| - 1], events[|events| - 1];
      var c := Run(front);
      RunInvariant(front);
      IssuedIsIssues(front);
      forall n ensures FiredWith(c, k, n) <==> FirstAnswer(front, k, n) {
        FiredIffFirstAnswer(front, k, n);
      }
      FiredStep(c, last, k, m);
      FirstAnswerStep(events, k, m);
      FiredWithSome(c, k);
    }
  }

  // The response that two of LIMIT + 2 unanswered requests wait for.
  const AMBIGUOUS: ServerMessage := ServerMessage(None, Some(Number(LIMIT)), [])

  // It completes the first of them.
  lemma AmbiguousCompletes(c: Client)
    requires |c.pending| > LIMIT && c.pending[LIMIT].id == Number(LIMIT)
    requires forall k :: 0 <= k < LIMIT ==> c.pending[k].id == Number(k)
    ensures Step(c, Receive(AMBIGUOUS)) ==
            c.(pending := c.pending[..LIMIT] + c.pending[LIMIT + 1..],
               fired := c.fired + [Firing(c.pending[LIMIT].handler, AMBIGUOUS)])
  {
    var p := FindPending(c.pending, Number(LIMIT));
    assert p <= LIMIT;
    assert c.pending[p].id == Number(LIMIT);
  }

  // Sent twice, it calls the handler of a request that carries another number.
  lemma DuplicateMisfires() returns (events: seq<Event>)
    ensures Run(events).issued == 0x20_0000_0000_0002
    ensures FiredWith(Run(events), 0x20_0000_0000_0001, AMBIGUOUS)
    ensures !FirstAnswer(events, 0x20_0000_0000_0001, AMBIGUOUS)
  {
    var asked, e := Unanswered(LIMIT + 2), Receive(AMBIGUOUS);
    events := asked + [e] + [e];
    UnansweredRun(LIMIT + 2);
    RunSnoc(asked, e);
    RunSnoc(asked + [e], e);
    AmbiguousCompletes(Run(asked));
    AmbiguousCompletes(Run(asked + [e]));
    var fired := Run(events).fired;
    assert fired[|fired| - 1] == Firing(LIMIT + 1, AMBIGUOUS);
  }

  /** So handlers get exactly the first answers in every run of at most n requests iff next_id can count them. */
  lemma FirstAnswersIff(n: nat)
    ensures (forall events, k, m :: Run(events).issued <= n ==>
               (FiredWith(Run(events), k, m) <==> FirstAnswer(events, k, m)))
            <==> n <= 0x20_0000_0000_0001 // 2^53 + 1
  {
    if n <= LIMIT + 1 {
      forall events, k, m | Run(events).issued <= n
        ensures FiredWith(Run(events), k, m) <==> FirstAnswer(events, k, m)
      {
        FiredIffFirstAnswer(events, k, m);
      }
    } else {
      var events := DuplicateMisfires();
    }
  }

  lemma FiredWithSome(c: Client, k: nat)
    ensures IsFired(c, k) <==> exists n :: FiredWith(c, k, n)
  {
    if i :| 0 <= i < |c.fired| && c.fired[i].handler == k {
      assert FiredWith(c, k, c.fired[i].message);
    }
  }
}
