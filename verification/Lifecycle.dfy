/** platform_lifecycle_manager.py: the state machine of services and the hash-chained log it leaves behind. */
module Lifecycle {
  import opened Digests
  import opened Wrappers

  const LIFECYCLE_STATES := {"DRAFT", "ACTIVE", "DEPRECATED", "RETIRED"}
  const LIFECYCLE_GENESIS := Constant("LIFECYCLE_GENESIS")

  predicate ValidTransition(current: string, target: string) {
    || (current == "DRAFT" && target == "ACTIVE")
    || (current == "ACTIVE" && (target == "DEPRECATED" || target == "DRAFT"))
    || (current == "DEPRECATED" && (target == "RETIRED" || target == "ACTIVE"))
  }

  function ActionFor(current: string, target: string): string {
    if current == "DRAFT" && target == "ACTIVE" then "ENABLE"
    else if current == "ACTIVE" && target == "DRAFT" then "DISABLE"
    else if current == "ACTIVE" && target == "DEPRECATED" then "DEPRECATE"
    else if current == "DEPRECATED" && target == "ACTIVE" then "ENABLE"
    else if current == "DEPRECATED" && target == "RETIRED" then "RETIRE"
    else "TRANSITION"
  }

  /** A permitted transition is named after the state it leads to, and only deprecated services retire. */
  lemma {:induction false} ActionsNameTargets(current: string, target: string)
    requires ValidTransition(current, target)
    ensures current in LIFECYCLE_STATES && target in LIFECYCLE_STATES && current != target
    ensures ActionFor(current, target) == (
      if target == "ACTIVE" then "ENABLE" else if target == "DRAFT" then "DISABLE"
      else if target == "DEPRECATED" then "DEPRECATE" else "RETIRE")
    ensures target == "RETIRED" ==> current == "DEPRECATED"
  {
  }

  predicate Leads(path: seq<string>, current: string, target: string) {
    path != [] && path[0] == current && path[|path| - 1] == target
    && forall i :: 0 < i < |path| ==> ValidTransition(path[i - 1], path[i])
  }

  /** RETIRED is the only state without a way out; from any other, transitions lead to every state. */
  lemma {:induction false} RetiredIsTheOnlyTrap(current: string, target: string)
    requires current in LIFECYCLE_STATES && target in LIFECYCLE_STATES
    ensures (exists path :: Leads(path, current, target)) <==> current != "RETIRED" || target == "RETIRED"
  {
    if current == target {
      assert Leads([current], current, target);
    } else if current == "RETIRED" {
      forall path
        ensures !Leads(path, current, target)
      {
        if |path| > 1 {
          assert !ValidTransition("RETIRED", path[1]);
        }
      }
    } else {
      var towards := if target == "DRAFT" then ["ACTIVE", "DRAFT"] else if target == "ACTIVE" then ["ACTIVE"]
        else if target == "DEPRECATED" then ["ACTIVE", "DEPRECATED"] else ["ACTIVE", "DEPRECATED", "RETIRED"];
      var path := if current == "ACTIVE" then towards else [current] + towards;
      assert Leads(path, current, target);
    }
  }

  /** What happened; the fields that the event's hash covers besides the previous hash. */
  datatype Happening = Happening(
    eventId: string,
    serviceId: string,
    action: string,
    previousState: string,
    newState: string,
    actor: string,
    reason: string)
  {
    function Fields(): seq<string> {
      [eventId, serviceId, action, previousState, newState, actor, reason]
    }
  }

  datatype LifecycleEvent = LifecycleEvent(what: Happening, eventHash: Digest, previousEventHash: Digest)

  // ---------------------------------------------------------------------------------------
  // The chain
  // ---------------------------------------------------------------------------------------

  function Chained(head: Digest, what: Happening): LifecycleEvent {
    LifecycleEvent(what, Link(what.Fields(), head), head)
  }

  function Head(events: seq<LifecycleEvent>): Digest {
    if events == [] then LIFECYCLE_GENESIS else events[|events| - 1].eventHash
  }

  ghost predicate LinksOk(events: seq<LifecycleEvent>) {
    forall i :: 0 <= i < |events| ==> events[i] == Chained(Head(events[..i]), events[i].what)
  }

  lemma {:induction false} LinksOfFront(events: seq<LifecycleEvent>)
    requires LinksOk(events) && events != []
    ensures LinksOk(events[..|events| - 1])
    ensures events[|events| - 1] == Chained(Head(events[..|events| - 1]), events[|events| - 1].what)
  {
    var front := events[..|events| - 1];
    forall i | 0 <= i < |front|
      ensures front[i] == Chained(Head(front[..i]), front[i].what)
    {
      assert front[..i] == events[..i];
    }
  }

  lemma {:induction false} LinksOfLonger(events: seq<LifecycleEvent>, what: Happening)
    requires LinksOk(events)
    ensures LinksOk(events + [Chained(Head(events), what)])
  {
    var longer := events + [Chained(Head(events), what)];
    forall i | 0 <= i < |longer|
      ensures longer[i] == Chained(Head(longer[..i]), longer[i].what)
    {
      assert longer[..i] == events[..i];
      assert events[..|events|] == events;
    }
  }

  lemma {:induction false} FieldsDetermineHappening(x: Happening, y: Happening)
    ensures x.Fields() == y.Fields() <==> x == y
  {
    if x.Fields() == y.Fields() {
      assert forall i :: 0 <= i < 7 ==> x.Fields()[i] == y.Fields()[i];
      assert x.Fields()[0] == y.Fields()[0] && x.Fields()[1] == y.Fields()[1] && x.Fields()[2] == y.Fields()[2];
      assert x.Fields()[3] == y.Fields()[3] && x.Fields()[4] == y.Fields()[4] && x.Fields()[5] == y.Fields()[5];
    }
  }

  /** Equal heads mean equal logs, length included. */
  lemma {:induction false} HeadDeterminesLog(a: seq<LifecycleEvent>, b: seq<LifecycleEvent>)
    requires LinksOk(a) && LinksOk(b)
    ensures Head(a) == Head(b) <==> a == b
  {
    if a != [] && b != [] && Head(a) == Head(b) {
      LinksOfFront(a);
      LinksOfFront(b);
      var x, y := a[|a| - 1], b[|b| - 1];
      FieldsDetermineHappening(x.what, y.what);
      HeadDeterminesLog(a[..|a| - 1], b[..|b| - 1]);
      assert a == a[..|a| - 1] + [x] && b == b[..|b| - 1] + [y];
    } else if a != [] {
      LinksOfFront(a);
    } else if b != [] {
      LinksOfFront(b);
    }
  }

  // ---------------------------------------------------------------------------------------
  // The log
  // ---------------------------------------------------------------------------------------

  ghost function ReplayOne(before: map<string, string>, what: Happening): map<string, string> {
    if what.action == "REGISTER" || what.serviceId in before then before[what.serviceId := what.newState] else before
  }

  /** The states that the log alone says the services are in. */
  ghost function Replay(events: seq<LifecycleEvent>): map<string, string> {
    if events == [] then map[]
    else ReplayOne(Replay(events[..|events| - 1]), events[|events| - 1].what)
  }

  /** The state a log leaves a service in, as later events name it. */
  function StateIn(states: map<string, string>, service: string): string {
    if service in states then states[service] else "UNKNOWN"
  }

  /** A registration, a permitted transition of the current state, or a self-loop: enabling an active service or
      disabling one that is not active. */
  ghost predicate Legal(what: Happening, current: string) {
    || (what.action == "REGISTER" && what.previousState == "NONE" && what.newState in LIFECYCLE_STATES)
    || (what.previousState == current
        && ValidTransition(current, what.newState) && what.action == ActionFor(current, what.newState))
    || (what.previousState == what.newState == current
        && what.action == if current == "ACTIVE" then "ENABLE" else "DISABLE")
  }

  ghost predicate LegalAt(events: seq<LifecycleEvent>, i: nat)
    requires i < |events|
  {
    Legal(events[i].what, StateIn(Replay(events[..i]), events[i].what.serviceId))
  }

  ghost predicate LegalLog(events: seq<LifecycleEvent>) {
    forall i :: 0 <= i < |events| ==> LegalAt(events, i)
  }

  lemma {:induction false} LegalLonger(events: seq<LifecycleEvent>, event: LifecycleEvent)
    requires LegalLog(events) && Legal(event.what, StateIn(Replay(events), event.what.serviceId))
    ensures LegalLog(events + [event])
  {
    var longer := events + [event];
    forall i | 0 <= i < |longer|
      ensures LegalAt(longer, i)
    {
      assert longer[..i] == events[..i];
      assert events[..|events|] == events;
      assert i < |events| ==> LegalAt(events, i);
    }
  }

  /** No event of the service lies strictly between the two positions. */
  ghost predicate NoneBetween(events: seq<LifecycleEvent>, service: string, i: int, j: int)
    requires -1 <= i && j <= |events|
  {
    forall k :: i < k < j ==> events[k].what.serviceId != service
  }

  lemma {:induction false} UntouchedSince(events: seq<LifecycleEvent>, service: string, i: nat, j: nat)
    requires i <= j <= |events| && NoneBetween(events, service, i - 1, j)
    ensures StateIn(Replay(events[..j]), service) == StateIn(Replay(events[..i]), service)
    ensures service in Replay(events[..j]) <==> service in Replay(events[..i])
    decreases j
  {
    if i < j {
      assert events[..j][..j - 1] == events[..j - 1];
      assert events[j - 1].what.serviceId != service;
      UntouchedSince(events, service, i, j - 1);
    }
  }

  lemma {:induction false} ReplayStep(events: seq<LifecycleEvent>, j: nat)
    requires j < |events|
    ensures Replay(events[..j + 1]) == ReplayOne(Replay(events[..j]), events[j].what)
  {
    assert events[..j + 1][..j] == events[..j];
  }

  lemma {:induction false} StateAfter(events: seq<LifecycleEvent>, i: nat)
    requires LegalLog(events) && i < |events|
    ensures StateIn(Replay(events[..i + 1]), events[i].what.serviceId) == events[i].what.newState
  {
    assert events[..i + 1][..i] == events[..i];
    assert LegalAt(events, i);
  }

  /** The last event of a service names its state. */
  lemma {:induction false} LastEventIsState(events: seq<LifecycleEvent>, i: nat)
    requires LegalLog(events) && i < |events|
    requires NoneBetween(events, events[i].what.serviceId, i, |events|)
    ensures StateIn(Replay(events), events[i].what.serviceId) == events[i].what.newState
  {
    StateAfter(events, i);
    UntouchedSince(events, events[i].what.serviceId, i + 1, |events|);
    assert events[..|events|] == events;
  }

  /** Between registrations, each event of a service starts where the one before it ended. */
  lemma {:induction false} ConsecutiveEventsLink(events: seq<LifecycleEvent>, i: nat, j: nat)
    requires LegalLog(events) && i < j < |events|
    requires events[i].what.serviceId == events[j].what.serviceId
    requires NoneBetween(events, events[i].what.serviceId, i, j) && events[j].what.action != "REGISTER"
    ensures events[j].what.previousState == events[i].what.newState
  {
    StateAfter(events, i);
    UntouchedSince(events, events[i].what.serviceId, i + 1, j);
    assert LegalAt(events, j);
  }

  lemma {:induction false} RegisteredExactly(events: seq<LifecycleEvent>, service: string)
    ensures service in Replay(events) <==>
      exists i :: 0 <= i < |events| && events[i].what.serviceId == service && events[i].what.action == "REGISTER"
  {
    if events != [] {
      var front := events[..|events| - 1];
      RegisteredExactly(front, service);
      if service in Replay(front) {
        var i :| 0 <= i < |front| && front[i].what.serviceId == service && front[i].what.action == "REGISTER";
        assert events[i] == front[i];
      } else if service in Replay(events) {
        assert events[|events| - 1].what.serviceId == service;
      }
      if i :| 0 <= i < |events| && events[i].what.serviceId == service && events[i].what.action == "REGISTER" {
        if i < |front| {
          assert front[i] == events[i];
        }
      }
    }
  }

  ghost predicate NoRegistration(events: seq<LifecycleEvent>, service: string, i: int, j: int)
    requires -1 <= i && j < |events|
  {
    forall k :: i < k <= j ==> events[k].what.serviceId == service ==> events[k].what.action != "REGISTER"
  }

  lemma {:induction false} FromRetired(what: Happening)
    requires Legal(what, "RETIRED") && what.action != "REGISTER"
    ensures what.previousState == what.newState == "RETIRED" && what.action == "DISABLE"
  {
    assert !ValidTransition("RETIRED", what.newState);
  }

  lemma {:induction false} RetiredStep(before: map<string, string>, what: Happening, service: string)
    requires StateIn(before, service) == "RETIRED" && Legal(what, StateIn(before, what.serviceId))
    requires what.serviceId == service ==> what.action != "REGISTER"
    ensures StateIn(ReplayOne(before, what), service) == "RETIRED"
  {
    if what.serviceId == service {
      FromRetired(what);
    }
  }

  lemma {:induction false} StaysRetired(events: seq<LifecycleEvent>, i: nat, j: nat)
    requires LegalLog(events) && i <= j < |events| && events[i].what.newState == "RETIRED"
    requires NoRegistration(events, events[i].what.serviceId, i, j)
    ensures StateIn(Replay(events[..j + 1]), events[i].what.serviceId) == "RETIRED"
    decreases j
  {
    if i == j {
      StateAfter(events, i);
    } else {
      StaysRetired(events, i, j - 1);
      ReplayStep(events, j);
      assert LegalAt(events, j);
      RetiredStep(Replay(events[..j]), events[j].what, events[i].what.serviceId);
    }
  }

  /** Until it is registered again, a retired service only loops on RETIRED. */
  lemma {:induction false} RetiredIsTerminal(events: seq<LifecycleEvent>, i: nat, j: nat)
    requires LegalLog(events) && i < j < |events| && events[i].what.newState == "RETIRED"
    requires events[j].what.serviceId == events[i].what.serviceId
    requires NoRegistration(events, events[i].what.serviceId, i, j)
    ensures events[j].what.previousState == events[j].what.newState == "RETIRED"
    ensures events[j].what.action == "DISABLE"
  {
    StaysRetired(events, i, j - 1);
    assert LegalAt(events, j);
    FromRetired(events[j].what);
  }

  // ---------------------------------------------------------------------------------------
  // Commands
  // ---------------------------------------------------------------------------------------

  datatype Book = Book(
    states: map<string, string>, enabled: map<string, bool>, events: seq<LifecycleEvent>, head: Digest)

  const EMPTY := Book(map[], map[], [], LIFECYCLE_GENESIS)

  datatype Command =
    | Register(service: string, target: string, actor: string, reason: string)
    | Transition(service: string, target: string, actor: string, reason: string)
    | Enable(service: string, actor: string)
    | Disable(service: string, actor: string)

  function Recorded(book: Book, what: Happening): Book {
    book.(events := book.events + [Chained(book.head, what)], head := Chained(book.head, what).eventHash)
  }

  function Moved(book: Book, service: string, target: string): Book {
    book.(states := book.states[service := target], enabled := book.enabled[service := target == "ACTIVE"])
  }

  function Registered(book: Book, service: string, target: string, actor: string, reason: string, eventId: string)
    : Result<Book>
  {
    if target !in LIFECYCLE_STATES then Failure("Invalid initial state")
    else
      Success(Recorded(
        Moved(book, service, target), Happening(eventId, service, "REGISTER", "NONE", target, actor, reason)))
  }

  function Transitioned(book: Book, service: string, target: string, actor: string, reason: string, eventId: string)
    : Result<Book>
  {
    if service !in book.states then Failure("Service is not registered")
    else if target !in LIFECYCLE_STATES then Failure("Invalid target state")
    else if !ValidTransition(book.states[service], target) then Failure("Invalid transition")
    else
      var current := book.states[service];
      Success(Recorded(
        Moved(book, service, target),
        Happening(eventId, service, ActionFor(current, target), current, target, actor, reason)))
  }

  function Enabled(book: Book, service: string, actor: string, eventId: string): Result<Book> {
    if StateIn(book.states, service) == "ACTIVE" then
      Success(Recorded(
        book.(enabled := book.enabled[service := true]),
        Happening(eventId, service, "ENABLE", "ACTIVE", "ACTIVE", actor, "Re-enabled active service")))
    else Transitioned(book, service, "ACTIVE", actor, "Enabled by operator", eventId)
  }

  function Disabled(book: Book, service: string, actor: string, eventId: string): Result<Book> {
    var current := StateIn(book.states, service);
    if current == "ACTIVE" then Transitioned(book, service, "DRAFT", actor, "Disabled by operator", eventId)
    else
      Success(Recorded(
        book.(enabled := book.enabled[service := false]),
        Happening(eventId, service, "DISABLE", current, current, actor, "Disable requested (already inactive)")))
  }

  /** The book after a command; a failure leaves it alone. The event id is random in the source. */
  function Executed(book: Book, command: Command, eventId: string): Result<Book> {
    match command
    case Register(service, target, actor, reason) => Registered(book, service, target, actor, reason, eventId)
    case Transition(service, target, actor, reason) => Transitioned(book, service, target, actor, reason, eventId)
    case Enable(service, actor) => Enabled(book, service, actor, eventId)
    case Disable(service, actor) => Disabled(book, service, actor, eventId)
  }

  /** The overlay: a service is enabled unless the map says otherwise. */
  predicate IsEnabled(book: Book, service: string) {
    service in book.states && book.states[service] == "ACTIVE"
    && (service in book.enabled ==> book.enabled[service])
  }

  /** What every reachable book keeps. */
  ghost predicate Consistent(book: Book) {
    && LinksOk(book.events) && book.head == Head(book.events)
    && LegalLog(book.events) && book.states == Replay(book.events)
    && (forall s :: s in book.states ==> book.states[s] in LIFECYCLE_STATES)
    && (forall s :: s in book.states && book.states[s] == "ACTIVE" && s in book.enabled ==> book.enabled[s])
  }

  lemma {:induction false} RecordedIsConsistent(book: Book, moved: Book, what: Happening)
    requires Consistent(book) && Legal(what, StateIn(book.states, what.serviceId))
    requires moved.events == book.events && moved.head == book.head
    requires moved.states == ReplayOne(book.states, what)
    requires forall s :: s in moved.states ==> moved.states[s] in LIFECYCLE_STATES
    requires forall s :: s in moved.states && moved.states[s] == "ACTIVE" && s in moved.enabled ==> moved.enabled[s]
    ensures Consistent(Recorded(moved, what))
  {
    var longer := Recorded(moved, what).events;
    LinksOfLonger(book.events, what);
    LegalLonger(book.events, Chained(book.head, what));
    assert longer[..|book.events|] == book.events;
  }

  lemma {:induction false} TransitionKeepsConsistent(
      book: Book, service: string, target: string, actor: string, reason: string, eventId: string)
    requires Consistent(book)
    ensures
      var r := Transitioned(book, service, target, actor, reason, eventId);
      r.Success? ==> Consistent(r.value)
  {
    if service in book.states && ValidTransition(book.states[service], target) {
      var current := book.states[service];
      RecordedIsConsistent(
        book, Moved(book, service, target),
        Happening(eventId, service, ActionFor(current, target), current, target, actor, reason));
    }
  }

  lemma {:induction false} EnableKeepsConsistent(book: Book, service: string, actor: string, eventId: string)
    requires Consistent(book)
    ensures Enabled(book, service, actor, eventId).Success? ==>
      Consistent(Enabled(book, service, actor, eventId).value)
  {
    if StateIn(book.states, service) == "ACTIVE" {
      assert service in book.states;
      RecordedIsConsistent(
        book, book.(enabled := book.enabled[service := true]),
        Happening(eventId, service, "ENABLE", "ACTIVE", "ACTIVE", actor, "Re-enabled active service"));
    } else {
      TransitionKeepsConsistent(book, service, "ACTIVE", actor, "Enabled by operator", eventId);
    }
  }

  lemma {:induction false} DisableKeepsConsistent(book: Book, service: string, actor: string, eventId: string)
    requires Consistent(book)
    ensures Disabled(book, service, actor, eventId).Success? ==>
      Consistent(Disabled(book, service, actor, eventId).value)
  {
    var current := StateIn(book.states, service);
    if current == "ACTIVE" {
      TransitionKeepsConsistent(book, service, "DRAFT", actor, "Disabled by operator", eventId);
    } else {
      assert service in book.states ==> book.states[service := current] == book.states;
      RecordedIsConsistent(
        book, book.(enabled := book.enabled[service := false]),
        Happening(eventId, service, "DISABLE", current, current, actor, "Disable requested (already inactive)"));
    }
  }

  lemma {:induction false} CommandKeepsConsistent(book: Book, command: Command, eventId: string)
    requires Consistent(book)
    ensures Executed(book, command, eventId).Success? ==> Consistent(Executed(book, command, eventId).value)
  {
    match command
    case Register(service, target, actor, reason) =>
      if target in LIFECYCLE_STATES {
        RecordedIsConsistent(
          book, Moved(book, service, target),
          Happening(eventId, service, "REGISTER", "NONE", target, actor, reason));
      }
    case Transition(service, target, actor, reason) =>
      TransitionKeepsConsistent(book, service, target, actor, reason, eventId);
    case Enable(service, actor) => EnableKeepsConsistent(book, service, actor, eventId);
    case Disable(service, actor) => DisableKeepsConsistent(book, service, actor, eventId);
  }

  /** The book after a run of commands with their event ids. */
  ghost function Run(commands: seq<(Command, string)>): Book {
    if commands == [] then EMPTY
    else
      var before, last := Run(commands[..|commands| - 1]), commands[|commands| - 1];
      var r := Executed(before, last.0, last.1);
      if r.Success? then r.value else before
  }

  /** In every run the log is legal and chained, and replays to the states. */
  lemma {:induction false} RunsAreConsistent(commands: seq<(Command, string)>)
    ensures Consistent(Run(commands))
  {
    if commands != [] {
      var last := commands[|commands| - 1];
      RunsAreConsistent(commands[..|commands| - 1]);
      CommandKeepsConsistent(Run(commands[..|commands| - 1]), last.0, last.1);
    }
  }

  /** The permitted moves of a service that is registered. */
  const TRANSITIONS := {
    ("DRAFT", "ACTIVE"), ("ACTIVE", "DEPRECATED"), ("ACTIVE", "DRAFT"), ("DEPRECATED", "RETIRED"),
    ("DEPRECATED", "ACTIVE")}

  /** Whether a command succeeds, going by the states alone. */
  predicate Succeeds(states: map<string, string>, command: Command) {
    match command
    case Register(_, target, _, _) => target in {"DRAFT", "ACTIVE", "DEPRECATED", "RETIRED"}
    case Transition(service, target, _, _) => service in states && (states[service], target) in TRANSITIONS
    case Enable(service, _) => service in states && states[service] in {"DRAFT", "ACTIVE", "DEPRECATED"}
    case Disable(_, _) => true
  }

  /** The states it leads to. */
  function StatesAfter(states: map<string, string>, command: Command): map<string, string> {
    if !Succeeds(states, command) then states
    else
      match command
      case Register(service, target, _, _) => states[service := target]
      case Transition(service, target, _, _) => states[service := target]
      case Enable(service, _) => states[service := "ACTIVE"]
      case Disable(service, _) =>
        if service in states && states[service] == "ACTIVE" then states[service := "DRAFT"] else states
  }

  lemma {:induction false} PermittedTransitions(current: string, target: string)
    ensures ValidTransition(current, target) <==> (current, target) in TRANSITIONS
  {
  }

  lemma {:induction false} TransitionMoves(
      book: Book, service: string, target: string, actor: string, reason: string, eventId: string)
    ensures
      var r := Transitioned(book, service, target, actor, reason, eventId);
      && (r.Success? <==> service in book.states && (book.states[service], target) in TRANSITIONS)
      && (r.Success? ==> r.value.states == book.states[service := target])
  {
    if service in book.states {
      PermittedTransitions(book.states[service], target);
    }
  }

  /** In every run a command succeeds and moves the states exactly so; a failure changes nothing at all. */
  lemma {:induction false} RunMovesStates(commands: seq<(Command, string)>, command: Command, eventId: string)
    ensures
      var before, after := Run(commands), Run(commands + [(command, eventId)]);
      && after.states == StatesAfter(before.states, command)
      && (Executed(before, command, eventId).Success? <==> Succeeds(before.states, command))
      && (!Succeeds(before.states, command) ==> after == before)
  {
    var before := Run(commands);
    RunOneMore(commands, command, eventId);
    RunsAreConsistent(commands);
    match command
    case Register(_, _, _, _) =>
    case Transition(service, target, actor, reason) =>
      TransitionMoves(before, service, target, actor, reason, eventId);
    case Enable(service, actor) =>
      TransitionMoves(before, service, "ACTIVE", actor, "Enabled by operator", eventId);
      if service in before.states && before.states[service] == "ACTIVE" {
        assert before.states[service := "ACTIVE"] == before.states;
      }
    case Disable(service, actor) =>
      TransitionMoves(before, service, "DRAFT", actor, "Disabled by operator", eventId);
  }

  /** A success records one event, hashed with the head before it, which names the command's service, its actor and
      the states before and after. */
  lemma {:induction false} RunRecords(commands: seq<(Command, string)>, command: Command, eventId: string)
    requires Succeeds(Run(commands).states, command)
    ensures
      var before, after := Run(commands), Run(commands + [(command, eventId)]);
      var service, n := command.service, |before.events|;
      && |after.events| == n + 1 && after.events[..n] == before.events
      && after.events[n].previousEventHash == before.head && after.head == after.events[n].eventHash
      && after.events[n].what.eventId == eventId && after.events[n].what.serviceId == service
      && after.events[n].what.actor == command.actor
      && after.events[n].what.previousState == (
           if command.Register? then "NONE" else if service in before.states then before.states[service] else "UNKNOWN")
      && after.events[n].what.newState == (if service in after.states then after.states[service] else "UNKNOWN")
      && (command.Register? || command.Transition? ==> after.events[n].what.reason == command.reason)
      && (command.Register? ==> after.events[n].what.action == "REGISTER")
      && (command.Enable? ==> after.events[n].what.action == "ENABLE")
      && (command.Disable? ==> after.events[n].what.action == "DISABLE")
  {
    RunMovesStates(commands, command, eventId);
    RunOneMore(commands, command, eventId);
    RunsAreConsistent(commands);
  }

  /** The reasons the manager gives by itself. */
  lemma {:induction false} RunGivesReasons(commands: seq<(Command, string)>, command: Command, eventId: string)
    requires (command.Enable? || command.Disable?) && Succeeds(Run(commands).states, command)
    ensures
      var before, after := Run(commands), Run(commands + [(command, eventId)]);
      var active := command.service in before.states && before.states[command.service] == "ACTIVE";
      after.events != [] && after.events[|after.events| - 1].what.reason == (
        if command.Enable? then (if active then "Re-enabled active service" else "Enabled by operator")
        else if active then "Disabled by operator" else "Disable requested (already inactive)")
  {
    RunMovesStates(commands, command, eventId);
    RunOneMore(commands, command, eventId);
  }

  /** Afterwards exactly the active services are enabled: after enabling the service is, after disabling it is not,
      and no other service has changed. */
  lemma {:induction false} EnablingIsDecided(commands: seq<(Command, string)>, command: Command, eventId: string)
    requires command.Enable? || command.Disable?
    ensures
      var before, after := Run(commands), Run(commands + [(command, eventId)]);
      && (Succeeds(before.states, command) ==> (IsEnabled(after, command.service) <==> command.Enable?))
      && (forall s :: s != command.service ==> (IsEnabled(after, s) <==> IsEnabled(before, s)))
  {
    RunMovesStates(commands, command, eventId);
    RunsAreConsistent(commands);
    RunsAreConsistent(commands + [(command, eventId)]);
  }

  lemma {:induction false} EnabledMeansActive(commands: seq<(Command, string)>, service: string)
    ensures IsEnabled(Run(commands), service) <==> StateIn(Run(commands).states, service) == "ACTIVE"
  {
    RunsAreConsistent(commands);
  }

  /** The head hash fixes the whole log and with it every service's state. */
  lemma {:induction false} HeadDeterminesStates(a: seq<(Command, string)>, b: seq<(Command, string)>)
    requires Run(a).head == Run(b).head
    ensures Run(a).events == Run(b).events && Run(a).states == Run(b).states
    ensures forall s :: IsEnabled(Run(a), s) <==> IsEnabled(Run(b), s)
  {
    RunsAreConsistent(a);
    RunsAreConsistent(b);
    HeadDeterminesLog(Run(a).events, Run(b).events);
  }

  // ---------------------------------------------------------------------------------------
  // The manager
  // ---------------------------------------------------------------------------------------

  /** The caller gets the new event or the error, and an error changes nothing. */
  ghost predicate Did(before: Book, after: Book, executed: Result<Book>, r: Result<LifecycleEvent>) {
    && (executed.Success? ==>
      after == executed.value && after.events != [] && r == Success(after.events[|after.events| - 1]))
    && (executed.Failure? ==> after == before && r == Failure(executed.error))
  }

  lemma {:induction false} RunOneMore(commands: seq<(Command, string)>, command: Command, eventId: string)
    ensures
      var before, executed := Run(commands), Executed(Run(commands), command, eventId);
      Run(commands + [(command, eventId)]) == if executed.Success? then executed.value else before
  {
    assert (commands + [(command, eventId)])[..|commands|] == commands;
  }

  class LifecycleManager {
    var serviceStates: map<string, string>
    var serviceEnabled: map<string, bool>
    var events: seq<LifecycleEvent>
    var headHash: Digest
    ghost var commands: seq<(Command, string)>

    ghost function Contents(): Book
      reads this
    {
      Book(serviceStates, serviceEnabled, events, headHash)
    }

    /** The fields are those of the run of all commands so far. */
    ghost predicate Valid()
      reads this
    {
      Contents() == Run(commands)
    }

    constructor ()
      ensures Valid() && commands == []
    {
      serviceStates, serviceEnabled, events := map[], map[], [];
      headHash := LIFECYCLE_GENESIS;
      commands := [];
    }

    method RecordEvent(what: Happening) returns (event: LifecycleEvent)
      modifies this`events, this`headHash
      ensures Contents() == Recorded(old(Contents()), what)
      ensures events != [] && event == events[|events| - 1]
    {
      event := LifecycleEvent(what, Link(what.Fields(), headHash), headHash);
      events := events + [event];
      headHash := event.eventHash;
    }

    method Register(service: string, initialState: string, actor: string, reason: string, eventId: string)
      returns (r: Result<LifecycleEvent>)
      requires Valid()
      modifies this
      ensures Valid() && commands == old(commands) + [(Command.Register(service, initialState, actor, reason), eventId)]
      ensures Did(
        old(Contents()), Contents(), Registered(old(Contents()), service, initialState, actor, reason, eventId), r)
      ensures r.Success? <==> initialState in {"DRAFT", "ACTIVE", "DEPRECATED", "RETIRED"}
      ensures r.Success? ==> serviceStates == old(serviceStates)[service := initialState]
      ensures r.Failure? ==> unchanged(`serviceStates, `serviceEnabled, `events, `headHash)
    {
      RunOneMore(commands, Command.Register(service, initialState, actor, reason), eventId);
      commands := commands + [(Command.Register(service, initialState, actor, reason), eventId)];
      if initialState !in LIFECYCLE_STATES {
        return Failure("Invalid initial state");
      }
      serviceStates := serviceStates[service := initialState];
      serviceEnabled := serviceEnabled[service := initialState == "ACTIVE"];
      var event := RecordEvent(Happening(eventId, service, "REGISTER", "NONE", initialState, actor, reason));
      r := Success(event);
    }

    method Transition(service: string, target: string, actor: string, reason: string, eventId: string)
      returns (r: Result<LifecycleEvent>)
      requires Valid()
      modifies this
      ensures Valid() && commands == old(commands) + [(Command.Transition(service, target, actor, reason), eventId)]
      ensures Did(
        old(Contents()), Contents(), Transitioned(old(Contents()), service, target, actor, reason, eventId), r)
      ensures r.Success? <==> service in old(serviceStates) && (old(serviceStates)[service], target) in TRANSITIONS
      ensures r.Success? ==> serviceStates == old(serviceStates)[service := target]
      ensures r.Failure? ==> unchanged(`serviceStates, `serviceEnabled, `events, `headHash)
    {
      TransitionMoves(Contents(), service, target, actor, reason, eventId);
      RunOneMore(commands, Command.Transition(service, target, actor, reason), eventId);
      commands := commands + [(Command.Transition(service, target, actor, reason), eventId)];
      if service !in serviceStates {
        return Failure("Service is not registered");
      }
      var current := serviceStates[service];
      if target !in LIFECYCLE_STATES {
        return Failure("Invalid target state");
      }
      if !ValidTransition(current, target) {
        return Failure("Invalid transition");
      }
      serviceStates := serviceStates[service := target];
      serviceEnabled := serviceEnabled[service := target == "ACTIVE"];
      var event := RecordEvent(
        Happening(eventId, service, ActionFor(current, target), current, target, actor, reason));
      r := Success(event);
    }

    method Enable(service: string, actor: string, eventId: string) returns (r: Result<LifecycleEvent>)
      requires Valid()
      modifies this
      ensures Valid() && commands == old(commands) + [(Command.Enable(service, actor), eventId)]
      ensures Did(old(Contents()), Contents(), Enabled(old(Contents()), service, actor, eventId), r)
      ensures r.Success? <==>
        service in old(serviceStates) && old(serviceStates)[service] in {"DRAFT", "ACTIVE", "DEPRECATED"}
      ensures r.Success? ==> serviceStates == old(serviceStates)[service := "ACTIVE"]
      ensures r.Failure? ==> unchanged(`serviceStates, `serviceEnabled, `events, `headHash)
    {
      RunOneMore(commands, Command.Enable(service, actor), eventId);
      if service in serviceStates && serviceStates[service] == "ACTIVE" {
        commands := commands + [(Command.Enable(service, actor), eventId)];
        serviceEnabled := serviceEnabled[service := true];
        var event := RecordEvent(
          Happening(eventId, service, "ENABLE", "ACTIVE", "ACTIVE", actor, "Re-enabled active service"));
        assert serviceStates[service := "ACTIVE"] == serviceStates;
        return Success(event);
      }
      r := Transition(service, "ACTIVE", actor, "Enabled by operator", eventId);
      commands := old(commands) + [(Command.Enable(service, actor), eventId)];
    }

    method Disable(service: string, actor: string, eventId: string) returns (r: Result<LifecycleEvent>)
      requires Valid()
      modifies this
      ensures Valid() && commands == old(commands) + [(Command.Disable(service, actor), eventId)]
      ensures Did(old(Contents()), Contents(), Disabled(old(Contents()), service, actor, eventId), r)
      ensures r.Success?
      ensures service in old(serviceStates) && old(serviceStates)[service] == "ACTIVE" ==>
        serviceStates == old(serviceStates)[service := "DRAFT"]
      ensures !(service in old(serviceStates) && old(serviceStates)[service] == "ACTIVE") ==>
        serviceStates == old(serviceStates)
      ensures service in serviceEnabled && !serviceEnabled[service]
    {
      RunOneMore(commands, Command.Disable(service, actor), eventId);
      if service in serviceStates && serviceStates[service] == "ACTIVE" {
        r := Transition(service, "DRAFT", actor, "Disabled by operator", eventId);
        commands := old(commands) + [(Command.Disable(service, actor), eventId)];
        return;
      }
      commands := commands + [(Command.Disable(service, actor), eventId)];
      serviceEnabled := serviceEnabled[service := false];
      var current := if service in serviceStates then serviceStates[service] else "UNKNOWN";
      var event := RecordEvent(
        Happening(eventId, service, "DISABLE", current, current, actor, "Disable requested (already inactive)"));
      r := Success(event);
    }

    method IsServiceEnabled(service: string) returns (enabled: bool)
      requires Valid()
      ensures enabled <==> service in serviceStates && serviceStates[service] == "ACTIVE"
    {
      RunsAreConsistent(commands);
      enabled := service in serviceStates && serviceStates[service] == "ACTIVE";
      if enabled && service in serviceEnabled {
        enabled := serviceEnabled[service];
      }
    }

    /** Needs nothing of the fields: it is the test of whatever is stored. */
    method VerifyChain() returns (ok: bool)
      ensures ok <==> LinksOk(events) && headHash == Head(events)
    {
      var head := LIFECYCLE_GENESIS;
      for i := 0 to |events|
        invariant head == Head(events[..i])
        invariant forall j :: 0 <= j < i ==> events[j] == Chained(Head(events[..j]), events[j].what)
      {
        var event := events[i];
        if event.previousEventHash != head {
          return false;
        }
        var expected := Link(event.what.Fields(), head);
        if event.eventHash != expected {
          return false;
        }
        head := event.eventHash;
        assert events[..i + 1][i] == event;
      }
      assert events[..|events|] == events;
      ok := head == headHash;
    }
  }
}
