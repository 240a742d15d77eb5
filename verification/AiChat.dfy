/** The mailbox between the screen and the AI worker thread, as a state machine over the
    atomic steps of every thread in any order: a busy flag that is read and written without
    the lock, a semaphore, and a prompt, a reply and a ready flag that are used under it. The
    lock itself is initialised by the first call, behind a flag nothing guards. */
module AiChat {
  const PROMPT_MAX: nat := 256
  const REPLY_MAX: nat := 768

  /** A bounded string copy into a buffer of `size` characters. */
  function Clip(s: string, size: nat): (r: string)
    requires size > 0
    ensures |r| < size
  {
    if |s| < size then s else s[..size - 1]
  }

  datatype Owner = Nobody | Worker | Requester(r: nat) | Taker(t: nat)

  /** Where a thread stands in ai_chat_request_async. */
  datatype Request =
    | Idle
    | Calling(prompt: string)
    | Initing(prompt: string)
    | Inited(prompt: string)
    | Starting(prompt: string)
    | Checking(prompt: string)
    | Entering(prompt: string)
    | Writing(prompt: string)
    | Clearing
    | Leaving
    | SettingBusy
    | Releasing

  /** Where the thread stands in ai_chat_thread_entry. */
  datatype Work =
    | NotStarted
    | Waiting
    | Woken
    | Copying
    | Copied(prompt: string)
    | Asking(prompt: string)
    | Answering(reply: string)
    | Storing(reply: string)
    | Marking
    | Unlocking
    | Finishing

  /** Where a thread stands in ai_chat_take_reply, with the size of its buffer. */
  datatype Taking =
    | Absent
    | Coming(size: nat)
    | Making(size: nat)
    | Made(size: nat)
    | Knocking(size: nat)
    | Looking(size: nat)
    | Fetching(size: nat)
    | Emptying(size: nat, text: string)
    | Going

  /** A reply that was taken: its number, how many prompts were accepted then, and the text. */
  datatype Receipt = Receipt(number: nat, accepted: nat, size: nat, text: string)

  datatype State = State(
    inited: bool,
    busy: bool,
    ready: bool,
    prompt: string,
    reply: string,
    tokens: nat,
    owner: Owner,
    requests: seq<Request>,
    work: Work,
    takings: seq<Taking>,
    // history: the prompts accepted, the number of replies published, the replies taken
    accepted: seq<string>,
    published: nat,
    taken: seq<Receipt>)

  datatype Step =
    | Ask(r: nat, prompt: string)
    | Go(r: nat)
    | Work
    | Take(t: nat, size: nat)
    | Fetch(t: nat)

  /** What the relay says to the n-th prompt it is asked, or what stands in for it when it
      cannot be reached. */
  type Relay = (nat, string) -> string

  // ---------------------------------------------------------------- the steps

  /** Releasing the lock does nothing for a thread that is not its owner. */
  function Released(s: State, me: Owner): Owner
  {
    if s.owner == me then Nobody else s.owner
  }

  /** One step of a requesting thread; a thread that has to wait stays as it is. Calling to
      Inited are ai_chat_lock_init: initialising the lock makes it free, whoever has it. */
  function GoOn(s: State, r: nat): State
    requires r < |s.requests|
  {
    match s.requests[r]
    case Idle => s
    case Calling(p) => s.(requests := s.requests[r := if s.inited then Starting(p) else Initing(p)])
    case Initing(p) => s.(owner := Nobody, requests := s.requests[r := Inited(p)])
    case Inited(p) => s.(inited := true, requests := s.requests[r := Starting(p)])
    case Starting(p) => s.(work := if s.work == NotStarted then Waiting else s.work, requests := s.requests[r := Checking(p)])
    case Checking(p) => s.(requests := s.requests[r := if s.busy then Idle else Entering(p)])
    case Entering(p) =>
      if s.owner == Nobody then s.(owner := Requester(r), requests := s.requests[r := Writing(p)]) else s
    case Writing(p) => s.(prompt := Clip(p, PROMPT_MAX), requests := s.requests[r := Clearing])
    case Clearing => s.(ready := false, accepted := s.accepted + [s.prompt], requests := s.requests[r := Leaving])
    case Leaving => s.(owner := Released(s, Requester(r)), requests := s.requests[r := SettingBusy])
    case SettingBusy => s.(busy := true, requests := s.requests[r := Releasing])
    case Releasing => s.(tokens := s.tokens + 1, requests := s.requests[r := Idle])
  }

  /** One step of the worker. Its own calls of ai_chat_lock_init find the flag set, because a
      request starts it after initialising the lock: see WorkerHasLock. */
  function WorkOn(relay: Relay, s: State): State
  {
    match s.work
    case NotStarted => s
    case Waiting => if s.tokens > 0 then s.(tokens := s.tokens - 1, work := Woken) else s
    case Woken => if s.owner == Nobody then s.(owner := Worker, work := Copying) else s
    case Copying => s.(work := Copied(Clip(s.prompt, PROMPT_MAX)))
    case Copied(p) => s.(owner := Released(s, Worker), work := Asking(p))
    case Asking(p) => s.(work := Answering(Clip(relay(s.published + 1, p), REPLY_MAX)))
    case Answering(t) => if s.owner == Nobody then s.(owner := Worker, work := Storing(t)) else s
    case Storing(t) => s.(reply := Clip(t, REPLY_MAX), work := Marking)
    case Marking => s.(ready := true, published := s.published + 1, work := Unlocking)
    case Unlocking => s.(owner := Released(s, Worker), work := Finishing)
    case Finishing => s.(busy := false, work := Waiting)
  }

  function FetchOn(s: State, t: nat): State
    requires t < |s.takings|
  {
    match s.takings[t]
    case Absent => s
    case Coming(n) => s.(takings := s.takings[t := if s.inited then Knocking(n) else Making(n)])
    case Making(n) => s.(owner := Nobody, takings := s.takings[t := Made(n)])
    case Made(n) => s.(inited := true, takings := s.takings[t := Knocking(n)])
    case Knocking(n) => if s.owner == Nobody then s.(owner := Taker(t), takings := s.takings[t := Looking(n)]) else s
    case Looking(n) => s.(takings := s.takings[t := if s.ready then Fetching(n) else Going])
    case Fetching(n) => s.(takings := s.takings[t := if n > 0 then Emptying(n, Clip(s.reply, n)) else Going])
    case Emptying(n, text) =>
      s.(ready := false, taken := s.taken + [Receipt(s.published, |s.accepted|, n, text)], takings := s.takings[t := Going])
    case Going => s.(owner := Released(s, Taker(t)), takings := s.takings[t := Absent])
  }

  /** Any step of any thread. Calls begin when the thread is in no call; a call with an empty
      prompt or buffer returns at once. */
  function Next(relay: Relay, s: State, step: Step): State
  {
    match step
    case Ask(r, p) =>
      if r < |s.requests| && s.requests[r] == Idle && p != "" then
        s.(requests := s.requests[r := Calling(p)])
      else s
    case Go(r) => if r < |s.requests| then GoOn(s, r) else s
    case Work => WorkOn(relay, s)
    case Take(t, n) =>
      if t < |s.takings| && s.takings[t] == Absent && n > 0 then s.(takings := s.takings[t := Coming(n)]) else s
    case Fetch(t) => if t < |s.takings| then FetchOn(s, t) else s
  }

  function Start(requesters: nat, takers: nat): State
  {
    State(false, false, false, "", "", 0, Nobody, seq(requesters, _ => Idle), NotStarted, seq(takers, _ => Absent), [], 0, [])
  }

  function Run(relay: Relay, s: State, steps: seq<Step>): State
    decreases |steps|
  {
    if steps == [] then s else Run(relay, Next(relay, s, steps[0]), steps[1..])
  }

  // ---------------------------------------------------------------- what holds with one requester

  predicate Holding(q: Request) { q.Writing? || q.Clearing? || q.Leaving? }

  predicate WorkHolds(w: Work) { w.Copying? || w.Copied? || w.Storing? || w.Marking? || w.Unlocking? }

  predicate TakingHolds(q: Taking) { q.Looking? || q.Fetching? || q.Emptying? || q.Going? }

  /** Nobody is in a critical section without the lock. */
  predicate Exclusive(s: State)
  {
    && (forall r :: 0 <= r < |s.requests| ==> (Holding(s.requests[r]) <==> s.owner == Requester(r)))
    && (WorkHolds(s.work) <==> s.owner == Worker)
    && (forall t :: 0 <= t < |s.takings| ==> (TakingHolds(s.takings[t]) <==> s.owner == Taker(t)))
  }

  /** While the flag is down nobody has got past initialising the lock; once it is up, nobody
      is about to initialise it again. */
  predicate LockPhase(s: State)
  {
    if s.inited then
      && (forall r :: 0 <= r < |s.requests| ==> !s.requests[r].Initing? && !s.requests[r].Inited?)
      && (forall t :: 0 <= t < |s.takings| ==> !s.takings[t].Making? && !s.takings[t].Made?)
    else
      && s.owner == Nobody && s.work == NotStarted
      && (forall r :: 0 <= r < |s.requests| ==> EarlyRequest(s.requests[r]))
      && (forall t :: 0 <= t < |s.takings| ==> EarlyTaking(s.takings[t]))
  }

  predicate EarlyRequest(q: Request) { q.Idle? || q.Calling? || q.Initing? || q.Inited? }

  predicate EarlyTaking(q: Taking) { q.Absent? || q.Coming? || q.Making? || q.Made? }

  /** Until the flag is up, no two threads are in a call at once. */
  predicate Alone(s: State)
  {
    s.inited ||
    (&& (forall r, t :: 0 <= r < |s.requests| && 0 <= t < |s.takings| ==> s.requests[r].Idle? || s.takings[t].Absent?)
     && (forall r, q :: 0 <= r < q < |s.requests| ==> s.requests[r].Idle? || s.requests[q].Idle?)
     && (forall t, u :: 0 <= t < u < |s.takings| ==> s.takings[t].Absent? || s.takings[u].Absent?))
  }

  /** Runs in which the first call has initialised the lock before another begins. */
  ghost predicate Calm(relay: Relay, s: State, steps: seq<Step>)
    decreases |steps|
  {
    Alone(s) && (steps == [] || Calm(relay, Next(relay, s, steps[0]), steps[1..]))
  }

  predicate Active(w: Work) { !w.NotStarted? && !w.Waiting? }

  /** The reply to the n-th prompt. */
  function Answer(relay: Relay, s: State, n: nat): string
    requires 1 <= n <= |s.accepted|
  {
    Clip(relay(n, s.accepted[n-1]), REPLY_MAX)
  }

  /** How the worker and the token stand to the accepted prompts, by where the requester is. */
  predicate Counted(s: State)
    requires |s.requests| == 1
  {
    var a, p := |s.accepted|, s.published;
    match s.requests[0]
    case Idle => CountedIdle(s)
    case Calling(_) => CountedIdle(s)
    case Initing(_) => CountedIdle(s)
    case Inited(_) => CountedIdle(s)
    case Starting(_) => CountedIdle(s)
    case Checking(_) => CountedIdle(s) && s.work != NotStarted
    case Entering(_) => !s.busy && s.tokens == 0 && s.work == Waiting && a == p
    case Writing(_) => !s.busy && s.tokens == 0 && s.work == Waiting && a == p
    case Clearing => !s.busy && s.tokens == 0 && s.work == Waiting && a == p
    case Leaving => !s.busy && s.tokens == 0 && s.work == Waiting && a == p + 1
    case SettingBusy => !s.busy && s.tokens == 0 && s.work == Waiting && a == p + 1
    case Releasing => s.busy && s.tokens == 0 && s.work == Waiting && a == p + 1
  }

  predicate CountedIdle(s: State)
  {
    var a, p := |s.accepted|, s.published;
    if !s.busy then s.tokens == 0 && !Active(s.work) && a == p
    else if s.tokens > 0 then s.tokens == 1 && s.work == Waiting && a == p + 1
    else if s.work.Unlocking? || s.work.Finishing? then a == p
    else Active(s.work) && a == p + 1
  }

  /** What the buffers hold. */
  predicate Contents(relay: Relay, s: State)
    requires |s.requests| == 1
  {
    var a, p := |s.accepted|, s.published;
    && p <= a <= p + 1
    && (forall i :: 0 <= i < a ==> |s.accepted[i]| < PROMPT_MAX)
    && |s.prompt| < PROMPT_MAX
    && (a == p + 1 ==> s.prompt == s.accepted[a-1] && !s.ready)
    && (s.work.Copied? || s.work.Asking? ==> a == p + 1 && s.work.prompt == s.accepted[p])
    && (s.work.Answering? || s.work.Storing? ==> a == p + 1 && s.work.reply == Answer(relay, s, p + 1))
    && (s.work.Marking? ==> a == p + 1 && s.reply == Answer(relay, s, p + 1))
    && (s.ready ==> 1 <= p == a && s.reply == Answer(relay, s, p))
  }

  /** A taker that has seen the flag holds a reply that is still the last one. */
  predicate Seen(relay: Relay, s: State)
    requires |s.requests| == 1
  {
    forall t :: 0 <= t < |s.takings| ==>
      && (s.takings[t].Fetching? ==> s.ready)
      && (s.takings[t].Emptying? ==>
            && s.ready && s.takings[t].size > 0 && 1 <= s.published <= |s.accepted|
            && s.takings[t].text == Clip(Answer(relay, s, s.published), s.takings[t].size))
  }

  /** A taken reply answers the prompt that was the last one accepted when it was taken. */
  predicate Fits(relay: Relay, s: State, x: Receipt)
  {
    && 1 <= x.number == x.accepted <= |s.accepted| && x.number <= s.published && x.size > 0
    && x.text == Clip(Answer(relay, s, x.number), x.size)
  }

  /** No reply is taken twice, and the one in the mailbox was not taken yet. */
  predicate Receipts(relay: Relay, s: State)
  {
    && (forall i :: 0 <= i < |s.taken| ==> Fits(relay, s, s.taken[i]))
    && (forall i, j :: 0 <= i < j < |s.taken| ==> s.taken[i].number < s.taken[j].number)
    && (s.ready ==> forall i :: 0 <= i < |s.taken| ==> s.taken[i].number < s.published)
  }

  predicate Invariant(relay: Relay, s: State)
  {
    && |s.requests| == 1 && LockPhase(s)
    && Exclusive(s) && Counted(s) && Contents(relay, s) && Seen(relay, s) && Receipts(relay, s)
  }

  lemma StartHolds(relay: Relay, ready: bool, takers: nat)
    ensures Invariant(relay, StartWith(ready, 1, takers))
  {
  }

  // ---------------------------------------------------------------- every step keeps it

  /** Threads in their critical sections, and where everyone stands. */
  predicate Order(s: State)
  {
    |s.requests| == 1 && LockPhase(s) && Exclusive(s) && Counted(s)
  }

  predicate Mail(relay: Relay, s: State)
    requires |s.requests| == 1
  {
    Contents(relay, s) && Seen(relay, s) && Receipts(relay, s)
  }

  lemma RequesterPhase(s: State)
    requires |s.requests| == 1 && LockPhase(s) && Exclusive(s) && Alone(s)
    ensures LockPhase(GoOn(s, 0))
  {
  }

  lemma RequesterExclusive(s: State)
    requires |s.requests| == 1 && LockPhase(s) && Exclusive(s)
    ensures Exclusive(GoOn(s, 0))
  {
  }

  lemma RequesterCounted(s: State)
    requires |s.requests| == 1 && Counted(s)
    ensures |GoOn(s, 0).requests| == 1 && Counted(GoOn(s, 0))
  {
  }

  lemma RequesterOrder(s: State)
    requires Order(s) && Alone(s)
    ensures Order(GoOn(s, 0))
  {
    hide LockPhase, Exclusive, Counted, Alone, GoOn;
    RequesterPhase(s);
    RequesterExclusive(s);
    RequesterCounted(s);
  }

  lemma RequesterContents(relay: Relay, s: State)
    requires Order(s) && Contents(relay, s)
    ensures |s.requests| == 1 && Contents(relay, GoOn(s, 0))
  {
  }

  lemma RequesterSeen(relay: Relay, s: State)
    requires Order(s) && Contents(relay, s) && Seen(relay, s)
    ensures Seen(relay, GoOn(s, 0))
  {
    hide Counted;
    var n := GoOn(s, 0);
    forall t | 0 <= t < |s.takings| && TakingHolds(s.takings[t]) ensures n.ready == s.ready && n.accepted == s.accepted {
      assert s.owner == Taker(t);
    }
  }

  lemma RequesterReceipts(relay: Relay, s: State)
    requires Receipts(relay, s)
    requires |s.requests| == 1
    ensures Receipts(relay, GoOn(s, 0))
  {
    hide Clip, Released;
    var n := GoOn(s, 0);
    forall i | 0 <= i < |s.taken| ensures Fits(relay, n, s.taken[i]) {
      assert Fits(relay, s, s.taken[i]);
    }
  }

  lemma RequesterKeeps(relay: Relay, s: State)
    requires Invariant(relay, s) && Alone(s)
    ensures Invariant(relay, GoOn(s, 0))
  {
    RequesterOrder(s);
    RequesterContents(relay, s);
    RequesterSeen(relay, s);
    RequesterReceipts(relay, s);
    hide LockPhase, Counted, Exclusive, Contents, Seen, Receipts;
  }

  lemma WorkerPhase(relay: Relay, s: State)
    requires LockPhase(s)
    ensures LockPhase(WorkOn(relay, s))
  {
  }

  lemma WorkerExclusive(relay: Relay, s: State)
    requires Exclusive(s)
    ensures Exclusive(WorkOn(relay, s))
  {
  }

  lemma WorkerCounted(relay: Relay, s: State)
    requires |s.requests| == 1 && Counted(s)
    ensures |WorkOn(relay, s).requests| == 1 && Counted(WorkOn(relay, s))
  {
  }

  lemma WorkerOrder(relay: Relay, s: State)
    requires Order(s)
    ensures Order(WorkOn(relay, s))
  {
    hide LockPhase, Exclusive, Counted, WorkOn;
    WorkerPhase(relay, s);
    WorkerExclusive(relay, s);
    WorkerCounted(relay, s);
  }

  lemma WorkerAsks(relay: Relay, s: State)
    requires Order(s) && Contents(relay, s) && !Replying(s.work)
    ensures Contents(relay, WorkOn(relay, s))
  {
    hide Exclusive;
  }

  lemma WorkerReplies(relay: Relay, s: State)
    requires Order(s) && Contents(relay, s) && Replying(s.work)
    ensures Contents(relay, WorkOn(relay, s))
  {
    hide Exclusive;
  }

  predicate Replying(w: Work) { w.Asking? || w.Answering? || w.Storing? || w.Marking? }

  lemma WorkerContents(relay: Relay, s: State)
    requires Order(s) && Contents(relay, s)
    ensures Contents(relay, WorkOn(relay, s))
  {
    hide Order, Contents, WorkOn;
    if Replying(s.work) { WorkerReplies(relay, s); } else { WorkerAsks(relay, s); }
  }

  lemma WorkerReceipts(relay: Relay, s: State)
    requires Order(s) && Mail(relay, s)
    ensures Seen(relay, WorkOn(relay, s)) && Receipts(relay, WorkOn(relay, s))
  {
    hide Counted;
    var n := WorkOn(relay, s);
    forall t | 0 <= t < |s.takings| && TakingHolds(s.takings[t])
      ensures n.ready == s.ready && n.published == s.published {
      assert s.owner == Taker(t);
    }
    forall i | 0 <= i < |s.taken| ensures Fits(relay, n, s.taken[i]) {
      assert Fits(relay, s, s.taken[i]);
    }
  }

  lemma WorkerKeeps(relay: Relay, s: State)
    requires Invariant(relay, s)
    ensures Invariant(relay, WorkOn(relay, s))
  {
    WorkerOrder(relay, s);
    WorkerContents(relay, s);
    WorkerReceipts(relay, s);
    hide LockPhase, Counted, Exclusive, Contents, Seen, Receipts;
  }

  lemma TakerPhase(s: State, t: nat)
    requires LockPhase(s) && Exclusive(s) && Alone(s) && t < |s.takings|
    ensures LockPhase(FetchOn(s, t))
  {
    hide Exclusive;
  }

  lemma TakerExclusive(s: State, t: nat)
    requires LockPhase(s) && Exclusive(s) && t < |s.takings|
    ensures Exclusive(FetchOn(s, t))
  {
  }

  lemma TakerCounted(s: State, t: nat)
    requires |s.requests| == 1 && Counted(s) && t < |s.takings|
    ensures |FetchOn(s, t).requests| == 1 && Counted(FetchOn(s, t))
  {
    FetchCounts(s, t);
    hide FetchOn;
  }

  lemma FetchCounts(s: State, t: nat)
    requires t < |s.takings|
    ensures var n := FetchOn(s, t);
            && n.requests == s.requests && n.busy == s.busy && n.tokens == s.tokens && n.work == s.work
            && n.accepted == s.accepted && n.published == s.published
  {
  }

  lemma TakerOrder(s: State, t: nat)
    requires Order(s) && Alone(s) && t < |s.takings|
    ensures Order(FetchOn(s, t))
  {
    hide LockPhase, Exclusive, Counted, Alone, FetchOn;
    TakerPhase(s, t);
    TakerExclusive(s, t);
    TakerCounted(s, t);
  }

  lemma TakerContents(relay: Relay, s: State, t: nat)
    requires Order(s) && Mail(relay, s) && t < |s.takings|
    ensures Contents(relay, FetchOn(s, t))
  {
    hide Exclusive, Counted, Receipts, Seen;
  }

  /** The other takers are outside their critical sections while this one is inside. */
  lemma TakerSeen(relay: Relay, s: State, t: nat)
    requires Order(s) && Mail(relay, s) && t < |s.takings|
    ensures Seen(relay, FetchOn(s, t))
  {
    hide Counted, Receipts;
    var n := FetchOn(s, t);
    forall u | 0 <= u < |s.takings| && u != t && TakingHolds(s.takings[u]) ensures n.ready == s.ready {
      assert s.owner == Taker(u);
    }
  }

  lemma TakerReceipts(relay: Relay, s: State, t: nat)
    requires Order(s) && Mail(relay, s) && t < |s.takings|
    ensures Receipts(relay, FetchOn(s, t))
  {
    hide Counted, Exclusive;
    var n := FetchOn(s, t);
    forall i | 0 <= i < |s.taken| ensures Fits(relay, n, s.taken[i]) {
      assert Fits(relay, s, s.taken[i]);
    }
  }

  lemma TakerKeeps(relay: Relay, s: State, t: nat)
    requires Invariant(relay, s) && Alone(s) && t < |s.takings|
    ensures Invariant(relay, FetchOn(s, t))
  {
    TakerOrder(s, t);
    TakerContents(relay, s, t);
    TakerSeen(relay, s, t);
    TakerReceipts(relay, s, t);
    hide LockPhase, Counted, Exclusive, Contents, Seen, Receipts;
  }

  lemma AskKeeps(relay: Relay, s: State, p: string)
    requires Invariant(relay, s)
    ensures Invariant(relay, Next(relay, s, Ask(0, p)))
  {
  }

  lemma TakeKeeps(relay: Relay, s: State, t: nat, n: nat)
    requires Invariant(relay, s)
    ensures Invariant(relay, Next(relay, s, Take(t, n)))
  {
  }

  lemma NextKeeps(relay: Relay, s: State, step: Step)
    requires Invariant(relay, s) && Alone(s)
    ensures Invariant(relay, Next(relay, s, step))
  {
    assert |s.requests| == 1;
    hide Invariant, Alone, GoOn, WorkOn, FetchOn;
    match step
    case Ask(r, p) => if r == 0 { AskKeeps(relay, s, p); }
    case Go(r) => if r == 0 { RequesterKeeps(relay, s); }
    case Work => WorkerKeeps(relay, s);
    case Take(t, n) => TakeKeeps(relay, s, t, n);
    case Fetch(t) => if t < |s.takings| { TakerKeeps(relay, s, t); }
  }

  lemma {:induction false} RunKeeps(relay: Relay, s: State, steps: seq<Step>)
    requires Invariant(relay, s) && Calm(relay, s, steps)
    ensures Invariant(relay, Run(relay, s, steps))
    decreases |steps|
  {
    hide Invariant, Next, Alone;
    if steps != [] {
      NextKeeps(relay, s, steps[0]);
      RunKeeps(relay, Next(relay, s, steps[0]), steps[1..]);
    }
  }

  // ---------------------------------------------------------------- one request at a time

  /** The worker has taken a token and has not published the reply yet. */
  predicate InFlight(w: Work)
  {
    Active(w) && !w.Unlocking? && !w.Finishing?
  }

  /** At most one request is under way, and no accepted prompt is skipped or answered twice. */
  predicate OneUnderWay(s: State)
  {
    && s.tokens + (if InFlight(s.work) then 1 else 0) <= 1
    && s.published <= |s.accepted| <= s.published + 1
  }

  lemma NextCounted(relay: Relay, s: State, step: Step)
    requires |s.requests| == 1 && Counted(s)
    ensures |Next(relay, s, step).requests| == 1 && Counted(Next(relay, s, step))
  {
    hide GoOn, WorkOn, FetchOn;
    match step
    case Ask(r, p) =>
    case Go(r) => if r == 0 { RequesterCounted(s); }
    case Work => WorkerCounted(relay, s);
    case Take(t, n) =>
    case Fetch(t) => if t < |s.takings| { TakerCounted(s, t); }
  }

  lemma {:induction false} RunCounted(relay: Relay, s: State, steps: seq<Step>)
    requires |s.requests| == 1 && Counted(s)
    ensures OneUnderWay(Run(relay, s, steps))
    decreases |steps|
  {
    hide Next;
    if steps != [] {
      NextCounted(relay, s, steps[0]);
      RunCounted(relay, Next(relay, s, steps[0]), steps[1..]);
    }
  }

  /** With one requesting thread this holds whatever the interleaving, and whether or not the
      lock works. */
  lemma OneAtATime(relay: Relay, takers: nat, steps: seq<Step>)
    ensures OneUnderWay(Run(relay, Start(1, takers), steps))
  {
    RunCounted(relay, Start(1, takers), steps);
  }

  predicate Unasked(s: State)
  {
    |s.requests| == 0 && s.tokens == 0 && s.work == NotStarted && s.accepted == [] && s.published == 0
  }

  lemma {:induction false} NothingAsked(relay: Relay, s: State, steps: seq<Step>)
    requires Unasked(s)
    ensures OneUnderWay(Run(relay, s, steps))
    decreases |steps|
  {
    if steps != [] { NothingAsked(relay, Next(relay, s, steps[0]), steps[1..]); }
  }

  // ---------------------------------------------------------------- the lock

  /** Whoever is past initialising the lock finds the flag set, the worker among them. */
  predicate Furnished(s: State)
  {
    s.inited ||
    (&& s.work == NotStarted
     && (forall r :: 0 <= r < |s.requests| ==> EarlyRequest(s.requests[r]))
     && (forall t :: 0 <= t < |s.takings| ==> EarlyTaking(s.takings[t])))
  }

  lemma GoShape(s: State, r: nat)
    requires r < |s.requests|
    ensures var n := GoOn(s, r);
            && |n.requests| == |s.requests| && (forall q :: 0 <= q < |s.requests| && q != r ==> n.requests[q] == s.requests[q])
            && n.takings == s.takings
            && (s.requests[r].Idle? ==> n.requests[r].Idle?)
  {
    GoTakings(s, r);
    GoRequests(s, r);
    hide GoOn;
  }

  lemma GoTakings(s: State, r: nat)
    requires r < |s.requests|
    ensures GoOn(s, r).takings == s.takings && (s.requests[r].Idle? ==> GoOn(s, r) == s)
  {
  }

  lemma GoRequests(s: State, r: nat)
    requires r < |s.requests|
    ensures var n := GoOn(s, r);
            |n.requests| == |s.requests| && forall q :: 0 <= q < |s.requests| && q != r ==> n.requests[q] == s.requests[q]
  {
    hide Clip;
  }

  lemma WorkShape(relay: Relay, s: State)
    ensures WorkOn(relay, s).requests == s.requests && WorkOn(relay, s).takings == s.takings
  {
  }

  lemma FetchShape(s: State, t: nat)
    requires t < |s.takings|
    ensures var n := FetchOn(s, t);
            && |n.takings| == |s.takings| && n.takings == s.takings[t := n.takings[t]] && n.requests == s.requests
            && (s.takings[t].Absent? ==> n.takings[t].Absent?)
  {
  }

  lemma GoFurnished(s: State, r: nat)
    requires Furnished(s) && r < |s.requests|
    ensures Furnished(GoOn(s, r))
  {
  }

  lemma FetchFurnished(s: State, t: nat)
    requires Furnished(s) && t < |s.takings|
    ensures Furnished(FetchOn(s, t))
  {
  }

  lemma NextFurnished(relay: Relay, s: State, step: Step)
    requires Furnished(s)
    ensures Furnished(Next(relay, s, step))
  {
    hide GoOn, FetchOn;
    match step
    case Ask(r, p) =>
    case Go(r) => if r < |s.requests| { GoFurnished(s, r); }
    case Work =>
    case Take(t, n) =>
    case Fetch(t) => if t < |s.takings| { FetchFurnished(s, t); }
  }

  lemma {:induction false} RunFurnished(relay: Relay, s: State, steps: seq<Step>)
    requires Furnished(s)
    ensures Furnished(Run(relay, s, steps))
    decreases |steps|
  {
    hide Next, Furnished;
    if steps != [] {
      NextFurnished(relay, s, steps[0]);
      RunFurnished(relay, Next(relay, s, steps[0]), steps[1..]);
    }
  }

  /** In no run does the worker come before the lock, whatever threads there are. */
  lemma WorkerHasLock(relay: Relay, requesters: nat, takers: nat, steps: seq<Step>)
    ensures var s := Run(relay, Start(requesters, takers), steps); s.work != NotStarted ==> s.inited
  {
    RunFurnished(relay, Start(requesters, takers), steps);
  }

  /** The start with the lock initialised beforehand, or not. */
  function StartWith(ready: bool, requesters: nat, takers: nat): State
  {
    Start(requesters, takers).(inited := ready)
  }

  lemma {:induction false} ReadyIsCalm(relay: Relay, s: State, steps: seq<Step>)
    requires s.inited
    ensures Calm(relay, s, steps)
    decreases |steps|
  {
    if steps != [] {
      StaysReady(relay, s, steps[0]);
      ReadyIsCalm(relay, Next(relay, s, steps[0]), steps[1..]);
    }
  }

  lemma StaysReady(relay: Relay, s: State, step: Step)
    requires s.inited
    ensures Next(relay, s, step).inited
  {
  }

  lemma {:induction false} NoTakersIsCalm(relay: Relay, s: State, steps: seq<Step>)
    requires |s.requests| == 1 && |s.takings| == 0
    ensures Calm(relay, s, steps)
    decreases |steps|
  {
    if steps != [] {
      SameThreads(relay, s, steps[0]);
      NoTakersIsCalm(relay, Next(relay, s, steps[0]), steps[1..]);
    }
  }

  lemma SameThreads(relay: Relay, s: State, step: Step)
    ensures var n := Next(relay, s, step); |n.requests| == |s.requests| && |n.takings| == |s.takings|
  {
    hide GoOn, WorkOn, FetchOn;
    match step
    case Ask(r, p) =>
    case Go(r) => if r < |s.requests| { GoShape(s, r); }
    case Work => WorkShape(relay, s);
    case Take(t, n) =>
    case Fetch(t) => if t < |s.takings| { FetchShape(s, t); }
  }

  /** Nobody is in a call. */
  predicate Outside(s: State)
  {
    && (forall r :: 0 <= r < |s.requests| ==> s.requests[r].Idle?)
    && (forall t :: 0 <= t < |s.takings| ==> s.takings[t].Absent?)
  }

  /** All calls are made by one thread, one after the other, as the screen makes them. */
  ghost predicate OneCaller(relay: Relay, s: State, steps: seq<Step>)
    decreases |steps|
  {
    steps == [] ||
    (&& (steps[0].Ask? || steps[0].Take? ==> Outside(s))
     && OneCaller(relay, Next(relay, s, steps[0]), steps[1..]))
  }

  /** At most one thread is in a call. */
  predicate OneInside(s: State)
  {
    Alone(s.(inited := false))
  }

  lemma OneInsideKept(relay: Relay, s: State, step: Step)
    requires OneInside(s) && (step.Ask? || step.Take? ==> Outside(s))
    ensures OneInside(Next(relay, s, step))
  {
    hide GoOn, WorkOn, FetchOn;
    match step
    case Ask(r, p) =>
    case Go(r) => if r < |s.requests| { GoShape(s, r); }
    case Work => WorkShape(relay, s);
    case Take(t, n) =>
    case Fetch(t) => if t < |s.takings| { FetchShape(s, t); }
  }

  lemma {:induction false} OneCallerIsCalm(relay: Relay, s: State, steps: seq<Step>)
    requires OneInside(s) && OneCaller(relay, s, steps)
    ensures Calm(relay, s, steps)
    decreases |steps|
  {
    hide Next;
    if steps != [] {
      OneInsideKept(relay, s, steps[0]);
      OneCallerIsCalm(relay, Next(relay, s, steps[0]), steps[1..]);
    }
  }

  // ---------------------------------------------------------------- replies

  /** Every reply that was taken is the relay's reply to the prompt accepted last before it
      was taken, cut to the buffers, and each is taken at most once. */
  predicate RepliesFit(relay: Relay, s: State)
  {
    && (forall i :: 0 <= i < |s.taken| ==>
          var x := s.taken[i];
          && 1 <= x.accepted <= |s.accepted| && x.number == x.accepted && x.size > 0
          && x.text == Clip(Clip(relay(x.accepted, s.accepted[x.accepted-1]), REPLY_MAX), x.size))
    && (forall i, j :: 0 <= i < j < |s.taken| ==> s.taken[i].number != s.taken[j].number)
  }

  lemma ReceiptsFit(relay: Relay, s: State)
    requires Receipts(relay, s)
    ensures RepliesFit(relay, s)
  {
    hide Clip;
    forall i | 0 <= i < |s.taken| ensures Fits(relay, s, s.taken[i]) { }
  }

  /** With one requesting thread this holds along every calm run. */
  lemma RepliesAnswer(relay: Relay, ready: bool, takers: nat, steps: seq<Step>)
    requires Calm(relay, StartWith(ready, 1, takers), steps)
    ensures RepliesFit(relay, Run(relay, StartWith(ready, 1, takers), steps))
  {
    StartHolds(relay, ready, takers);
    RunKeeps(relay, StartWith(ready, 1, takers), steps);
    ReceiptsFit(relay, Run(relay, StartWith(ready, 1, takers), steps));
  }

  /** So replies fit when all calls come from one thread, even if the first call is the one
      that initialises the lock. */
  lemma OneThreadAnswers(relay: Relay, takers: nat, steps: seq<Step>)
    requires OneCaller(relay, Start(1, takers), steps)
    ensures RepliesFit(relay, Run(relay, Start(1, takers), steps))
  {
    OneCallerIsCalm(relay, Start(1, takers), steps);
    RepliesAnswer(relay, false, takers, steps);
  }

  /** How many steps the worker has to make until it waits again. */
  function StepsLeft(s: State): nat
  {
    match s.work
    case NotStarted => 0
    case Waiting => if s.tokens > 0 then 10 else 0
    case Woken => 9
    case Copying => 8
    case Copied(_) => 7
    case Asking(_) => 6
    case Answering(_) => 5
    case Storing(_) => 4
    case Marking => 3
    case Unlocking => 2
    case Finishing => 1
  }

  function Worked(relay: Relay, s: State, n: nat): State
    decreases n
  {
    if n == 0 then s else Worked(relay, WorkOn(relay, s), n - 1)
  }

  /** What the worker on its own leaves alone, and that publishing a reply makes it ready. */
  ghost predicate WorkedFrom(s: State, n: State)
  {
    && n.requests == s.requests && n.takings == s.takings && n.accepted == s.accepted && n.taken == s.taken
    && n.inited == s.inited && (n.owner == Nobody || n.owner == Worker)
    && s.published <= n.published && (n.published > s.published ==> n.ready)
    && (n.published == s.published ==> n.ready == s.ready)
  }

  lemma WorkerAdvances(relay: Relay, s: State)
    requires Invariant(relay, s) && s.requests[0] == Idle && (s.owner == Nobody || s.owner == Worker) && StepsLeft(s) > 0
    ensures var n := WorkOn(relay, s); StepsLeft(n) == StepsLeft(s) - 1 && WorkedFrom(s, n)
  {
    hide Contents, Seen, Receipts;
  }

  /** No wake-up is lost: once a request has returned, the worker on its own, as soon as it
      can have the lock, publishes the reply, leaves it ready, and frees the mailbox. */
  lemma {:induction false} WorkerFinishes(relay: Relay, s: State)
    requires Invariant(relay, s) && s.requests[0] == Idle && (s.owner == Nobody || s.owner == Worker)
    ensures var n := Worked(relay, s, StepsLeft(s));
            && Invariant(relay, n) && !n.busy && n.published == |n.accepted| == |s.accepted|
            && n.owner == Nobody && WorkedFrom(s, n)
    decreases StepsLeft(s)
  {
    if StepsLeft(s) == 0 {
      hide Contents, Seen, Receipts;
    } else {
      WorkerKeeps(relay, s);
      WorkerAdvances(relay, s);
      hide Invariant, WorkOn;
      WorkerFinishes(relay, WorkOn(relay, s));
    }
  }

  // ---------------------------------------------------------------- two requesters

  lemma {:induction false} RunConcat(relay: Relay, s: State, a: seq<Step>, b: seq<Step>)
    ensures Run(relay, s, a + b) == Run(relay, Run(relay, s, a), b)
    decreases |a|
  {
    hide Next;
    if a == [] {
      assert a + b == b;
    } else {
      RunConcat(relay, Next(relay, s, a[0]), a[1..], b);
      assert (a + b)[1..] == a[1..] + b;
    }
  }

  lemma RunTwo(relay: Relay, s: State, x: Step, y: Step)
    ensures Run(relay, s, [x, y]) == Next(relay, Next(relay, s, x), y)
  {
    hide Next;
    var s1 := Next(relay, s, x);
    assert [x, y][1..] == [y] && [y][1..] == [];
    assert Run(relay, s, [x, y]) == Run(relay, s1, [y]);
    assert Run(relay, s1, [y]) == Run(relay, Next(relay, s1, y), []);
  }

  lemma RunSix(relay: Relay, s: State, x: Step)
    ensures Run(relay, s, [x, x, x, x, x, x]) ==
              Next(relay, Next(relay, Next(relay, Next(relay, Next(relay, Next(relay, s, x), x), x), x), x), x)
  {
    hide Next, Run;
    var two := [x, x];
    RunTwo(relay, s, x, x);
    var s2 := Next(relay, Next(relay, s, x), x);
    RunTwo(relay, s2, x, x);
    var s4 := Next(relay, Next(relay, s2, x), x);
    RunTwo(relay, s4, x, x);
    RunConcat(relay, s, two, two);
    RunConcat(relay, s, two + two, two);
    assert two + two + two == [x, x, x, x, x, x];
  }

  /** A call that has found the flag down goes through to its end. */
  lemma RequestGoesThrough(relay: Relay, s: State, r: nat)
    requires r < |s.requests| && s.requests[r].Entering? && s.owner == Nobody
    ensures var p := s.requests[r].prompt;
            var n := Run(relay, s, [Go(r), Go(r), Go(r), Go(r), Go(r), Go(r)]);
            n == s.(prompt := Clip(p, PROMPT_MAX), ready := false, accepted := s.accepted + [Clip(p, PROMPT_MAX)],
                    busy := true, tokens := s.tokens + 1, requests := s.requests[r := Idle])
  {
    hide Run;
    RunSix(relay, s, Go(r));
    var p := s.requests[r].prompt;
    var s1 := Next(relay, s, Go(r));
    assert s1 == s.(owner := Requester(r), requests := s.requests[r := Writing(p)]);
    var s2 := Next(relay, s1, Go(r));
    assert s2.requests[r] == Clearing && s2.requests == s.requests[r := Clearing];
    var s3 := Next(relay, s2, Go(r));
    assert s3.requests == s.requests[r := Leaving];
    var s4 := Next(relay, s3, Go(r));
    assert s4.requests == s.requests[r := SettingBusy];
    var s5 := Next(relay, s4, Go(r));
    assert s5.requests == s.requests[r := Releasing];
    assert Next(relay, s5, Go(r)).requests == s.requests[r := Idle];
  }

  /** A thread that calls while the lock is initialised finds the flag down. */
  lemma CallToEntering(relay: Relay, s: State, r: nat, p: string)
    requires r < |s.requests| && s.requests[r] == Idle && s.inited && !s.busy && p != ""
    ensures Run(relay, s, [Ask(r, p), Go(r)] + [Go(r), Go(r)]) ==
              s.(work := if s.work == NotStarted then Waiting else s.work, requests := s.requests[r := Entering(p)])
  {
    hide Run;
    RunTwo(relay, s, Ask(r, p), Go(r));
    var s1 := Next(relay, s, Ask(r, p));
    var s2 := Next(relay, s1, Go(r));
    assert s2 == s.(requests := s.requests[r := Starting(p)]);
    RunTwo(relay, s2, Go(r), Go(r));
    var s3 := Next(relay, s2, Go(r));
    assert s3.requests == s.requests[r := Checking(p)];
    assert Next(relay, s3, Go(r)).requests == s.requests[r := Entering(p)];
    RunConcat(relay, s, [Ask(r, p), Go(r)], [Go(r), Go(r)]);
  }

  /** The very first call initialises the lock. */
  lemma FirstToEntering(relay: Relay, s: State, r: nat, p: string)
    requires r < |s.requests| && s.requests[r] == Idle && !s.inited && !s.busy && p != ""
    ensures Run(relay, s, [Ask(r, p), Go(r)] + [Go(r), Go(r)] + [Go(r), Go(r)]) ==
              s.(inited := true, owner := Nobody, work := if s.work == NotStarted then Waiting else s.work,
                 requests := s.requests[r := Entering(p)])
  {
    hide Run;
    RunTwo(relay, s, Ask(r, p), Go(r));
    var s1 := Next(relay, s, Ask(r, p));
    var s2 := Next(relay, s1, Go(r));
    assert s2 == s.(requests := s.requests[r := Initing(p)]);
    RunTwo(relay, s2, Go(r), Go(r));
    var s3 := Next(relay, s2, Go(r));
    assert s3 == s.(owner := Nobody, requests := s.requests[r := Inited(p)]);
    var s4 := Next(relay, s3, Go(r));
    assert s4.requests == s.requests[r := Starting(p)];
    RunTwo(relay, s4, Go(r), Go(r));
    var s5 := Next(relay, s4, Go(r));
    assert s5.requests == s.requests[r := Checking(p)];
    assert Next(relay, s5, Go(r)).requests == s.requests[r := Entering(p)];
    RunConcat(relay, s, [Ask(r, p), Go(r)], [Go(r), Go(r)]);
    RunConcat(relay, s, [Ask(r, p), Go(r)] + [Go(r), Go(r)], [Go(r), Go(r)]);
  }

  function Six(x: Step): seq<Step> { [x, x, x, x, x, x] }

  /** Two requesting threads that look at the flag before either sets it are both accepted,
      two tokens are out, and the prompt of the first is lost: the worker, on its own, then
      asks the second prompt as its first question. */
  lemma TwoRequesters(relay: Relay, requesters: nat, takers: nat, p: string, q: string) returns (steps: seq<Step>)
    requires requesters >= 2 && p != "" && q != ""
    ensures var s := Run(relay, Start(requesters, takers), steps);
            && s.tokens == 2 && s.accepted == [Clip(p, PROMPT_MAX), Clip(q, PROMPT_MAX)] && s.published == 0
            && Worked(relay, s, 8).published == 1
            && Worked(relay, s, 8).reply == Clip(relay(1, Clip(q, PROMPT_MAX)), REPLY_MAX)
  {
    hide Run, Next, Worked;
    var s0 := Start(requesters, takers);
    var a := [Ask(0, p), Go(0)] + [Go(0), Go(0)] + [Go(0), Go(0)];
    var b := [Ask(1, q), Go(1)] + [Go(1), Go(1)];
    FirstToEntering(relay, s0, 0, p);
    var s1 := Run(relay, s0, a);
    CallToEntering(relay, s1, 1, q);
    var s2 := Run(relay, s1, b);
    RequestGoesThrough(relay, s2, 0);
    var s3 := Run(relay, s2, Six(Go(0)));
    RequestGoesThrough(relay, s3, 1);
    var s4 := Run(relay, s3, Six(Go(1)));
    RunConcat(relay, s0, a, b);
    RunConcat(relay, s0, a + b, Six(Go(0)));
    RunConcat(relay, s0, a + b + Six(Go(0)), Six(Go(1)));
    steps := a + b + Six(Go(0)) + Six(Go(1));
    assert |Clip(q, PROMPT_MAX)| < PROMPT_MAX;
    FirstQuestion(relay, s4);
  }

  /** One request at a time in every run: exactly if there is at most one requesting thread. */
  lemma OneRequesterOnly(relay: Relay, requesters: nat, takers: nat)
    ensures (forall steps :: OneUnderWay(Run(relay, Start(requesters, takers), steps))) <==> requesters <= 1
  {
    if requesters >= 2 {
      var steps := TwoRequesters(relay, requesters, takers, "a", "b");
      assert !OneUnderWay(Run(relay, Start(requesters, takers), steps));
    } else {
      forall steps ensures OneUnderWay(Run(relay, Start(requesters, takers), steps)) {
        if requesters == 1 { OneAtATime(relay, takers, steps); } else { NothingAsked(relay, Start(0, takers), steps); }
      }
    }
  }

  lemma FirstQuestion(relay: Relay, s: State)
    requires s.work == Waiting && s.tokens > 0 && s.owner == Nobody && |s.prompt| < PROMPT_MAX
    ensures var n := Worked(relay, s, 8);
            n.published == s.published + 1 && n.reply == Clip(relay(s.published + 1, s.prompt), REPLY_MAX)
  {
    hide WorkOn;
    var t := Four(relay, s);
    FetchesPrompt(relay, s);
    Publishes(relay, t);
    WorkedFour(relay, s, 4);
    WorkedFour(relay, t, 0);
  }

  function Four(relay: Relay, s: State): State
  {
    WorkOn(relay, WorkOn(relay, WorkOn(relay, WorkOn(relay, s))))
  }

  lemma FetchesPrompt(relay: Relay, s: State)
    requires s.work == Waiting && s.tokens > 0 && s.owner == Nobody && |s.prompt| < PROMPT_MAX
    ensures Four(relay, s) == s.(tokens := s.tokens - 1, work := Asking(s.prompt))
  {
    var s1 := WorkOn(relay, s);
    var s2 := WorkOn(relay, s1);
    assert s2 == s.(tokens := s.tokens - 1, owner := Worker, work := Copying);
  }

  lemma Publishes(relay: Relay, s: State)
    requires s.work.Asking? && s.owner == Nobody
    ensures var n := Four(relay, s);
            n.published == s.published + 1 && n.reply == Clip(relay(s.published + 1, s.work.prompt), REPLY_MAX)
  {
    var s2 := WorkOn(relay, WorkOn(relay, s));
    var t := Clip(relay(s.published + 1, s.work.prompt), REPLY_MAX);
    assert s2 == s.(owner := Worker, work := Storing(t));
  }

  lemma WorkedFour(relay: Relay, s: State, n: nat)
    ensures Worked(relay, s, n + 4) == Worked(relay, Four(relay, s), n)
  {
    hide WorkOn;
    var s2 := WorkOn(relay, WorkOn(relay, s));
    assert Worked(relay, s, n + 4) == Worked(relay, WorkOn(relay, s), n + 3) == Worked(relay, s2, n + 2);
    assert Worked(relay, s2, n + 2) == Worked(relay, WorkOn(relay, s2), n + 1);
  }

  // ---------------------------------------------------------------- a lock initialised too late

  /** The worker on its own, from the token to the published reply. */
  lemma WorkerAnswers(relay: Relay, s: State)
    requires s.work == Waiting && s.tokens > 0 && s.owner == Nobody && |s.prompt| < PROMPT_MAX
    ensures var n := Run(relay, s, Six(Work) + [Work, Work] + [Work, Work]);
            n == s.(tokens := s.tokens - 1, reply := Clip(Clip(relay(s.published + 1, s.prompt), REPLY_MAX), REPLY_MAX),
                    ready := true, published := s.published + 1, busy := false)
  {
    hide Run, Clip, WorkOn;
    var t := Clip(relay(s.published + 1, s.prompt), REPLY_MAX);
    RunSix(relay, s, Work);
    var s4 := Four(relay, s);
    FetchesPrompt(relay, s);
    var s6 := WorkOn(relay, WorkOn(relay, s4));
    AsksPrompt(relay, s4);
    RunTwo(relay, s6, Work, Work);
    var s8 := WorkOn(relay, WorkOn(relay, s6));
    StoresReply(relay, s6);
    RunTwo(relay, s8, Work, Work);
    FreesMailbox(relay, s8);
    RunConcat(relay, s, Six(Work), [Work, Work]);
    RunConcat(relay, s, Six(Work) + [Work, Work], [Work, Work]);
  }

  lemma AsksPrompt(relay: Relay, s: State)
    requires s.work.Asking? && s.owner == Nobody
    ensures WorkOn(relay, WorkOn(relay, s)) ==
              s.(owner := Worker, work := Storing(Clip(relay(s.published + 1, s.work.prompt), REPLY_MAX)))
  {
    hide Clip;
  }

  lemma StoresReply(relay: Relay, s: State)
    requires s.work.Storing? && s.owner == Worker
    ensures WorkOn(relay, WorkOn(relay, s)) ==
              s.(reply := Clip(s.work.reply, REPLY_MAX), ready := true, published := s.published + 1, work := Unlocking)
  {
    hide Clip;
  }

  lemma FreesMailbox(relay: Relay, s: State)
    requires s.work.Unlocking? && s.owner == Worker
    ensures WorkOn(relay, WorkOn(relay, s)) == s.(owner := Nobody, busy := false, work := Waiting)
  {
  }

  /** A taker that still has to initialise the lock takes it away from the requester, and then
      takes a reply that the accepted prompt has already outdated. */
  lemma LockTakenAway(relay: Relay, s: State)
    requires |s.requests| == 1 && s.requests[0].Entering? && s.owner == Nobody && s.inited && s.ready
    requires |s.takings| > 0 && s.takings[0] == Making(1)
    ensures var n := Run(relay, s, [Go(0), Go(0)] + [Fetch(0), Fetch(0)] + [Fetch(0), Fetch(0)] + [Fetch(0), Go(0)] + [Fetch(0), Fetch(0)]);
            n.taken == s.taken + [Receipt(s.published, |s.accepted| + 1, 1, Clip(s.reply, 1))]
  {
    hide Run, Clip;
    var p, f, g := s.requests[0].prompt, Fetch(0), Go(0);
    RunTwo(relay, s, g, g);
    var s1 := Next(relay, s, g);
    var s2 := Next(relay, s1, g);
    assert s2 == s.(owner := Requester(0), prompt := Clip(p, PROMPT_MAX), requests := [Clearing]);
    RunTwo(relay, s2, f, f);
    var s3 := Next(relay, s2, f);
    var s4 := Next(relay, s3, f);
    assert s4 == s2.(owner := Nobody, takings := s.takings[0 := Knocking(1)]);
    RunTwo(relay, s4, f, f);
    var s5 := Next(relay, s4, f);
    var s6 := Next(relay, s5, f);
    assert s6 == s4.(owner := Taker(0), takings := s.takings[0 := Fetching(1)]);
    RunTwo(relay, s6, f, g);
    var s7 := Next(relay, s6, f);
    assert s7 == s6.(takings := s.takings[0 := Emptying(1, Clip(s.reply, 1))]);
    var s8 := Next(relay, s7, g);
    assert s8 == s7.(ready := false, accepted := s.accepted + [Clip(p, PROMPT_MAX)], requests := [Leaving]);
    RunTwo(relay, s8, f, f);
    var s9 := Next(relay, s8, f);
    assert Next(relay, s9, f).taken == s9.taken;
    RunConcat(relay, s, [g, g], [f, f]);
    RunConcat(relay, s, [g, g] + [f, f], [f, f]);
    RunConcat(relay, s, [g, g] + [f, f] + [f, f], [f, g]);
    RunConcat(relay, s, [g, g] + [f, f] + [f, f] + [f, g], [f, f]);
  }

  /** A taker that finds the flag down may be held up before it initialises the lock. If the
      first request is answered and the second is being accepted meanwhile, the first reply
      is taken as if it answered the second prompt. */
  lemma LateInit(relay: Relay, takers: nat) returns (steps: seq<Step>)
    requires takers > 0
    ensures !RepliesFit(relay, Run(relay, Start(1, takers), steps))
  {
    hide Run, Next, Clip;
    var s0 := Start(1, takers);
    var a, b := [Take(0, 1), Fetch(0)], [Ask(0, "a"), Go(0)] + [Go(0), Go(0)] + [Go(0), Go(0)];
    var c, d, e := Six(Go(0)), Six(Work) + [Work, Work] + [Work, Work], [Ask(0, "b"), Go(0)] + [Go(0), Go(0)];
    var f := [Go(0), Go(0)] + [Fetch(0), Fetch(0)] + [Fetch(0), Fetch(0)] + [Fetch(0), Go(0)] + [Fetch(0), Fetch(0)];
    HeldUp(relay, takers);
    var s1 := Run(relay, s0, a);
    FirstToEntering(relay, s1, 0, "a");
    var s2 := Run(relay, s1, b);
    RequestGoesThrough(relay, s2, 0);
    var s3 := Run(relay, s2, c);
    WorkerAnswers(relay, s3);
    var s4 := Run(relay, s3, d);
    CallToEntering(relay, s4, 0, "b");
    var s5 := Run(relay, s4, e);
    LockTakenAway(relay, s5);
    var s6 := Run(relay, s5, f);
    RunConcat(relay, s0, a, b);
    RunConcat(relay, s0, a + b, c);
    RunConcat(relay, s0, a + b + c, d);
    RunConcat(relay, s0, a + b + c + d, e);
    RunConcat(relay, s0, a + b + c + d + e, f);
    steps := a + b + c + d + e + f;
    assert s6.taken[0].number == 1 && s6.taken[0].accepted == 2;
  }

  lemma HeldUp(relay: Relay, takers: nat)
    requires takers > 0
    ensures var s := Start(1, takers);
            Run(relay, s, [Take(0, 1), Fetch(0)]) == s.(takings := s.takings[0 := Making(1)])
  {
    hide Run;
    RunTwo(relay, Start(1, takers), Take(0, 1), Fetch(0));
  }

  /** With one requesting thread and takers on threads of their own, replies fit in every run
      exactly if the lock is initialised before the first call, or there are no takers. */
  lemma LockFirst(relay: Relay, ready: bool, takers: nat)
    ensures (forall steps :: RepliesFit(relay, Run(relay, StartWith(ready, 1, takers), steps))) <==> ready || takers == 0
  {
    hide Run, RepliesFit;
    var s0 := StartWith(ready, 1, takers);
    if ready || takers == 0 {
      forall steps ensures RepliesFit(relay, Run(relay, s0, steps)) {
        if ready { ReadyIsCalm(relay, s0, steps); } else { NoTakersIsCalm(relay, s0, steps); }
        RepliesAnswer(relay, ready, takers, steps);
      }
    } else {
      assert s0 == Start(1, takers);
      var steps := LateInit(relay, takers);
      assert !RepliesFit(relay, Run(relay, s0, steps));
    }
  }

  // ---------------------------------------------------------------- a reply is delivered

  /** The first n characters. */
  function Prefix(s: string, n: nat): string
  {
    if |s| <= n then s else s[..n]
  }

  /** One call of ai_chat_take_reply, let run to its end. */
  function TakeSteps(t: nat, size: nat): seq<Step>
  {
    [Take(t, size), Fetch(t)] + [Fetch(t), Fetch(t)] + [Fetch(t), Fetch(t)] + [Fetch(t), Fetch(t)]
  }

  /** With a reply ready it is copied, as much as fits the buffer, and taken exactly once;
      with none ready nothing changes. */
  lemma TakeDelivers(relay: Relay, s: State, t: nat, size: nat)
    requires t < |s.takings| && s.takings[t] == Absent && s.inited && s.owner == Nobody && size > 0
    ensures Run(relay, s, TakeSteps(t, size)) ==
              if s.ready then
                s.(ready := false,
                   taken := s.taken + [Receipt(s.published, |s.accepted|, size, Prefix(s.reply, size - 1))])
              else s
  {
    hide Run;
    var f := Fetch(t);
    RunTwo(relay, s, Take(t, size), f);
    var s1 := Next(relay, s, Take(t, size));
    var s2 := Next(relay, s1, f);
    assert s2 == s.(takings := s.takings[t := Knocking(size)]);
    RunTwo(relay, s2, f, f);
    var s3 := Next(relay, s2, f);
    var s4 := Next(relay, s3, f);
    assert s4 == s.(owner := Taker(t), takings := s.takings[t := if s.ready then Fetching(size) else Going]);
    RunTwo(relay, s4, f, f);
    RunConcat(relay, s, [Take(t, size), f], [f, f]);
    RunConcat(relay, s, [Take(t, size), f] + [f, f], [f, f]);
    RunConcat(relay, s, [Take(t, size), f] + [f, f] + [f, f], [f, f]);
    TakeEnds(relay, s, s4, t, size);
  }

  lemma TakeEnds(relay: Relay, s: State, s4: State, t: nat, size: nat)
    requires t < |s.takings| && s.takings[t] == Absent && s.owner == Nobody && size > 0
    requires s4 == s.(owner := Taker(t), takings := s.takings[t := if s.ready then Fetching(size) else Going])
    ensures Run(relay, Run(relay, s4, [Fetch(t), Fetch(t)]), [Fetch(t), Fetch(t)]) ==
              if s.ready then
                s.(ready := false,
                   taken := s.taken + [Receipt(s.published, |s.accepted|, size, Prefix(s.reply, size - 1))])
              else s
  {
    hide Run;
    var f := Fetch(t);
    RunTwo(relay, s4, f, f);
    var s5 := Next(relay, s4, f);
    var s6 := Next(relay, s5, f);
    RunTwo(relay, s6, f, f);
    if s.ready {
      assert s5 == s4.(takings := s.takings[t := Emptying(size, Prefix(s.reply, size - 1))]);
      assert s6.takings == s.takings[t := Going] && s6.owner == Taker(t);
    } else {
      assert s5.takings == s.takings[t := Absent] == s.takings;
      assert s5 == s;
    }
  }

  /** The reply to the prompt accepted last reaches the next taker, whatever its buffer. */
  lemma ReplyReachesTaker(relay: Relay, s: State, t: nat, size: nat)
    requires Invariant(relay, s) && s.requests[0] == Idle && (s.owner == Nobody || s.owner == Worker)
    requires |s.accepted| > s.published && t < |s.takings| && s.takings[t] == Absent && size > 0
    ensures var n := Run(relay, Worked(relay, s, StepsLeft(s)), TakeSteps(t, size));
            var k := |s.accepted|;
            && n.taken == s.taken + [Receipt(k, k, size, Prefix(Prefix(relay(k, s.accepted[k-1]), 767), size - 1))]
            && !n.ready && !n.busy && n.accepted == s.accepted
  {
    HasLock(relay, s);
    WorkerFinishes(relay, s);
    var w := Worked(relay, s, StepsLeft(s));
    ReadyIsLast(relay, w);
    hide Invariant, Worked, Run, StepsLeft;
    TakeDelivers(relay, w, t, size);
  }

  lemma HasLock(relay: Relay, s: State)
    requires Invariant(relay, s) && s.requests[0] == Idle && |s.accepted| > s.published
    ensures s.inited
  {
    hide Contents, Seen, Receipts, Exclusive;
  }

  lemma ReadyIsLast(relay: Relay, s: State)
    requires Invariant(relay, s)
    ensures s.ready ==> 1 <= |s.accepted| == s.published && s.reply == Prefix(relay(s.published, s.accepted[s.published-1]), 767)
  {
    hide Seen, Receipts, Exclusive, Counted, LockPhase;
  }

  lemma {:induction false} WorkedIsRun(relay: Relay, s: State, n: nat)
    ensures Worked(relay, s, n) == Run(relay, s, seq(n, _ => Work))
    decreases n
  {
    hide WorkOn;
    if n > 0 {
      WorkedIsRun(relay, WorkOn(relay, s), n - 1);
      assert seq(n, _ => Work)[1..] == seq(n - 1, _ => Work);
    }
  }

  /** What an accepted request leaves. */
  lemma RequestLeaves(relay: Relay, s: State, p: string)
    requires Invariant(relay, s) && s.requests[0] == Idle && !s.busy && s.owner == Nobody && (s.inited || Outside(s))
    ensures Invariant(relay, s.(inited := true, busy := true, ready := false, tokens := 1, work := Waiting,
                                prompt := Clip(p, PROMPT_MAX), accepted := s.accepted + [Clip(p, PROMPT_MAX)]))
  {
    var n := s.(inited := true, busy := true, ready := false, tokens := 1, work := Waiting,
                prompt := Clip(p, PROMPT_MAX), accepted := s.accepted + [Clip(p, PROMPT_MAX)]);
    forall i | 0 <= i < |s.taken| ensures Fits(relay, n, s.taken[i]) { assert Fits(relay, s, s.taken[i]); }
  }

  /** The whole round: a prompt asked when the mailbox is free is answered to the next taker. */
  lemma PromptIsAnswered(relay: Relay, s: State, p: string, t: nat, size: nat) returns (steps: seq<Step>)
    requires Invariant(relay, s) && s.requests[0] == Idle && !s.busy && s.owner == Nobody && (s.inited || Outside(s))
    requires p != "" && t < |s.takings| && s.takings[t] == Absent && size > 0
    ensures var n := Run(relay, s, steps);
            var k := |s.accepted| + 1;
            && n.accepted == s.accepted + [Prefix(p, 255)]
            && n.taken == s.taken + [Receipt(k, k, size, Prefix(Prefix(relay(k, Prefix(p, 255)), 767), size - 1))]
            && !n.ready && !n.busy
  {
    RequestLeaves(relay, s, p);
    NothingUnderWay(relay, s);
    assert Clip(p, PROMPT_MAX) == Prefix(p, 255);
    hide Invariant, Run, Worked, Clip;
    var first := if s.inited then [Ask(0, p), Go(0)] + [Go(0), Go(0)] else [Ask(0, p), Go(0)] + [Go(0), Go(0)] + [Go(0), Go(0)];
    if s.inited { CallToEntering(relay, s, 0, p); } else { FirstToEntering(relay, s, 0, p); }
    var s1 := Run(relay, s, first);
    RequestGoesThrough(relay, s1, 0);
    var s2 := Run(relay, s1, Six(Go(0)));
    assert s2.requests == s.requests;
    ReplyReachesTaker(relay, s2, t, size);
    var works := seq(StepsLeft(s2), _ => Work);
    WorkedIsRun(relay, s2, StepsLeft(s2));
    RunConcat(relay, s, first, Six(Go(0)));
    RunConcat(relay, s, first + Six(Go(0)), works);
    RunConcat(relay, s, first + Six(Go(0)) + works, TakeSteps(t, size));
    steps := first + Six(Go(0)) + works + TakeSteps(t, size);
  }

  lemma NothingUnderWay(relay: Relay, s: State)
    requires Invariant(relay, s) && s.requests[0] == Idle && !s.busy
    ensures s.tokens == 0 && !Active(s.work) && |s.accepted| == s.published && |s.requests| == 1
  {
    hide Contents, Seen, Receipts, Exclusive, LockPhase;
  }

  /** While a request is under way, another is refused and changes nothing. */
  lemma BusyRefuses(relay: Relay, s: State, r: nat, p: string)
    requires r < |s.requests| && s.requests[r] == Idle && s.inited && s.busy && s.work != NotStarted
    ensures Run(relay, s, [Ask(r, p), Go(r)] + [Go(r), Go(r)]) == s
  {
    hide Run;
    RunTwo(relay, s, Ask(r, p), Go(r));
    var s2 := Next(relay, Next(relay, s, Ask(r, p)), Go(r));
    RunTwo(relay, s2, Go(r), Go(r));
    RunConcat(relay, s, [Ask(r, p), Go(r)], [Go(r), Go(r)]);
    if p == "" {
      assert s2 == s;
    } else {
      assert s2 == s.(requests := s.requests[r := Starting(p)]);
      var s3 := Next(relay, s2, Go(r));
      assert s3.requests == s.requests[r := Checking(p)];
      assert Next(relay, s3, Go(r)).requests == s.requests;
    }
  }
}
