/** The chat worker: one per connection, with a display name and an outgoing
    queue, all sharing one registry of live workers. A dispatch step reads one
    request line and appends lines to specific queues; termination leaves the
    registry and tells the others. Sockets, threads and locks are not part of
    this model: a session is a sequence of request lines handled one at a
    time. */
module Session {
  import opened Protocol

  /** No element occurs twice (the registry is a `Set`). */
  predicate Distinct<T(==)>(s: seq<T>)
  {
    forall i, j :: 0 <= i < j < |s| ==> s[i] != s[j]
  }

  /** `s` without `x`, the order of the others kept. */
  function Without<T(==)>(s: seq<T>, x: T): (r: seq<T>)
    ensures forall i :: 0 <= i < |r| ==> r[i] in s && r[i] != x
    ensures forall i :: 0 <= i < |s| && s[i] != x ==> s[i] in r
  {
    if s == [] then []
    else (if s[0] == x then [] else [s[0]]) + Without(s[1..], x)
  }

  /** Removal keeps distinct elements distinct; it shrinks a distinct
      sequence by one when `x` was present, and changes nothing when it was
      not. */
  lemma {:induction false} WithoutSpec<T>(s: seq<T>, x: T)
    ensures Distinct(s) ==> Distinct(Without(s, x))
    ensures Distinct(s) && x in s ==> |Without(s, x)| == |s| - 1
    ensures x !in s ==> Without(s, x) == s
  {
    if s != [] {
      var rest := Without(s[1..], x);
      WithoutSpec(s[1..], x);
      assert s == [s[0]] + s[1..];
      assert x in s <==> x == s[0] || x in s[1..];
      if Distinct(s) {
        DistinctTail(s);
        if s[0] != x {
          DistinctCons(s[0], rest);
        }
      }
    }
  }

  /** The tail of a distinct sequence is distinct and lacks the head. */
  lemma DistinctTail<T>(s: seq<T>)
    requires s != [] && Distinct(s)
    ensures Distinct(s[1..]) && s[0] !in s[1..]
  {
    forall i, j | 0 <= i < j < |s[1..]|
      ensures s[1..][i] != s[1..][j]
    {
      assert s[1..][i] == s[i + 1] && s[1..][j] == s[j + 1];
    }
    forall i | 0 <= i < |s[1..]|
      ensures s[1..][i] != s[0]
    {
      assert s[1..][i] == s[i + 1];
    }
  }

  /** Putting a new element in front of a distinct sequence keeps it distinct. */
  lemma DistinctCons<T>(a: T, rest: seq<T>)
    requires Distinct(rest) && a !in rest
    ensures Distinct([a] + rest)
  {
    forall i, j | 0 <= i < j < |[a] + rest|
      ensures ([a] + rest)[i] != ([a] + rest)[j]
    {
      assert ([a] + rest)[j] == rest[j - 1];
      if i > 0 {
        assert ([a] + rest)[i] == rest[i - 1];
      } else {
        assert rest[j - 1] in rest;
      }
    }
  }

  /** The display names of `ws`, in order. */
  function Names(ws: seq<Worker>): (r: seq<string>)
    reads ws`name
    ensures |r| == |ws|
    ensures forall i :: 0 <= i < |ws| ==> r[i] == ws[i].name
  {
    if ws == [] then [] else [ws[0].name] + Names(ws[1..])
  }

  /** How a dispatch step or a session ends: still running, stopped by
      `/stop`, or ended by a runtime exception that escapes `run()`. */
  datatype Outcome = Running | Stopped | Crashed(fault: Fault)

  /** One request line, with what the clock and the memory probe would
      report if the line asks for them. */
  datatype Input = Input(line: string, time: string, memory: string)

  /** Commands whose only effect is on the issuing worker's own queue. */
  predicate SelfOnly(c: Command)
  {
    !(c.Rename? || c.Whisper? || c.Chat?)
  }

  /** What a self-only command appends to the issuer's queue. */
  function Reply(c: Command, now: string, memory: string, clients: string): seq<string>
  {
    match c
    case EmptyWhisper => [EmptyMessageError]
    case Stop => [Bye]
    case Time => [now]
    case Clients => [clients]
    case Memory => [memory]
    case Unknown(verb) => [NoCommand(verb)]
    case _ => []
  }

  /** The outcome of one dispatch step. */
  function StepOutcome(c: Command): Outcome
  {
    match c
    case Stop => Stopped
    case Crash(f) => Crashed(f)
    case _ => Running
  }

  /** How a session over `inbox` ends: at its first `/stop` or crashing line,
      or still running when the lines run out. */
  function Halt(inbox: seq<Input>): Outcome
  {
    if inbox == [] then Running
    else if StepOutcome(Classify(inbox[0].line)) != Running then StepOutcome(Classify(inbox[0].line))
    else Halt(inbox[1..])
  }

  /** The display name after a session over `inbox` that started as `n`. */
  function NameAfter(n: string, inbox: seq<Input>): string
    decreases |inbox|
  {
    if inbox == [] then n
    else
      var c := Classify(inbox[0].line);
      if c.Rename? then NameAfter(c.newName, inbox[1..])
      else if StepOutcome(c) != Running then n
      else NameAfter(n, inbox[1..])
  }

  /** The shared registry of live workers (`Set<ChatWorker> workers`), as a
      sequence in iteration order. */
  class Registry {
    var members: seq<Worker>

    constructor ()
      ensures members == []
    {
      members := [];
    }

    /** Registration by the accepting server (`Set.add`). */
    method Add(w: Worker)
      modifies this
      ensures members == if w in old(members) then old(members) else old(members) + [w]
    {
      if w !in members {
        members := members + [w];
      }
    }

    /** `Set.remove`. */
    method Remove(w: Worker)
      modifies this
      ensures members == Without(old(members), w)
      ensures Distinct(old(members)) ==> Distinct(members)
    {
      WithoutSpec(members, w);
      members := Without(members, w);
    }
  }

  class Worker {
    const workers: Registry
    var name: string
    var responses: seq<string>

    constructor (workers: Registry)
      ensures this.workers == workers
      ensures name == "unknown" && responses == []
    {
      this.workers := workers;
      name := "unknown";
      responses := [];
    }

    /** `addMessage`: append to this worker's outgoing queue. */
    method AddMessage(message: string)
      modifies this`responses
      ensures responses == old(responses) + [message]
    {
      responses := responses + [message];
    }

    /** `broadcast`: one copy of `message` to every registered worker except
        this one. The message is used as a format string, so it must hold no
        `%` for the copy to be the message itself. */
    method Broadcast(message: string)
      requires Distinct(workers.members)
      requires '%' !in message
      modifies workers.members`responses
      ensures forall w :: w in workers.members ==>
        w.responses == if w == this then old(w.responses) else old(w.responses) + [message]
      ensures responses == old(responses)
    {
      TellOthers(message);
    }

    /** The stream over every registered worker except this one, appending
        `message` as it is (no formatting). */
    method TellOthers(message: string)
      requires Distinct(workers.members)
      modifies workers.members`responses
      ensures forall w :: w in workers.members ==>
        w.responses == if w == this then old(w.responses) else old(w.responses) + [message]
      ensures responses == old(responses)
    {
      var ws := workers.members;
      var i := 0;
      while i < |ws|
        invariant 0 <= i <= |ws|
        invariant forall j :: 0 <= j < i ==>
          ws[j].responses == if ws[j] == this then old(ws[j].responses) else old(ws[j].responses) + [message]
        invariant forall j :: i <= j < |ws| ==> ws[j].responses == old(ws[j].responses)
        invariant this !in ws ==> responses == old(responses)
      {
        if ws[i] != this {
          ws[i].AddMessage(message);
        }
        i := i + 1;
      }
    }

    /** The `findFirst` of `checklist`: is some registered worker named `target`? */
    method AnyNamed(target: string) returns (found: bool)
      ensures found <==> exists w :: w in workers.members && w.name == target
    {
      var ws := workers.members;
      var i := 0;
      found := false;
      while i < |ws| && !found
        invariant 0 <= i <= |ws|
        invariant found <==> exists j :: 0 <= j < i && ws[j].name == target
      {
        found := ws[i].name == target;
        i := i + 1;
      }
    }

    /** `checklist`: whisper `message` to every registered worker named
        `target`, or tell this worker that there is none. */
    method Checklist(target: string, message: string)
      requires Distinct(workers.members)
      requires '%' !in message
      modifies workers.members`responses, this`responses
      ensures (exists w :: w in workers.members && w.name == target) ==>
        (forall w :: w in workers.members ==>
           w.responses == old(w.responses) + if w.name == target then [WhisperFrom(name, message)] else []) &&
        (this !in workers.members ==> responses == old(responses))
      ensures !(exists w :: w in workers.members && w.name == target) ==>
        responses == old(responses) + [NotFound(target)] &&
        forall w :: w in workers.members && w != this ==> w.responses == old(w.responses)
    {
      var found := AnyNamed(target);
      if found {
        var ws := workers.members;
        var i := 0;
        while i < |ws|
          invariant 0 <= i <= |ws|
          invariant forall j :: 0 <= j < i ==>
            ws[j].responses == old(ws[j].responses) + if ws[j].name == target then [WhisperFrom(name, message)] else []
          invariant forall j :: i <= j < |ws| ==> ws[j].responses == old(ws[j].responses)
          invariant this !in ws ==> responses == old(responses)
        {
          if ws[i].name == target {
            ws[i].AddMessage(WhisperFrom(name, message));
          }
          i := i + 1;
        }
      } else {
        AddMessage(NotFound(target));
      }
    }

    /** The `/clients` reply: every registered name, this worker's included,
        joined by ", " in registry order. */
    method ClientNames() returns (line: string)
      ensures line == ClientList(Names(workers.members))
    {
      var ws := workers.members;
      ghost var names := Names(ws);
      if ws == [] {
        return "";
      }
      line := ws[0].name;
      assert names[..1] == [names[0]];
      var i := 1;
      while i < |ws|
        invariant 1 <= i <= |ws|
        invariant line == Join(names[..i], ", ")
      {
        assert names[..i + 1] == names[..i] + [names[i]];
        JoinSnoc(names[..i], names[i], ", ");
        line := line + ", " + ws[i].name;
        i := i + 1;
      }
      assert names[..i] == names;
    }

    /** `/name…`: take the new name, tell this worker (if registered) and
        every other registered worker, who learn the old name too. */
    method ChangeName(n: string)
      requires Distinct(workers.members)
      modifies this`name, this`responses, workers.members`responses
      ensures name == n
      ensures forall w :: w in workers.members ==>
        w.responses == old(w.responses) + [if w == this then NameChanged(n) else Renamed(old(name), n)]
      ensures this !in workers.members ==> responses == old(responses)
    {
      var previous := name;
      name := n;
      if this in workers.members {
        AddMessage(NameChanged(n));
      }
      TellOthers(Renamed(previous, n));
    }

    /** The commands that answer only this worker. */
    method Answer(c: Command, now: string, memory: string)
      requires SelfOnly(c)
      modifies this`responses
      ensures responses == old(responses) + Reply(c, now, memory, ClientList(Names(workers.members)))
    {
      match c {
        case EmptyWhisper =>
          AddMessage(EmptyMessageError);
        case Stop =>
          AddMessage(Bye);
        case Time =>
          AddMessage(now);
        case Clients =>
          var line := ClientNames();
          AddMessage(line);
        case Memory =>
          AddMessage(memory);
        case Unknown(verb) =>
          AddMessage(NoCommand(verb));
        case Listen =>
        case Blank =>
        case Crash(_) =>
      }
    }

    /** One step of the `run()` loop, once the request line has been
        classified (`Classify`): act on command `c`. `now` and `memory` stand
        for the clock and the memory probe. */
    method Dispatch(c: Command, now: string, memory: string) returns (outcome: Outcome)
      requires Distinct(workers.members)
      requires c.Whisper? ==> '%' !in c.body
      requires c.Chat? ==> '%' !in name && '%' !in c.text
      modifies this`name, this`responses, workers.members`responses
      ensures outcome == StepOutcome(c)
      ensures name == if c.Rename? then c.newName else old(name)
      ensures c.Rename? ==>
        (forall w :: w in workers.members ==>
           w.responses == old(w.responses) + [if w == this then NameChanged(c.newName) else Renamed(old(name), c.newName)]) &&
        (this !in workers.members ==> responses == old(responses))
      ensures c.Whisper? && (exists w :: w in workers.members && w.name == c.target) ==>
        (forall w :: w in workers.members ==>
           w.responses == old(w.responses) + if w.name == c.target then [WhisperFrom(name, c.body)] else []) &&
        (this !in workers.members ==> responses == old(responses))
      ensures c.Whisper? && !(exists w :: w in workers.members && w.name == c.target) ==>
        responses == old(responses) + [NotFound(c.target)] &&
        forall w :: w in workers.members && w != this ==> w.responses == old(w.responses)
      ensures c.Chat? ==>
        (forall w :: w in workers.members ==>
           w.responses == if w == this then old(w.responses) else old(w.responses) + [ChatLine(name, c.text)]) &&
        responses == old(responses)
      ensures SelfOnly(c) ==>
        responses == old(responses) + Reply(c, now, memory, ClientList(Names(workers.members))) &&
        forall w :: w in workers.members && w != this ==> w.responses == old(w.responses)
    {
      if c.Rename? {
        ChangeName(c.newName);
      } else if c.Whisper? {
        Checklist(c.target, c.body);
      } else if c.Chat? {
        Broadcast(ChatLine(name, c.text));
      } else {
        Answer(c, now, memory);
      }
      outcome := StepOutcome(c);
    }

    /** The termination block of `run()`: leave the registry, then tell every
        remaining worker. */
    method Terminate()
      requires Distinct(workers.members)
      requires '%' !in name
      modifies workers, workers.members`responses
      ensures workers.members == Without(old(workers.members), this)
      ensures Distinct(workers.members)
      ensures forall w :: w in workers.members ==> w.responses == old(w.responses) + [HasLeft(name)]
      ensures responses == old(responses)
    {
      workers.Remove(this);
      Broadcast(HasLeft(name));
    }

    /** `run()`: dispatch the lines of `inbox` in order until `/stop` or a
        runtime exception; the end of `inbox` stands for the interruption that
        ends the wait for more input. Unless an exception escaped, the worker
        then terminates. */
    method Run(inbox: seq<Input>) returns (outcome: Outcome)
      requires Distinct(workers.members)
      requires '%' !in name
      requires forall k :: 0 <= k < |inbox| ==> '%' !in inbox[k].line
      modifies this`name, this`responses, workers, workers.members`responses
      ensures outcome == Halt(inbox)
      ensures name == NameAfter(old(name), inbox)
      ensures outcome.Crashed? ==> workers.members == old(workers.members)
      ensures !outcome.Crashed? ==> workers.members == Without(old(workers.members), this)
      ensures Distinct(workers.members)
    {
      var i := 0;
      outcome := Running;
      while i < |inbox| && outcome == Running
        invariant 0 <= i <= |inbox|
        invariant workers.members == old(workers.members)
        invariant '%' !in name
        invariant outcome == Running ==> Halt(inbox) == Halt(inbox[i..])
        invariant outcome == Running ==> NameAfter(old(name), inbox) == NameAfter(name, inbox[i..])
        invariant outcome != Running ==> outcome == Halt(inbox) && name == NameAfter(old(name), inbox)
      {
        var c := Classify(inbox[i].line);
        outcome := Dispatch(c, inbox[i].time, inbox[i].memory);
        assert inbox[i..][1..] == inbox[i + 1..];
        i := i + 1;
      }
      if !outcome.Crashed? {
        Terminate();
      }
    }
  }
}
