/** Two conversations between connected clients, played against the model of
    the chat worker: what each client's outgoing queue holds at the end. */
module Scenarios {
  import opened Protocol
  import opened Session

  /** The lines of the first conversation and the commands they are. */
  lemma RenameChatStopLines(n: string, text: string)
    requires n != "" && ' ' !in n
    requires text != "" && text[0] != '/' && text[0] > ' '
    ensures Classify("/name " + n) == Rename(n)
    ensures Classify(text) == Chat(text)
    ensures Classify("/stop") == Stop
  {
    RenameCommand(n, "");
    assert "/name " + n + "" == "/name " + n;
    ExactCommands("/stop");
  }

  /** Two clients connect, both still called "unknown". */
  method Connect() returns (registry: Registry, s1: Worker, s2: Worker)
    ensures fresh(registry) && fresh(s1) && fresh(s2)
    ensures registry.members == [s1, s2] && s1 != s2 && Distinct(registry.members)
    ensures s1.workers == registry && s2.workers == registry
    ensures s1.name == "unknown" && s2.name == "unknown"
    ensures s1.responses == [] && s2.responses == []
  {
    registry := new Registry();
    s1 := new Worker(registry);
    s2 := new Worker(registry);
    registry.Add(s1);
    registry.Add(s2);
  }

  /** Two clients connect; the first renames itself to `n` and then says
      `text`. */
  method RenameThenChat(n: string, text: string) returns (registry: Registry, s1: Worker, s2: Worker)
    requires n != "" && ' ' !in n && '%' !in n
    requires text != "" && text[0] != '/' && text[0] > ' ' && '%' !in text
    ensures fresh(registry) && fresh(s1) && fresh(s2)
    ensures registry.members == [s1, s2] && s1 != s2
    ensures s1.workers == registry && s2.workers == registry
    ensures s1.name == n
    ensures s1.responses == [NameChanged(n)]
    ensures s2.responses == [Renamed("unknown", n), ChatLine(n, text)]
  {
    registry, s1, s2 := Connect();

    var outcome := s1.Dispatch(Rename(n), "", "");
    assert s1 in registry.members && s2 in registry.members;
    assert s1.responses == [NameChanged(n)] && s2.responses == [Renamed("unknown", n)];
    outcome := s1.Dispatch(Chat(text), "", "");
  }

  /** Two clients connect. The first sends `/name n`, then `text`, then
      `/stop` (the commands of `RenameChatStopLines`) and terminates: the
      second sees the rename under the old name, the chat under the new one,
      and the departure. */
  method RenameChatStop(n: string, text: string) returns (first: seq<string>, second: seq<string>)
    requires n != "" && ' ' !in n && '%' !in n
    requires text != "" && text[0] != '/' && text[0] > ' ' && '%' !in text
    ensures first == [NameChanged(n), Bye]
    ensures second == [Renamed("unknown", n), ChatLine(n, text), HasLeft(n)]
  {
    var registry, s1, s2 := RenameThenChat(n, text);
    var outcome := s1.Dispatch(Stop, "", "");
    assert s1.responses == [NameChanged(n), Bye];
    assert Without([s1, s2], s1) == [s2] by {
      assert Without([], s1) == [];
      assert [s2][1..] == [];
      assert Without([s2], s1) == [s2];
      assert [s1, s2][1..] == [s2];
    }
    s1.Terminate();
    first, second := s1.responses, s2.responses;
  }

  /** The lines of the second conversation and the commands they are. */
  lemma WhisperLines(t: string, b: string, u: string)
    requires t != "" && ' ' !in t && u != "" && ' ' !in u
    requires b != "" && ' ' !in b
    ensures Classify("/name " + t) == Rename(t)
    ensures Classify("/w " + t + " " + b) == Whisper(t, b)
    ensures Classify("/w " + u + " " + b) == Whisper(u, b)
  {
    RenameCommand(t, "");
    assert "/name " + t + "" == "/name " + t;
    WhisperCommand(t, b, "");
    assert "/w " + t + " " + b + "" == "/w " + t + " " + b;
    WhisperCommand(u, b, "");
    assert "/w " + u + " " + b + "" == "/w " + u + " " + b;
  }

  /** Two clients connect and the second renames itself to `t`. */
  method ConnectAndRename(t: string) returns (registry: Registry, s1: Worker, s2: Worker)
    requires t != ""
    ensures fresh(registry) && fresh(s1) && fresh(s2)
    ensures registry.members == [s1, s2] && s1 != s2
    ensures s1.workers == registry && s2.workers == registry
    ensures s1.name == "unknown" && s2.name == t
    ensures s1.responses == [Renamed("unknown", t)]
    ensures s2.responses == [NameChanged(t)]
  {
    registry, s1, s2 := Connect();
    var outcome := s2.Dispatch(Rename(t), "", "");
    assert s1 in registry.members && s2 in registry.members;
  }

  /** The second client has renamed itself to `t`; the first whispers `b` to
      `t`, which reaches only `t`, and then to `u`, whom nobody is called,
      which earns the sender an error. */
  method WhisperFoundAndMissing(t: string, b: string, u: string) returns (first: seq<string>, second: seq<string>)
    requires t != "" && t != "unknown"
    requires u != t && u != "unknown"
    requires '%' !in b
    ensures first == [Renamed("unknown", t), NotFound(u)]
    ensures second == [NameChanged(t), WhisperFrom("unknown", b)]
  {
    var registry, s1, s2 := ConnectAndRename(t);
    assert s2 in registry.members && s2.name == t;
    var outcome := s1.Dispatch(Whisper(t, b), "", "");
    assert s1.responses == [Renamed("unknown", t)];
    assert s2.responses == [NameChanged(t), WhisperFrom("unknown", b)];
    assert forall w :: w in registry.members ==> w == s1 || w == s2;
    outcome := s1.Dispatch(Whisper(u, b), "", "");
    first, second := s1.responses, s2.responses;
  }
}
