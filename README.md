# Chat worker of SimpleChatServer

A model of `ChatWorker`, the per-connection worker of a small socket chat
server. Every connected client has a worker with a display name (initially
`unknown`) and an outgoing queue of lines, and all workers share one registry
of live workers. The worker reads request lines one at a time and dispatches
each:

- `/name N` renames the worker, with a notice to itself and to every other worker;
- `/w T M` whispers the word `M` to every worker named `T`, or reports that nobody is called `T`;
- `/r`, `/stop`, `/time`, `/clients` and `/memory` are matched against the whole line;
- any other `/` line is an unknown command;
- a non-blank line without `/` is chat, broadcast to every other worker.

When the session ends the worker leaves the registry and tells the others.

The project has three modules:

- `Protocol` (`protocol.dfy`) is pure. It holds Java's `String.split(" ")` (`Split`, over `Fields` and `DropTrailingEmpty`), `String.trim()` (`Trim`), the `", "`-joined client list, the classification of a request line into a `Command` (`Classify`), and the text of every line the worker sends.
- `Session` (`session.dfy`) is imperative. The `Registry` class holds the registry as a sequence of distinct workers. The `Worker` class holds `name` and `responses`, and its methods `AddMessage`, `Broadcast`, `Checklist`, `Dispatch`, `Terminate` and `Run` update those fields in place.
- `Scenarios` (`scenarios.dfy`) plays two short conversations between two workers. It proves what each queue holds at the end.

The `charAt(0)` of an empty line and the `split(" ")[1]` of a one-word `/w` line throw runtime exceptions in the source. Only `IOException` is caught there, so such an exception leaves `run()` without reaching the termination block, and the worker stays in the registry. The model has these as `Command.Crash` and `Outcome.Crashed`.

## Model

| member | source | states |
|---|---|---|
| Protocol.Split | Tugas1/SimpleChatServer-master/SimpleChatServer-master/src/main/java/ChatWorker.java:54 | no token of `split(" ")` contains a space |
| Protocol.DropTrailingEmpty | Tugas1/SimpleChatServer-master/SimpleChatServer-master/src/main/java/ChatWorker.java:54 | `split` keeps a prefix of the fields: only empty strings are dropped, all from the end, and the last kept token is non-empty |
| Protocol.JoinFields | Tugas1/SimpleChatServer-master/SimpleChatServer-master/src/main/java/ChatWorker.java:54 | splitting at a separator loses nothing: joining the fields back gives the line |
| Protocol.FieldsOfJoin | Tugas1/SimpleChatServer-master/SimpleChatServer-master/src/main/java/ChatWorker.java:54 | joining separator-free words and splitting again gives the words back |
| Protocol.SplitOfJoin | Tugas1/SimpleChatServer-master/SimpleChatServer-master/src/main/java/ChatWorker.java:54 | `split(" ")` of at least two space-free words joined by single spaces gives those words back, minus any trailing empty ones |
| Protocol.SplitAvoids | Tugas1/SimpleChatServer-master/SimpleChatServer-master/src/main/java/ChatWorker.java:54 | a character absent from the line is absent from every token, so a name or whisper taken from a `%`-free line is `%`-free |
| Protocol.SplitFirstToken | Tugas1/SimpleChatServer-master/SimpleChatServer-master/src/main/java/ChatWorker.java:90 | a line that does not start with a space has a first token: the non-empty text up to its first space |
| Protocol.TrimStart | Tugas1/SimpleChatServer-master/SimpleChatServer-master/src/main/java/ChatWorker.java:93 | `trim()` drops exactly the leading characters of code at most U+0020 |
| Protocol.TrimEnd | Tugas1/SimpleChatServer-master/SimpleChatServer-master/src/main/java/ChatWorker.java:93 | `trim()` drops exactly the trailing characters of code at most U+0020 |
| Protocol.Trim | Tugas1/SimpleChatServer-master/SimpleChatServer-master/src/main/java/ChatWorker.java:93 | `trim()` gives the slice of the line that lies between a blank prefix and a blank suffix, and that slice, when non-empty, starts and ends with a character above U+0020 |
| Protocol.TrimEmptyIffBlank | Tugas1/SimpleChatServer-master/SimpleChatServer-master/src/main/java/ChatWorker.java:93 | a line trims to the empty string exactly when every character is at most U+0020 |
| Protocol.ClientListRoundTrip | Tugas1/SimpleChatServer-master/SimpleChatServer-master/src/main/java/ChatWorker.java:81-83 | the `/clients` reply names every worker once, in registry order: cutting it at `", "` gives the names back, provided no name holds a comma |
| Protocol.Classify | Tugas1/SimpleChatServer-master/SimpleChatServer-master/src/main/java/ChatWorker.java:51-95 | a line is chat exactly when it is non-empty, does not start with `/` and is not blank, and the chat text is the whole line; it is blank exactly when non-empty, not `/` and blank; names, whisper targets, whisper words and unknown verbs hold no space; the unknown verb is `split(" ")[0]`, the first token of the line, which is a non-empty prefix of it; an empty line is exactly the `charAt(0)` crash, and any other crash is a `/w…` line with at most one token; a `%`-free line gives a `%`-free name and whisper word |
| Protocol.NamePrefix | Tugas1/SimpleChatServer-master/SimpleChatServer-master/src/main/java/ChatWorker.java:53-54 | every line starting with `/name` renames to token 1 of `split(" ")`, or to `unknown` when there is no token 1 |
| Protocol.WhisperPrefix | Tugas1/SimpleChatServer-master/SimpleChatServer-master/src/main/java/ChatWorker.java:63-69 | every line starting with `/w` whispers token 2 to token 1; with two tokens it is the empty-message error, and with one it throws at `split(" ")[1]` |
| Protocol.WholeLinePrefix | Tugas1/SimpleChatServer-master/SimpleChatServer-master/src/main/java/ChatWorker.java:70-91 | every other `/` line goes to the `switch` on the whole line: one of the five exact commands, or else `No commands found for` its first token |
| Protocol.RenameCommand | Tugas1/SimpleChatServer-master/SimpleChatServer-master/src/main/java/ChatWorker.java:53-54 | `/name N` followed by nothing or by a space and anything renames to the second token `N` |
| Protocol.RenameWithoutName | Tugas1/SimpleChatServer-master/SimpleChatServer-master/src/main/java/ChatWorker.java:53-54 | `/name`, `/name ` and any space-free word starting with `/name` rename to `unknown` |
| Protocol.RenameDoubleSpace | Tugas1/SimpleChatServer-master/SimpleChatServer-master/src/main/java/ChatWorker.java:53-54 | `/name  N` (two spaces) renames to the empty string, because the second token is empty |
| Protocol.WhisperCommand | Tugas1/SimpleChatServer-master/SimpleChatServer-master/src/main/java/ChatWorker.java:63-66 | `/w T M rest` whispers only the third token `M` to `T`, whatever follows it |
| Protocol.WhisperWithoutMessage | Tugas1/SimpleChatServer-master/SimpleChatServer-master/src/main/java/ChatWorker.java:63-69 | `/w T` with or without a trailing space is the empty-message error |
| Protocol.WhisperWithoutTarget | Tugas1/SimpleChatServer-master/SimpleChatServer-master/src/main/java/ChatWorker.java:63-64 | a one-token `/w…` line, with or without one trailing space, throws at `split(" ")[1]` |
| Protocol.ExactCommands | Tugas1/SimpleChatServer-master/SimpleChatServer-master/src/main/java/ChatWorker.java:71-88 | each of `/r`, `/stop`, `/time`, `/clients`, `/memory` is recognised exactly when the line equals it |
| Protocol.ExtraWordsMakeUnknown | Tugas1/SimpleChatServer-master/SimpleChatServer-master/src/main/java/ChatWorker.java:89-90 | an exact command followed by a space and more is an unknown command reported by its first token |
| Protocol.UnknownCommand | Tugas1/SimpleChatServer-master/SimpleChatServer-master/src/main/java/ChatWorker.java:89-90 | any other space-free `/` word that starts with neither `/name` nor `/w`, alone (when it is not an exact command) or followed by a space and anything, is an unknown command reported by that word |
| Session.Without | Tugas1/SimpleChatServer-master/SimpleChatServer-master/src/main/java/ChatWorker.java:112 | removal from the registry keeps every other member, and only members other than the removed worker |
| Session.WithoutSpec | Tugas1/SimpleChatServer-master/SimpleChatServer-master/src/main/java/ChatWorker.java:112 | removal keeps the registry free of duplicates, shrinks it by exactly one when the worker was registered, and changes nothing when it was not |
| Session.Registry.Remove | Tugas1/SimpleChatServer-master/SimpleChatServer-master/src/main/java/ChatWorker.java:112 | `workers.remove(w)` leaves the registry without `w` and keeps it free of duplicates |
| Session.Worker.constructor | Tugas1/SimpleChatServer-master/SimpleChatServer-master/src/main/java/ChatWorker.java:22-30 | a new worker is called `unknown`, has an empty queue and shares the given registry |
| Session.Worker.AddMessage | Tugas1/SimpleChatServer-master/SimpleChatServer-master/src/main/java/ChatWorker.java:140-145 | appends exactly the message to this worker's own queue and changes nothing else |
| Session.Worker.Broadcast | Tugas1/SimpleChatServer-master/SimpleChatServer-master/src/main/java/ChatWorker.java:120-126 | every registered worker other than this one gets exactly one copy of the message; this worker's queue, every name and the registry are unchanged |
| Session.Worker.TellOthers | Tugas1/SimpleChatServer-master/SimpleChatServer-master/src/main/java/ChatWorker.java:60-62 | every registered worker other than this one gets exactly one copy of the line, with no format applied; this worker's queue, every name and the registry are unchanged |
| Session.Worker.AnyNamed | Tugas1/SimpleChatServer-master/SimpleChatServer-master/src/main/java/ChatWorker.java:129-130 | finds a worker exactly when some registered worker bears the name |
| Session.Worker.Checklist | Tugas1/SimpleChatServer-master/SimpleChatServer-master/src/main/java/ChatWorker.java:128-137 | if some worker bears the target name, every such worker (this one too if it matches) gets `Message from S : M` and no other worker gets anything; otherwise only this worker gets `Cannot find user with name T` |
| Session.Worker.ClientNames | Tugas1/SimpleChatServer-master/SimpleChatServer-master/src/main/java/ChatWorker.java:82-83 | the reply is the registered names, in registry order, joined by `", "` |
| Session.Worker.ChangeName | Tugas1/SimpleChatServer-master/SimpleChatServer-master/src/main/java/ChatWorker.java:55-62 | the name becomes `N`; this worker (if registered) gets `Name changed into N`, every other registered worker gets `old renamed into N`; the names are `%s` arguments, so any name is allowed |
| Session.Worker.Answer | Tugas1/SimpleChatServer-master/SimpleChatServer-master/src/main/java/ChatWorker.java:68-91 | the commands that answer only the issuer append their single reply (none for `/r` and blank lines) to its own queue |
| Session.Worker.Dispatch | Tugas1/SimpleChatServer-master/SimpleChatServer-master/src/main/java/ChatWorker.java:51-95 | one step of the loop: who receives which line for a rename, a whisper found or not, a chat line and every self-only command; `/stop` stops, a crash ends the loop, the name changes only on a rename |
| Session.Worker.Terminate | Tugas1/SimpleChatServer-master/SimpleChatServer-master/src/main/java/ChatWorker.java:109-114 | the worker leaves the registry, then every remaining worker gets exactly one `N has left`, and the leaving worker gets nothing; the registry stays free of duplicates |
| Session.Worker.Run | Tugas1/SimpleChatServer-master/SimpleChatServer-master/src/main/java/ChatWorker.java:43-114 | the session ends at the first `/stop` or crashing line, or when the lines run out; the final name is the last rename before that point; the worker leaves the registry unless a runtime exception escaped, in which case the registry is unchanged; the registry stays free of duplicates |
| Scenarios.RenameChatStopLines | Tugas1/SimpleChatServer-master/SimpleChatServer-master/src/main/java/ChatWorker.java:52-93 | `/name N`, a chat line and `/stop` classify as a rename, a chat and a stop |
| Scenarios.RenameChatStop | Tugas1/SimpleChatServer-master/SimpleChatServer-master/src/main/java/ChatWorker.java:53-114 | with two clients, the first renames, chats and stops: it receives `Name changed into N` and `bye-bye`; the other receives the rename under the old name, the chat under the new one and the departure, in that order |
| Scenarios.WhisperLines | Tugas1/SimpleChatServer-master/SimpleChatServer-master/src/main/java/ChatWorker.java:53-66 | `/name T` and `/w T M` classify as a rename and a whisper |
| Scenarios.WhisperFoundAndMissing | Tugas1/SimpleChatServer-master/SimpleChatServer-master/src/main/java/ChatWorker.java:128-137 | a whisper to an existing name reaches only that worker; a whisper to an absent name earns only the sender an error |

## Left out

- Sockets, the input and output threads, the executor, the `synchronized` blocks and the `wait`/`notify` handshakes are not modelled. A session is the sequence of request lines that the input thread would queue, handled one at a time, and the end of that sequence stands for the interrupt that ends the wait.
- After `/stop` the source still waits once for a notification before the loop condition is tested again. The model ends the session at once.
- The clock (`/time`) and the memory probe (`/memory`) are not modelled. Their readings come with each line as plain strings.
- The log lines printed on connect and disconnect and the closing of the socket are not modelled.
- Format strings are not modelled. Most replies are fixed strings or pass user text only as a `%s` argument, which `String.format` copies unchanged, so no requirement is needed there. User text becomes part of a format string in two places. First, `broadcast` formats its message a second time (line 123), so a chat line (line 94) and the departure notice (line 113) carry the name and the text into a format. Second, a whisper's word is appended to the format at line 132. For these, the model requires that the text holds no `%`, so the second formatting is the identity:
  - `Broadcast` requires it of its message, and `Checklist` of the whisper word;
  - `Dispatch` requires it of the name and text of a chat line, and of the word of a whisper;
  - `Terminate` requires it of the name;
  - `Run` requires it of the starting name and of every line, because a name set by a rename is later broadcast by a chat line or the departure.
  A rename is not affected: its notices (lines 58 and 61) go through `%s` arguments and are sent by `TellOthers`, so `ChangeName` allows any name.
- Session.Worker.Run: requires every line to be `%`-free, which is stronger than the source needs for lines that are not chat, whisper or rename. It does this to keep the name that later reaches line 123 `%`-free.
- The registry is a `HashSet`, whose iteration order is unspecified. The model uses a sequence of distinct workers and states `/clients`, broadcast and whisper over that sequence's order.
- Registering a new worker happens in the server's accept loop, which is not part of this model. `Session.Registry.Add` only builds registries for the scenarios.
- Session.Worker.Run: states the outcome, the final name and the registry, but not the contents of every queue after a whole session. The per-line effects are stated by `Session.Worker.Dispatch` and `Session.Worker.Terminate`.
