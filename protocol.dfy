/** The text conventions of the chat worker: how a request line is cut into
    tokens (Java's `String.split(" ")`), when a chat line counts as blank
    (`String.trim()`), how the client list is joined (`Collectors.joining(", ")`),
    which command a request line is, and the exact wording of every line the
    worker sends. Everything here is pure. */
module Protocol {

  // ---------------------------------------------------------------------------
  // Splitting and joining
  // ---------------------------------------------------------------------------

  /** The pieces of `s` between occurrences of `sep`, empty pieces included:
      a string with k separators has k + 1 fields. */
  function Fields(s: string, sep: char): (r: seq<string>)
    ensures |r| >= 1
  {
    if s == [] then [""]
    else
      var rest := Fields(s[1..], sep);
      if s[0] == sep then [""] + rest
      else [[s[0]] + rest[0]] + rest[1..]
  }

  /** No field holds the separator. */
  lemma {:induction false} FieldsOmitSeparator(s: string, sep: char)
    ensures forall p :: p in Fields(s, sep) ==> sep !in p
  {
    if s != [] {
      FieldsOmitSeparator(s[1..], sep);
      var rest := Fields(s[1..], sep);
      assert rest[0] in rest;
      assert forall p :: p in rest[1..] ==> p in rest;
    }
  }

  /** The pieces of `ps` with `sep` between consecutive ones. */
  function Join(ps: seq<string>, sep: string): string
  {
    if |ps| == 0 then ""
    else if |ps| == 1 then ps[0]
    else ps[0] + sep + Join(ps[1..], sep)
  }

  /** Joining one more piece appends the separator and that piece. */
  lemma {:induction false} JoinSnoc(ps: seq<string>, p: string, sep: string)
    requires |ps| >= 1
    ensures Join(ps + [p], sep) == Join(ps, sep) + sep + p
  {
    if |ps| > 1 {
      assert (ps + [p])[1..] == ps[1..] + [p];
      JoinSnoc(ps[1..], p, sep);
    }
  }

  /** Joining the fields of `s` with the separator gives back `s`. */
  lemma {:induction false} JoinFields(s: string, sep: char)
    ensures Join(Fields(s, sep), [sep]) == s
  {
    if s != [] {
      var rest := Fields(s[1..], sep);
      JoinFields(s[1..], sep);
      assert s == [s[0]] + s[1..];
      if s[0] == sep {
        assert Fields(s, sep) == [""] + rest;
        assert ([""] + rest)[1..] == rest;
      } else {
        var ps := [[s[0]] + rest[0]] + rest[1..];
        assert Fields(s, sep) == ps;
        if |rest| == 1 {
          assert Join(rest, [sep]) == rest[0];
        } else {
          assert ps[1..] == rest[1..];
          calc {
            Join(ps, [sep]);
            ([s[0]] + rest[0]) + [sep] + Join(rest[1..], [sep]);
            [s[0]] + (rest[0] + [sep] + Join(rest[1..], [sep]));
            [s[0]] + Join(rest, [sep]);
          }
        }
      }
    }
  }

  /** A separator-free prefix `a` merges into the first field of what follows it. */
  lemma {:induction false} FieldsAfterPrefix(a: string, b: string, sep: char)
    requires sep !in a
    ensures Fields(a + b, sep) == [a + Fields(b, sep)[0]] + Fields(b, sep)[1..]
  {
    var f := Fields(b, sep);
    if a == [] {
      assert a + b == b;
      assert a + f[0] == f[0];
      assert f == [f[0]] + f[1..];
    } else {
      var r := Fields(a[1..] + b, sep);
      calc {
        Fields(a + b, sep);
        { assert a + b == [a[0]] + (a[1..] + b); }
        Fields([a[0]] + (a[1..] + b), sep);
        { FieldsCons(a[0], a[1..] + b, sep); }
        [[a[0]] + r[0]] + r[1..];
        { FieldsAfterPrefix(a[1..], b, sep);
          assert r[0] == a[1..] + f[0] && r[1..] == f[1..]; }
        [[a[0]] + (a[1..] + f[0])] + f[1..];
        { assert [a[0]] + (a[1..] + f[0]) == a + f[0]; }
        [a + f[0]] + f[1..];
      }
    }
  }

  /** A character other than the separator joins the first field. */
  lemma FieldsCons(c: char, x: string, sep: char)
    requires c != sep
    ensures Fields([c] + x, sep) == [[c] + Fields(x, sep)[0]] + Fields(x, sep)[1..]
  {
    assert ([c] + x)[1..] == x;
  }

  /** Fields of a joined sequence followed by `rest`: the pieces come back, the
      last one merged with the first field of `rest`. */
  lemma {:induction false} FieldsOfJoinThen(ps: seq<string>, rest: string, sep: char)
    requires |ps| >= 1
    requires forall i :: 0 <= i < |ps| ==> sep !in ps[i]
    ensures Fields(Join(ps, [sep]) + rest, sep)
         == ps[..|ps| - 1] + ([ps[|ps| - 1] + Fields(rest, sep)[0]] + Fields(rest, sep)[1..])
  {
    var fr := Fields(rest, sep);
    var t := [ps[|ps| - 1] + fr[0]] + fr[1..];
    if |ps| == 1 {
      FieldsOfSingleJoin(ps, rest, sep);
    } else {
      var q := ps[1..];
      FieldsOfJoinStep(ps, rest, sep);
      FieldsOfJoinThen(q, rest, sep);
      ConsInit(ps, t);
      assert q[|q| - 1] == ps[|ps| - 1];
      assert Fields(Join(q, [sep]) + rest, sep) == q[..|q| - 1] + t;
    }
  }

  /** A join of one piece is that piece. */
  lemma FieldsOfSingleJoin(ps: seq<string>, rest: string, sep: char)
    requires |ps| == 1 && sep !in ps[0]
    ensures Fields(Join(ps, [sep]) + rest, sep)
         == ps[..0] + ([ps[0] + Fields(rest, sep)[0]] + Fields(rest, sep)[1..])
  {
    FieldsAfterPrefix(ps[0], rest, sep);
    assert Join(ps, [sep]) + rest == ps[0] + rest;
  }

  /** Putting back the first element in front of the tail's initial part. */
  lemma ConsInit<T>(ps: seq<T>, tail: seq<T>)
    requires |ps| >= 2
    ensures [ps[0]] + (ps[1..][..|ps| - 2] + tail) == ps[..|ps| - 1] + tail
    ensures ps[1..][|ps| - 2] == ps[|ps| - 1]
  {
    assert ps[..|ps| - 1] == [ps[0]] + ps[1..][..|ps| - 2];
  }

  /** The first piece of a join comes back as the first field. */
  lemma FieldsOfJoinStep(ps: seq<string>, rest: string, sep: char)
    requires |ps| >= 2 && sep !in ps[0]
    ensures Fields(Join(ps, [sep]) + rest, sep) == [ps[0]] + Fields(Join(ps[1..], [sep]) + rest, sep)
  {
    var x := Join(ps[1..], [sep]) + rest;
    assert Join(ps, [sep]) + rest == ps[0] + ([sep] + x);
    FieldsAfterField(ps[0], x, sep);
  }

  /** A separator-free field, the separator, then `x`: that field, then the
      fields of `x`. */
  lemma FieldsAfterField(a: string, x: string, sep: char)
    requires sep !in a
    ensures Fields(a + ([sep] + x), sep) == [a] + Fields(x, sep)
  {
    FieldsAfterPrefix(a, [sep] + x, sep);
    FieldsAfterSeparator(x, sep);
    assert a + "" == a;
    assert ([""] + Fields(x, sep))[1..] == Fields(x, sep);
  }

  /** A leading separator is an empty first field. */
  lemma FieldsAfterSeparator(x: string, sep: char)
    ensures Fields([sep] + x, sep) == [""] + Fields(x, sep)
  {
    assert ([sep] + x)[1..] == x;
  }

  /** Fields undoes Join when no piece holds the separator. */
  lemma {:induction false} FieldsOfJoin(ps: seq<string>, sep: char)
    requires |ps| >= 1
    requires forall p :: p in ps ==> sep !in p
    ensures Fields(Join(ps, [sep]), sep) == ps
  {
    var n := |ps|;
    FieldsOfJoinThen(ps, "", sep);
    assert Join(ps, [sep]) + "" == Join(ps, [sep]);
    assert Fields("", sep) == [""];
    assert ps[n - 1] + "" == ps[n - 1];
    assert ps[..n - 1] + [ps[n - 1]] == ps;
  }

  /** `ps` without its trailing empty strings. */
  function DropTrailingEmpty(ps: seq<string>): (r: seq<string>)
    ensures |r| <= |ps| && r == ps[..|r|]
    ensures forall i :: |r| <= i < |ps| ==> ps[i] == ""
    ensures |r| > 0 ==> r[|r| - 1] != ""
  {
    if |ps| > 0 && ps[|ps| - 1] == "" then DropTrailingEmpty(ps[..|ps| - 1]) else ps
  }

  /** Java's `s.split(" ")`: a string without a space is its own only token
      (even the empty string); otherwise split at every single space and drop
      the trailing empty tokens, keeping the inner and leading ones. */
  function Split(s: string): (r: seq<string>)
    ensures forall t :: t in r ==> ' ' !in t
  {
    if ' ' !in s then [s]
    else
      FieldsOmitSeparator(s, ' ');
      DropTrailingEmpty(Fields(s, ' '))
  }

  /** A character absent from `s` is absent from each of its fields. */
  lemma {:induction false} FieldsAvoid(s: string, sep: char, c: char)
    requires c !in s
    ensures forall p :: p in Fields(s, sep) ==> c !in p
  {
    if s != [] {
      FieldsAvoid(s[1..], sep, c);
      var rest := Fields(s[1..], sep);
      assert rest[0] in rest;
      assert forall p :: p in rest[1..] ==> p in rest;
    }
  }

  /** A character absent from `s` is absent from each of its tokens. */
  lemma SplitAvoids(s: string, c: char)
    ensures c !in s ==> forall t :: t in Split(s) ==> c !in t
  {
    if ' ' in s && c !in s {
      var fs := Fields(s, ' ');
      FieldsAvoid(s, ' ', c);
      assert forall t :: t in Split(s) ==> t in fs;
    }
  }

  /** A line that does not start with a space has at least one token, and
      the first token is the line up to its first space. */
  lemma SplitFirstToken(s: string)
    requires s != [] && s[0] != ' '
    ensures |Split(s)| >= 1
    ensures Split(s)[0] == Fields(s, ' ')[0] && Split(s)[0] != ""
  {
    var fs := Fields(s, ' ');
    assert fs == [[s[0]] + Fields(s[1..], ' ')[0]] + Fields(s[1..], ' ')[1..];
    assert fs[0][0] == s[0];
    if ' ' !in s {
      FieldsAfterPrefix(s, "", ' ');
      assert s + "" == s;
      assert Fields("", ' ') == [""];
    }
  }

  /** Splitting tokens joined by single spaces, with anything after them that
      starts with a space, gives those tokens back first. */
  lemma {:induction false} SplitOfJoinThen(ts: seq<string>, rest: string)
    requires |ts| >= 2 && ts[|ts| - 1] != ""
    requires forall t :: t in ts ==> ' ' !in t
    requires rest == "" || rest[0] == ' '
    ensures |Split(Join(ts, " ") + rest)| >= |ts|
    ensures Split(Join(ts, " ") + rest)[..|ts|] == ts
  {
    var line := Join(ts, " ") + rest;
    var fs := Fields(line, ' ');
    assert fs == ts + Fields(rest, ' ')[1..] by {
      FieldsOfJoinThen(ts, rest, ' ');
      var fr := Fields(rest, ' ');
      if rest != "" {
        assert fr == [""] + Fields(rest[1..], ' ');
      }
      assert ts[|ts| - 1] + fr[0] == ts[|ts| - 1];
    }
    assert ' ' in line by {
      assert line == ts[0] + " " + (Join(ts[1..], " ") + rest);
      assert line[|ts[0]|] == ' ';
    }
    DropTrailingEmptyKeeps(fs, |ts|);
  }

  /** Trailing empty strings are dropped only after the last non-empty one. */
  lemma DropTrailingEmptyKeeps(ps: seq<string>, k: nat)
    requires 0 < k <= |ps| && ps[k - 1] != ""
    ensures |DropTrailingEmpty(ps)| >= k
    ensures DropTrailingEmpty(ps)[..k] == ps[..k]
  {
  }

  /** Splitting tokens joined by single spaces: the tokens come back, minus any
      trailing empty ones. */
  lemma SplitOfJoin(ts: seq<string>)
    requires |ts| >= 2
    requires forall t :: t in ts ==> ' ' !in t
    ensures Split(Join(ts, " ")) == DropTrailingEmpty(ts)
  {
    FieldsOfJoin(ts, ' ');
    assert Join(ts, " ") == ts[0] + " " + Join(ts[1..], " ");
    assert Join(ts, " ")[|ts[0]|] == ' ';
  }

  /** Two words and anything that starts with a space: the words are the
      first two tokens. */
  lemma SplitTwo(a: string, b: string, rest: string)
    requires ' ' !in a && ' ' !in b && b != ""
    requires rest == "" || rest[0] == ' '
    ensures |Split(a + " " + b + rest)| >= 2
    ensures Split(a + " " + b + rest)[0] == a && Split(a + " " + b + rest)[1] == b
  {
    var ts := [a, b];
    assert ts[1..] == [b];
    assert a + " " + b + rest == Join(ts, " ") + rest;
    SplitOfJoinThen(ts, rest);
    var sp := Split(a + " " + b + rest);
    assert sp[..2][0] == sp[0] && sp[..2][1] == sp[1];
  }

  /** Three words and anything that starts with a space: the words are the
      first three tokens. */
  lemma SplitThree(a: string, b: string, c: string, rest: string)
    requires ' ' !in a && ' ' !in b && ' ' !in c && c != ""
    requires rest == "" || rest[0] == ' '
    ensures |Split(a + " " + b + " " + c + rest)| >= 3
    ensures Split(a + " " + b + " " + c + rest)[0] == a
    ensures Split(a + " " + b + " " + c + rest)[1] == b
    ensures Split(a + " " + b + " " + c + rest)[2] == c
  {
    var ts := [a, b, c];
    assert ts[1..] == [b, c] && ts[1..][1..] == [c];
    assert Join([b, c], " ") == b + " " + c;
    assert Join(ts, " ") == a + " " + (b + " " + c);
    assert a + " " + b + " " + c + rest == Join(ts, " ") + rest;
    SplitOfJoinThen(ts, rest);
    var sp := Split(a + " " + b + " " + c + rest);
    assert sp[..3][0] == sp[0] && sp[..3][1] == sp[1] && sp[..3][2] == sp[2];
  }

  // ---------------------------------------------------------------------------
  // Trimming and blank lines
  // ---------------------------------------------------------------------------

  /** Every character is a control character or a space (code at most U+0020). */
  predicate IsBlank(s: string)
  {
    forall i :: 0 <= i < |s| ==> s[i] <= ' '
  }

  /** `s` without its leading characters of code at most U+0020. */
  function TrimStart(s: string): (r: string)
    ensures |r| <= |s| && r == s[|s| - |r|..]
    ensures forall i :: 0 <= i < |s| - |r| ==> s[i] <= ' '
    ensures r != [] ==> r[0] > ' '
  {
    if s != [] && s[0] <= ' ' then TrimStart(s[1..]) else s
  }

  /** `s` without its trailing characters of code at most U+0020. */
  function TrimEnd(s: string): (r: string)
    ensures |r| <= |s| && r == s[..|r|]
    ensures forall i :: |r| <= i < |s| ==> s[i] <= ' '
    ensures r != [] ==> r[|r| - 1] > ' '
  {
    if s != [] && s[|s| - 1] <= ' ' then TrimEnd(s[..|s| - 1]) else s
  }

  /** `r` is the slice of `s` from `k` with only blank characters around it. */
  predicate TrimmedAt(s: string, r: string, k: int)
  {
    0 <= k <= |s| - |r| && s[k..k + |r|] == r && IsBlank(s[..k]) && IsBlank(s[k + |r|..])
  }

  /** Java's `String.trim()`: the slice of `s` between a blank prefix and a
      blank suffix, starting and ending with characters above U+0020. */
  function Trim(s: string): (r: string)
    ensures r != [] ==> r[0] > ' ' && r[|r| - 1] > ' '
    ensures exists k :: TrimmedAt(s, r, k)
  {
    TrimAt(s);
    TrimEnd(TrimStart(s))
  }

  /** Where the trimmed slice starts: after the blank prefix `TrimStart` drops. */
  lemma {:induction false} TrimAt(s: string)
    ensures TrimmedAt(s, TrimEnd(TrimStart(s)), |s| - |TrimStart(s)|)
  {
    var t := TrimStart(s);
    SliceBetweenBlanks(s, t, TrimEnd(t));
  }

  /** A prefix `r` of a suffix `t` of `s`, with only blank characters before
      `t` and after `r`, is `s` trimmed at the start of `t`. */
  lemma SliceBetweenBlanks(s: string, t: string, r: string)
    requires |t| <= |s| && t == s[|s| - |t|..]
    requires |r| <= |t| && r == t[..|r|]
    requires forall i :: 0 <= i < |s| - |t| ==> s[i] <= ' '
    requires forall i :: |r| <= i < |t| ==> t[i] <= ' '
    ensures TrimmedAt(s, r, |s| - |t|)
  {
    var k := |s| - |t|;
    assert s[k..k + |r|] == t[..|r|];
    assert s[k + |r|..] == t[|r|..];
    assert forall i :: 0 <= i < |t| - |r| ==> t[|r|..][i] == t[|r| + i];
  }

  /** A line trims to the empty string exactly when it is blank. */
  lemma TrimEmptyIffBlank(s: string)
    ensures Trim(s) == "" <==> IsBlank(s)
  {
  }

  // ---------------------------------------------------------------------------
  // The client list
  // ---------------------------------------------------------------------------

  /** The `/clients` reply: the names joined by ", ". */
  function ClientList(names: seq<string>): string
  {
    Join(names, ", ")
  }

  /** A reader's view of a client list: the comma-separated fields, each but
      the first without the one space that followed its comma. */
  function ParseClientList(line: string): seq<string>
  {
    var fs := Fields(line, ',');
    [fs[0]] + DropSpaces(fs[1..])
  }

  /** Each of `ps` without one leading space. */
  function DropSpaces(ps: seq<string>): seq<string>
  {
    if ps == [] then [] else [DropSpace(ps[0])] + DropSpaces(ps[1..])
  }

  /** `s` without one leading space, if it has one. */
  function DropSpace(s: string): string
  {
    if s != [] && s[0] == ' ' then s[1..] else s
  }

  /** Fields at commas of a comma-free name, ", " and a tail: the name, then
      the tail's first field behind its space, then the tail's other fields. */
  lemma FieldsAfterName(n: string, tail: string)
    requires ',' !in n
    ensures Fields(n + ", " + tail, ',')
         == [n, " " + Fields(tail, ',')[0]] + Fields(tail, ',')[1..]
  {
    assert n + ", " + tail == n + ([','] + (" " + tail));
    FieldsAfterField(n, " " + tail, ',');
    FieldsAfterPrefix(" ", tail, ',');
  }

  /** The client list names every registered worker, in order, once: a reader
      recovers the names from it whenever no name contains a comma. */
  lemma {:induction false} ClientListRoundTrip(names: seq<string>)
    requires |names| >= 1
    requires forall n :: n in names ==> ',' !in n
    ensures ParseClientList(ClientList(names)) == names
  {
    if |names| == 1 {
      FieldsAfterPrefix(names[0], "", ',');
      assert names[0] + "" == names[0];
      assert Fields("", ',') == [""];
    } else {
      var tail := ClientList(names[1..]);
      var ft := Fields(tail, ',');
      assert forall n :: n in names[1..] ==> n in names;
      calc {
        ParseClientList(ClientList(names));
        { assert ClientList(names) == names[0] + ", " + tail;
          FieldsAfterName(names[0], tail);
          assert ([names[0], " " + ft[0]] + ft[1..])[1..] == [" " + ft[0]] + ft[1..]; }
        [names[0]] + DropSpaces([" " + ft[0]] + ft[1..]);
        { assert ([" " + ft[0]] + ft[1..])[1..] == ft[1..];
          assert (" " + ft[0])[1..] == ft[0]; }
        [names[0]] + ([ft[0]] + DropSpaces(ft[1..]));
        [names[0]] + ParseClientList(tail);
        { ClientListRoundTrip(names[1..]); }
        [names[0]] + names[1..];
        names;
      }
    }
  }

  // ---------------------------------------------------------------------------
  // Commands
  // ---------------------------------------------------------------------------

  /** A Java runtime exception thrown while dispatching a line. */
  datatype Fault =
    | EmptyLine      // `charAt(0)` of an empty request
    | MissingTarget  // `split(" ")[1]` of a `/w` request with a single token

  /** What one request line asks the worker to do. */
  datatype Command =
    | Rename(newName: string)
    | Whisper(target: string, body: string)
    | EmptyWhisper
    | Listen
    | Stop
    | Time
    | Clients
    | Memory
    | Unknown(verb: string)
    | Chat(text: string)
    | Blank
    | Crash(fault: Fault)

  predicate StartsWith(s: string, prefix: string)
  {
    |prefix| <= |s| && s[..|prefix|] == prefix
  }

  /** The dispatch of `ChatWorker.run()`: a line starting with `/` is a
      command, any other line is chat unless it is blank. */
  function Classify(line: string): (c: Command)
    ensures c.Rename? ==> ' ' !in c.newName
    ensures c.Whisper? ==> ' ' !in c.target && ' ' !in c.body
    ensures c.Unknown? ==> ' ' !in c.verb && StartsWith(line, c.verb) && c.verb != ""
    ensures c.Unknown? ==> |Split(line)| >= 1 && c.verb == Split(line)[0]
    ensures c.Chat? <==> line != "" && line[0] != '/' && !IsBlank(line)
    ensures c.Chat? ==> c.text == line
    ensures c.Blank? <==> line != "" && line[0] != '/' && IsBlank(line)
    ensures c == Crash(EmptyLine) <==> line == ""
    ensures c.Crash? ==> line == "" || (StartsWith(line, "/w") && |Split(line)| <= 1)
    ensures '%' !in line ==> (c.Rename? ==> '%' !in c.newName) && (c.Whisper? ==> '%' !in c.body)
  {
    if line == "" then Crash(EmptyLine)
    else if line[0] == '/' then SlashCommand(line)
    else
      TrimEmptyIffBlank(line);
      if Trim(line) == "" then Blank else Chat(line)
  }

  /** A `/` line: `/name…` and `/w…` by prefix, then the whole line. */
  function SlashCommand(line: string): (c: Command)
    requires line != "" && line[0] == '/'
    ensures c.Rename? ==> ' ' !in c.newName
    ensures c.Whisper? ==> ' ' !in c.target && ' ' !in c.body
    ensures c.Unknown? ==> ' ' !in c.verb && StartsWith(line, c.verb) && c.verb != ""
    ensures c.Unknown? ==> |Split(line)| >= 1 && c.verb == Split(line)[0]
    ensures !c.Chat? && !c.Blank?
    ensures c.Crash? ==> c == Crash(MissingTarget) && StartsWith(line, "/w") && |Split(line)| <= 1
    ensures '%' !in line ==> (c.Rename? ==> '%' !in c.newName) && (c.Whisper? ==> '%' !in c.body)
  {
    if StartsWith(line, "/name") then
      SplitAvoids(line, '%');
      RenameTo(Split(line))
    else if StartsWith(line, "/w") then
      SplitAvoids(line, '%');
      WhisperTo(Split(line))
    else WholeLineCommand(line)
  }

  /** `/name…`: token 1 is the new name, "unknown" when there is none. */
  function RenameTo(ts: seq<string>): Command
  {
    Rename(if |ts| > 1 then ts[1] else "unknown")
  }

  /** `/w…`: token 1 is the target and token 2 the message; without token 1
      the request throws, without token 2 it is the empty-message error. */
  function WhisperTo(ts: seq<string>): Command
  {
    if |ts| <= 1 then Crash(MissingTarget)
    else if |ts| > 2 then Whisper(ts[1], ts[2])
    else EmptyWhisper
  }

  /** A line starting with `/name` is a rename by its tokens. */
  lemma NamePrefix(line: string)
    requires StartsWith(line, "/name")
    ensures Classify(line) == RenameTo(Split(line))
  {
    assert line[0] == "/name"[0];
  }

  /** A line starting with `/w` is a whisper by its tokens. */
  lemma WhisperPrefix(line: string)
    requires StartsWith(line, "/w")
    ensures Classify(line) == WhisperTo(Split(line))
  {
    assert line[0] == "/w"[0];
    assert !StartsWith(line, "/name") by {
      assert line[1] == "/w"[1];
    }
  }

  /** The `switch` on the whole line; anything else is unknown, reported by
      its first token. */
  function WholeLineCommand(line: string): (c: Command)
    requires line != "" && line[0] == '/'
    ensures c.Listen? || c.Stop? || c.Time? || c.Clients? || c.Memory? || c.Unknown?
    ensures c.Unknown? ==> ' ' !in c.verb && StartsWith(line, c.verb) && c.verb != ""
    ensures c.Unknown? ==> |Split(line)| >= 1 && c.verb == Split(line)[0]
  {
    if line == "/r" then Listen
    else if line == "/stop" then Stop
    else if line == "/time" then Time
    else if line == "/clients" then Clients
    else if line == "/memory" then Memory
    else
      SplitFirstToken(line);
      FirstFieldIsPrefix(line, ' ');
      Unknown(Split(line)[0])
  }

  /** The first field of `s` is a prefix of `s`. */
  lemma {:induction false} FirstFieldIsPrefix(s: string, sep: char)
    ensures StartsWith(s, Fields(s, sep)[0])
  {
    if s != [] && s[0] != sep {
      FirstFieldIsPrefix(s[1..], sep);
    }
  }

  /** `/name N rest` renames to `N` whenever `N` is a non-empty word; anything
      after the next space is ignored. */
  lemma RenameCommand(n: string, rest: string)
    requires n != "" && ' ' !in n
    requires rest == "" || rest[0] == ' '
    ensures Classify("/name " + n + rest) == Rename(n)
  {
    var line := "/name " + n + rest;
    assert StartsWith(line, "/name");
    assert line == "/name" + " " + n + rest;
    SplitTwo("/name", n, rest);
    NamePrefix(line);
  }

  /** `/name` with no second token (nothing after it, a word glued to it, or
      one trailing space) renames to "unknown". */
  lemma RenameWithoutName(suffix: string, trailingSpace: bool)
    requires ' ' !in suffix
    ensures Classify("/name" + suffix + (if trailingSpace then " " else "")) == Rename("unknown")
  {
    var word := "/name" + suffix;
    var line := word + (if trailingSpace then " " else "");
    assert StartsWith(line, "/name") by {
      assert line[..5] == word[..5] == "/name";
    }
    assert |Split(line)| <= 1 by {
      if trailingSpace {
        assert line == Join([word, ""], " ");
        SplitOfJoin([word, ""]);
        assert DropTrailingEmpty([word, ""]) == DropTrailingEmpty([word]);
      } else {
        assert line == word;
      }
    }
    NamePrefix(line);
  }

  /** `/name` followed by two spaces renames to the empty string: the empty
      token between the spaces is token 1. */
  lemma RenameDoubleSpace(n: string, rest: string)
    requires n != "" && ' ' !in n
    requires rest == "" || rest[0] == ' '
    ensures Classify("/name  " + n + rest) == Rename("")
  {
    var line := "/name  " + n + rest;
    assert StartsWith(line, "/name");
    assert line == "/name" + " " + "" + " " + n + rest;
    SplitThree("/name", "", n, rest);
    NamePrefix(line);
  }

  /** `/w T B rest` whispers the single word `B` to `T`; the rest of the
      line after `B` is dropped. */
  lemma WhisperCommand(t: string, b: string, rest: string)
    requires ' ' !in t && ' ' !in b && b != ""
    requires rest == "" || rest[0] == ' '
    ensures Classify("/w " + t + " " + b + rest) == Whisper(t, b)
  {
    var line := "/w " + t + " " + b + rest;
    assert StartsWith(line, "/w");
    assert line == "/w" + " " + t + " " + b + rest;
    SplitThree("/w", t, b, rest);
    WhisperPrefix(line);
  }

  /** `/w T` with no message token is the "empty message" error, also with
      one trailing space. */
  lemma WhisperWithoutMessage(t: string, trailingSpace: bool)
    requires t != "" && ' ' !in t
    ensures Classify("/w " + t + (if trailingSpace then " " else "")) == EmptyWhisper
  {
    var line := "/w " + t + (if trailingSpace then " " else "");
    assert StartsWith(line, "/w") by {
      assert line[..2] == "/w";
    }
    assert |Split(line)| == 2 by {
      assert ["/w", t][1..] == [t];
      if trailingSpace {
        assert ["/w", t, ""][1..] == [t, ""] && [t, ""][1..] == [""];
        assert Join([t, ""], " ") == t + " " + "";
        assert line == Join(["/w", t, ""], " ");
        SplitOfJoin(["/w", t, ""]);
        assert DropTrailingEmpty(["/w", t, ""]) == DropTrailingEmpty(["/w", t]);
      } else {
        assert line == Join(["/w", t], " ");
        SplitOfJoin(["/w", t]);
      }
    }
    WhisperPrefix(line);
  }

  /** A `/w…` line with a single token (`/w` alone, a word glued to it, or one
      trailing space) has no target: `split(" ")[1]` throws. */
  lemma WhisperWithoutTarget(suffix: string, trailingSpace: bool)
    requires ' ' !in suffix
    ensures Classify("/w" + suffix + (if trailingSpace then " " else "")) == Crash(MissingTarget)
  {
    var word := "/w" + suffix;
    var line := word + (if trailingSpace then " " else "");
    assert StartsWith(line, "/w") by {
      assert line[..2] == word[..2] == "/w";
    }
    assert |Split(line)| <= 1 by {
      if trailingSpace {
        assert line == Join([word, ""], " ");
        SplitOfJoin([word, ""]);
        assert DropTrailingEmpty([word, ""]) == DropTrailingEmpty([word]);
      } else {
        assert line == word;
      }
    }
    WhisperPrefix(line);
  }

  /** The commands other than `/name…` and `/w…` match the whole line, and
      only that line. */
  lemma ExactCommands(line: string)
    ensures Classify(line) == Listen <==> line == "/r"
    ensures Classify(line) == Stop <==> line == "/stop"
    ensures Classify(line) == Time <==> line == "/time"
    ensures Classify(line) == Clients <==> line == "/clients"
    ensures Classify(line) == Memory <==> line == "/memory"
  {
    if line != "" && line[0] == '/' {
      WholeLineExact(line);
      if StartsWith(line, "/name") || StartsWith(line, "/w") {
        assert !IsExactCommand(line) by {
          if StartsWith(line, "/name") {
            assert line[1] == "/name"[1];
          } else {
            assert line[1] == "/w"[1];
          }
        }
      } else {
        WholeLinePrefix(line);
      }
    }
  }

  /** The `switch` recognises each exact command on its own line only. */
  lemma WholeLineExact(line: string)
    requires line != "" && line[0] == '/'
    ensures WholeLineCommand(line) == Listen <==> line == "/r"
    ensures WholeLineCommand(line) == Stop <==> line == "/stop"
    ensures WholeLineCommand(line) == Time <==> line == "/time"
    ensures WholeLineCommand(line) == Clients <==> line == "/clients"
    ensures WholeLineCommand(line) == Memory <==> line == "/memory"
  {
  }

  /** The commands matched against the whole line. */
  predicate IsExactCommand(verb: string)
  {
    verb == "/r" || verb == "/stop" || verb == "/time" || verb == "/clients" || verb == "/memory"
  }

  /** An exact command followed by a space and anything else is unknown,
      reported by its first token. */
  lemma ExtraWordsMakeUnknown(verb: string, rest: string)
    requires IsExactCommand(verb)
    requires rest != "" && rest[0] == ' '
    ensures Classify(verb + rest) == Unknown(verb)
  {
    ExactCommandShape(verb);
    assert !StartsWith(verb, "/name") by {
      assert |verb| < 5 || verb[..5][1] == verb[1];
    }
    assert !StartsWith(verb, "/w") by {
      assert verb[..2][1] == verb[1];
    }
    UnknownCommand(verb, rest);
  }

  /** Any other `/` word, alone or followed by a space and anything, is an
      unknown command reported by that word: the first token of the line. */
  lemma UnknownCommand(verb: string, rest: string)
    requires verb != "" && verb[0] == '/' && ' ' !in verb
    requires !StartsWith(verb, "/name") && !StartsWith(verb, "/w")
    requires (rest == "" && !IsExactCommand(verb)) || (rest != "" && rest[0] == ' ')
    ensures Classify(verb + rest) == Unknown(verb)
  {
    var line := verb + rest;
    PrefixKept(verb, rest, "/name");
    PrefixKept(verb, rest, "/w");
    WholeLinePrefix(line);
    if rest == "" {
      assert line == verb;
    } else {
      assert !IsExactCommand(line) by {
        assert line[|verb|] == ' ';
      }
      FirstTokenBeforeSpace(verb, rest);
    }
  }

  /** A word that does not start with the space-free `p` still does not once
      a space and anything follow it. */
  lemma PrefixKept(word: string, rest: string, p: string)
    requires ' ' !in p && !StartsWith(word, p)
    requires rest == "" || rest[0] == ' '
    ensures !StartsWith(word + rest, p)
  {
    var line := word + rest;
    if |p| <= |word| {
      assert line[..|p|] == word[..|p|];
    } else if |p| <= |line| {
      assert line[..|p|][|word|] == ' ';
    }
  }

  /** An exact command is a `/`, then neither `n` nor `w`, and no space. */
  lemma ExactCommandShape(verb: string)
    requires IsExactCommand(verb)
    ensures |verb| >= 2 && verb[0] == '/' && verb[1] != 'w' && verb[1] != 'n'
    ensures ' ' !in verb
  {
  }

  /** A word followed by a space and anything is that word's first token. */
  lemma FirstTokenBeforeSpace(word: string, rest: string)
    requires word != "" && word[0] != ' ' && ' ' !in word
    requires rest != "" && rest[0] == ' '
    ensures |Split(word + rest)| >= 1
    ensures Split(word + rest)[0] == word
  {
    FieldsAfterPrefix(word, rest, ' ');
    assert rest == [' '] + rest[1..];
    FieldsAfterSeparator(rest[1..], ' ');
    SplitFirstToken(word + rest);
    assert word + "" == word;
  }

  /** A `/` line that is neither `/name…` nor `/w…` goes to the `switch`. */
  lemma WholeLinePrefix(line: string)
    requires line != "" && line[0] == '/'
    requires !StartsWith(line, "/name") && !StartsWith(line, "/w")
    ensures Classify(line) == WholeLineCommand(line)
  {
  }

  // ---------------------------------------------------------------------------
  // The lines the worker sends
  // ---------------------------------------------------------------------------

  function NameChanged(n: string): string { "Name changed into " + n }
  function Renamed(previous: string, n: string): string { previous + " renamed into " + n }
  function WhisperFrom(sender: string, body: string): string { "Message from " + sender + " : " + body }
  function NotFound(target: string): string { "Cannot find user with name " + target }
  const EmptyMessageError: string := "Error sending empty message"
  const Bye: string := "bye-bye"
  function NoCommand(verb: string): string { "No commands found for " + verb }
  function ChatLine(sender: string, text: string): string { sender + ": " + text }
  function HasLeft(n: string): string { n + " has left" }
}
