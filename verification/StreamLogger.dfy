// Logging the output of a process line by line, however the bytes arrive.
module StreamLogger {
  import opened Basics

  const NEWLINE: Byte := 10
  const RETURN: Byte := 13

  // ---- lines of a stream ----

  // Where the first newline is, or the length when there is none.
  function NextNewline(s: seq<Byte>): (n: nat)
    ensures n <= |s|
    ensures n < |s| ==> s[n] == NEWLINE
    ensures forall i :: 0 <= i < n ==> s[i] != NEWLINE
  {
    if s == [] || s[0] == NEWLINE then 0 else 1 + NextNewline(s[1..])
  }

  // strings.TrimRight with the cut set "\r\n".
  function TrimRight(s: seq<Byte>): (t: seq<Byte>)
    ensures t <= s
    ensures t != [] ==> t[|t| - 1] != NEWLINE && t[|t| - 1] != RETURN
    ensures forall i :: |t| <= i < |s| ==> s[i] == NEWLINE || s[i] == RETURN
  {
    if s != [] && (s[|s| - 1] == NEWLINE || s[|s| - 1] == RETURN) then TrimRight(s[..|s| - 1]) else s
  }

  // The log events of one terminated line: none when nothing is left of it.
  function Event(prefix: seq<Byte>, line: seq<Byte>): seq<seq<Byte>> {
    if TrimRight(line) == [] then [] else [prefix + TrimRight(line)]
  }

  // The events of all terminated lines of a stream, and the unterminated rest.
  function Logged(prefix: seq<Byte>, s: seq<Byte>): seq<seq<Byte>>
    decreases |s|
  {
    var n := NextNewline(s);
    if n == |s| then [] else Event(prefix, s[..n + 1]) + Logged(prefix, s[n + 1..])
  }

  function Tail(s: seq<Byte>): seq<Byte>
    decreases |s|
  {
    var n := NextNewline(s);
    if n == |s| then s else Tail(s[n + 1..])
  }

  lemma NextNewlineIs(s: seq<Byte>, n: nat)
    requires n < |s| && s[n] == NEWLINE && forall i :: 0 <= i < n ==> s[i] != NEWLINE
    ensures NextNewline(s) == n
  {
  }

  // A stream that starts with a terminated line.
  lemma FirstLine(prefix: seq<Byte>, line: seq<Byte>, rest: seq<Byte>)
    requires line != [] && line[|line| - 1] == NEWLINE && forall i :: 0 <= i < |line| - 1 ==> line[i] != NEWLINE
    ensures Logged(prefix, line + rest) == Event(prefix, line) + Logged(prefix, rest)
    ensures Tail(line + rest) == Tail(rest)
  {
    hide Event;
    var s := line + rest;
    NextNewlineIs(s, |line| - 1);
    assert s[..|line|] == line && s[|line|..] == rest;
  }

  lemma NoLine(prefix: seq<Byte>, s: seq<Byte>)
    requires NextNewline(s) == |s|
    ensures Logged(prefix, s) == [] && Tail(s) == s
  {
  }

  lemma {:induction false} TrimmedIs(s: seq<Byte>, text: seq<Byte>)
    requires text <= s && (text != [] ==> text[|text| - 1] != NEWLINE && text[|text| - 1] != RETURN)
    requires forall i :: |text| <= i < |s| ==> s[i] == NEWLINE || s[i] == RETURN
    ensures TrimRight(s) == text
  {
    if |s| > |text| {
      TrimmedIs(s[..|s| - 1], text);
    } else {
      assert s == text;
    }
  }

  // A terminated line is logged without its carriage returns, behind the prefix, unless nothing is left of it; without
  // a newline nothing is logged and everything is kept.
  lemma LoggedLine(prefix: seq<Byte>, text: seq<Byte>, cr: seq<Byte>, rest: seq<Byte>)
    requires forall i :: 0 <= i < |text| ==> text[i] != 10
    requires text != [] ==> text[|text| - 1] != 13
    requires forall i :: 0 <= i < |cr| ==> cr[i] == 13
    ensures Logged(prefix, text + cr + [10] + rest) ==
            (if text == [] then [] else [prefix + text]) + Logged(prefix, rest)
    ensures Tail(text + cr + [10] + rest) == Tail(rest)
    ensures Logged(prefix, text + cr) == [] && Tail(text + cr) == text + cr
  {
    hide Logged, Tail;
    var line := text + cr + [10];
    FirstLine(prefix, line, rest);
    NoLine(prefix, text + cr);
    TrimmedIs(line, text);
  }

  // Events already logged stay; the rest of the stream is read after the tail.
  lemma {:induction false} Continues(prefix: seq<Byte>, a: seq<Byte>, b: seq<Byte>)
    ensures Logged(prefix, a + b) == Logged(prefix, a) + Logged(prefix, Tail(a) + b)
    ensures Tail(a + b) == Tail(Tail(a) + b)
    decreases |a|
  {
    hide Event, Logged, Tail;
    var n := NextNewline(a);
    if n < |a| {
      var line, rest := a[..n + 1], a[n + 1..];
      assert a == line + rest && a + b == line + (rest + b);
      FirstLine(prefix, line, rest);
      FirstLine(prefix, line, rest + b);
      Continues(prefix, rest, b);
      assert Event(prefix, line) + (Logged(prefix, rest) + Logged(prefix, Tail(rest) + b))
          == (Event(prefix, line) + Logged(prefix, rest)) + Logged(prefix, Tail(rest) + b);
    } else {
      NoLine(prefix, a);
    }
  }

  // ---- any number of writes ----

  function Joined(chunks: seq<seq<Byte>>): seq<Byte> {
    if chunks == [] then [] else Joined(chunks[..|chunks| - 1]) + chunks[|chunks| - 1]
  }

  // Buffer and log after the chunks have been written one by one.
  function AfterWrites(prefix: seq<Byte>, chunks: seq<seq<Byte>>): (seq<Byte>, seq<seq<Byte>>) {
    if chunks == [] then ([], [])
    else
      var (buf, log) := AfterWrites(prefix, chunks[..|chunks| - 1]);
      var s := buf + chunks[|chunks| - 1];
      (Tail(s), log + Logged(prefix, s))
  }

  // However a stream is cut into writes, the log and the buffer are those of the whole stream.
  lemma {:induction false} ChunksDoNotMatter(prefix: seq<Byte>, chunks: seq<seq<Byte>>)
    ensures AfterWrites(prefix, chunks) == (Tail(Joined(chunks)), Logged(prefix, Joined(chunks)))
  {
    if chunks != [] {
      ChunksDoNotMatter(prefix, chunks[..|chunks| - 1]);
      Continues(prefix, Joined(chunks[..|chunks| - 1]), chunks[|chunks| - 1]);
    }
  }

  // A stream is its lines and its tail: what is buffered is exactly what follows the last newline.
  lemma {:induction false} TailIsUnterminated(s: seq<Byte>)
    ensures |Tail(s)| <= |s| && s[|s| - |Tail(s)|..] == Tail(s)
    ensures forall i :: 0 <= i < |Tail(s)| ==> Tail(s)[i] != NEWLINE
    ensures |Tail(s)| < |s| ==> s[|s| - |Tail(s)| - 1] == NEWLINE
    decreases |s|
  {
    var n := NextNewline(s);
    if n < |s| {
      TailIsUnterminated(s[n + 1..]);
    }
  }

  class StreamLogger {
    const prefix: seq<Byte>

    var buf: seq<Byte>
    var log: seq<seq<Byte>>
    ghost var stream: seq<Byte>

    ghost predicate Valid()
      reads this
    {
      buf == Tail(stream) && log == Logged(prefix, stream)
    }

    constructor (prefix: seq<Byte>)
      ensures Valid() && stream == [] && this.prefix == prefix
    {
      this.prefix, buf, log, stream := prefix, [], [], [];
    }

    // buf.ReadString('\n'): a line with its newline, or everything there is.
    method ReadLine() returns (line: seq<Byte>, found: bool)
      modifies this`buf
      ensures old(buf) == line + buf
      ensures found ==> Logged(prefix, old(buf)) == Event(prefix, line) + Logged(prefix, buf)
      ensures found ==> Tail(old(buf)) == Tail(buf)
      ensures found ==> |buf| < |old(buf)|
      ensures !found ==> Logged(prefix, old(buf)) == [] && Tail(old(buf)) == line
    {
      hide Event;
      var n := NextNewline(buf);
      found := n < |buf|;
      line := if found then buf[..n + 1] else buf;
      buf := if found then buf[n + 1..] else [];
      assert !found ==> line + [] == line;
    }

    // Logs the line, unless nothing is left of it.
    method LogLine(line: seq<Byte>)
      modifies this`log
      ensures log == old(log) + Event(prefix, line)
    {
      var trimmed := TrimRight(line);
      if trimmed != [] {
        log := log + [prefix + trimmed];
      }
    }

    method Write(p: seq<Byte>) returns (n: nat)
      requires Valid()
      modifies this
      ensures Valid() && stream == old(stream) + p && n == |p|
      ensures log == old(log) + Logged(prefix, old(buf) + p) && buf == Tail(old(buf) + p)
    {
      hide Event, Logged, Tail;
      n := |p|;
      buf := buf + p;
      ghost var all := buf;
      Continues(prefix, stream, p);
      stream := stream + p;
      while true
        invariant old(log) + Logged(prefix, all) == log + Logged(prefix, buf)
        invariant Tail(all) == Tail(buf)
        invariant stream == old(stream) + p
        decreases |buf|
      {
        var line, found := ReadLine();
        if !found {
          buf := line;
          return;
        }
        assert log + (Event(prefix, line) + Logged(prefix, buf)) == (log + Event(prefix, line)) + Logged(prefix, buf);
        LogLine(line);
      }
    }
  }
}
