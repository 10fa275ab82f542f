// Lower-casing the keys of YAML bytes in place, in one pass.
module KeysToLower {
  import opened Basics

  const NEWLINE: Byte := 10
  const QUOTE: Byte := 34
  const HASH: Byte := 35
  const COLON: Byte := 58

  function Lower(c: Byte): Byte {
    if 65 <= c <= 90 then c + 32 else c
  }

  // ---- the specification, line by line ----

  // How far a line reaches, without its newline.
  function LineLength(s: seq<Byte>): (n: nat)
    ensures n <= |s|
  {
    if s == [] || s[0] == NEWLINE then 0 else 1 + LineLength(s[1..])
  }

  // The first of two marks to come in a line: its position, or the length of the line.
  function First(line: seq<Byte>, a: Byte, b: Byte): (n: nat)
    ensures n <= |line|
  {
    if line == [] || line[0] == a || line[0] == b then 0 else 1 + First(line[1..], a, b)
  }

  // The key part of a line: what precedes the first colon, if that comes before any hash, and up to the first quote.
  function KeyLength(line: seq<Byte>): (n: nat)
    ensures n <= |line|
  {
    var c := First(line, COLON, HASH);
    if c < |line| && line[c] == COLON then First(line[..c], QUOTE, QUOTE) else 0
  }

  function LowerPrefix(line: seq<Byte>, n: nat): (r: seq<Byte>)
    requires n <= |line|
    ensures |r| == |line|
  {
    seq(|line|, i requires 0 <= i < |line| => if i < n then Lower(line[i]) else line[i])
  }

  function LoweredLine(line: seq<Byte>): (r: seq<Byte>)
    ensures |r| == |line|
  {
    LowerPrefix(line, KeyLength(line))
  }

  ghost predicate OneLine(s: seq<Byte>) {
    forall i :: 0 <= i < |s| ==> s[i] != NEWLINE
  }

  // The whole text: line after line, newlines kept.
  function Lowered(s: seq<Byte>): (r: seq<Byte>)
    ensures |r| == |s|
    decreases |s|
  {
    var n := LineLength(s);
    LoweredLine(s[..n]) + if n < |s| then [NEWLINE] + Lowered(s[n + 1..]) else []
  }

  lemma {:induction false} FirstIs(line: seq<Byte>, a: Byte, b: Byte)
    ensures var n := First(line, a, b); n < |line| ==> line[n] == a || line[n] == b
  {
    if line != [] { FirstIs(line[1..], a, b); }
  }

  lemma {:induction false} BeforeFirst(line: seq<Byte>, a: Byte, b: Byte, k: nat)
    requires k < First(line, a, b)
    ensures line[k] != a && line[k] != b
  {
    if k > 0 { BeforeFirst(line[1..], a, b, k - 1); }
  }

  lemma {:induction false} FirstIsAt(line: seq<Byte>, a: Byte, b: Byte, n: nat)
    requires n <= |line| && (n < |line| ==> line[n] == a || line[n] == b)
    requires forall k :: 0 <= k < n ==> line[k] != a && line[k] != b
    ensures First(line, a, b) == n
  {
    if n > 0 { FirstIsAt(line[1..], a, b, n - 1); }
  }

  // Byte i belongs to the key: a colon follows with no other colon and no hash before it, and no quote comes up to i.
  ghost predicate EndsKey(line: seq<Byte>, c: nat) {
    c < |line| && line[c] == 58 && forall k :: 0 <= k < c ==> line[k] != 58 && line[k] != 35
  }

  ghost predicate InKey(line: seq<Byte>, i: nat)
    requires i < |line|
  {
    (forall k :: 0 <= k <= i ==> line[k] != 34) && exists c :: i < c && EndsKey(line, c)
  }

  lemma KeyLengthIff(line: seq<Byte>, i: nat)
    requires i < |line|
    ensures i < KeyLength(line) <==> InKey(line, i)
  {
    hide First;
    var c := First(line, COLON, HASH);
    FirstIs(line, COLON, HASH);
    if i < KeyLength(line) {
      forall k | 0 <= k < c ensures line[k] != COLON && line[k] != HASH { BeforeFirst(line, COLON, HASH, k); }
      forall k | 0 <= k <= i ensures line[k] != QUOTE { BeforeFirst(line[..c], QUOTE, QUOTE, k); }
      assert EndsKey(line, c);
    }
    if InKey(line, i) {
      var d :| i < d && EndsKey(line, d);
      FirstIsAt(line, COLON, HASH, d);
      FirstIs(line[..d], QUOTE, QUOTE);
    }
  }

  // What becomes of each byte of a line: capital letters of its key turn into small ones, all else stays.
  lemma LineByte(line: seq<Byte>, i: nat)
    requires i < |line|
    ensures LoweredLine(line)[i] == if InKey(line, i) && 65 <= line[i] <= 90 then line[i] + 32 else line[i]
  {
    KeyLengthIff(line, i);
  }

  // ---- growing a line by one byte ----

  lemma {:induction false} FirstGrows(line: seq<Byte>, a: Byte, b: Byte, c: Byte)
    ensures First(line + [c], a, b) ==
      if First(line, a, b) < |line| then First(line, a, b) else if c == a || c == b then |line| else |line| + 1
  {
    if line == [] {
      assert [c][1..] == [] && line + [c] == [c];
    } else {
      assert (line + [c])[1..] == line[1..] + [c];
      FirstGrows(line[1..], a, b, c);
    }
  }

  lemma PrefixGrows(line: seq<Byte>, n: nat, c: Byte)
    requires n <= |line|
    ensures LowerPrefix(line + [c], n) == LowerPrefix(line, n) + [c]
  {
  }

  lemma LowerNothing(line: seq<Byte>)
    ensures LowerPrefix(line, 0) == line
  {
  }

  lemma KeyGrows(line: seq<Byte>, c: Byte)
    ensures KeyLength(line + [c]) ==
      if First(line, COLON, HASH) == |line| && c == COLON then First(line, QUOTE, QUOTE) else KeyLength(line)
  {
    hide First;
    FirstGrows(line, COLON, HASH, c);
    FirstIs(line, COLON, HASH);
    var n := First(line, COLON, HASH);
    assert (line + [c])[..|line|] == line;
    assert n < |line| ==> (line + [c])[..n] == line[..n] && (line + [c])[n] == line[n];
  }

  // What one more byte does to a lowered line: nothing, unless it is the colon that ends the key.
  lemma LineGrows(line: seq<Byte>, c: Byte)
    ensures var n := First(line, COLON, HASH);
      LoweredLine(line + [c]) ==
        (if n == |line| && c == COLON then LowerPrefix(line, First(line, QUOTE, QUOTE)) else LoweredLine(line)) + [c]
  {
    hide First, LowerPrefix;
    KeyGrows(line, c);
    PrefixGrows(line, KeyLength(line), c);
    PrefixGrows(line, First(line, QUOTE, QUOTE), c);
  }

  // ---- growing the text by one byte ----

  lemma {:induction false} LineLengthIs(s: seq<Byte>)
    ensures OneLine(s[..LineLength(s)]) && (LineLength(s) < |s| ==> s[LineLength(s)] == NEWLINE)
  {
    if s != [] && s[0] != NEWLINE {
      LineLengthIs(s[1..]);
      assert s[..LineLength(s)] == [s[0]] + s[1..][..LineLength(s[1..])];
    }
  }

  lemma {:induction false} LineLengthFinds(line: seq<Byte>, rest: seq<Byte>)
    requires OneLine(line)
    ensures LineLength(line) == |line|
    ensures LineLength(line + [NEWLINE] + rest) == |line|
  {
    var s := line + [NEWLINE] + rest;
    if line != [] {
      LineLengthFinds(line[1..], rest);
      assert s[1..] == line[1..] + [NEWLINE] + rest;
    }
  }

  lemma LoweredOfLine(line: seq<Byte>)
    requires OneLine(line)
    ensures Lowered(line) == LoweredLine(line)
  {
    LineLengthFinds(line, []);
    assert line[..|line|] == line;
  }

  lemma LoweredOfLines(line: seq<Byte>, rest: seq<Byte>)
    requires OneLine(line)
    ensures Lowered(line + [NEWLINE] + rest) == LoweredLine(line) + [NEWLINE] + Lowered(rest)
  {
    LineLengthFinds(line, rest);
    var s := line + [NEWLINE] + rest;
    assert s[..|line|] == line && s[|line| + 1..] == rest;
  }

  // The lines that are complete, and the one that is not.
  ghost predicate Splits(s: seq<Byte>, p: nat) {
    p <= |s| && OneLine(s[p..]) && (p == 0 || s[p - 1] == NEWLINE)
  }

  lemma LoweredOfNothing()
    ensures Lowered([]) == []
  {
  }

  lemma InLine(s: seq<Byte>, n: nat, j: nat)
    requires j < n <= |s| && OneLine(s[..n])
    ensures s[j] != NEWLINE
  {
    assert s[..n][j] == s[j];
  }

  lemma FirstLine(s: seq<Byte>, p: nat) returns (line: seq<Byte>, rest: seq<Byte>)
    requires Splits(s, p) && p > 0
    ensures s == line + [NEWLINE] + rest && OneLine(line) && |line| < p && Splits(rest, p - |line| - 1)
  {
    var n := LineLength(s);
    LineLengthIs(s);
    if n >= p { InLine(s, n, p - 1); }
    line, rest := s[..n], s[n + 1..];
    assert rest[p - n - 1..] == s[p..];
  }

  lemma {:induction false} LoweredSplits(s: seq<Byte>, p: nat)
    requires Splits(s, p)
    ensures Lowered(s) == Lowered(s[..p]) + LoweredLine(s[p..])
    ensures Lowered(s + [NEWLINE]) == Lowered(s[..p]) + LoweredLine(s[p..]) + [NEWLINE]
    decreases p
  {
    hide LoweredLine, Lowered;
    if p == 0 {
      LoweredOfLine(s);
      LoweredOfLines(s, []);
      LoweredOfNothing();
      assert s[..0] == [] && s[0..] == s;
      assert s + [NEWLINE] == s + [NEWLINE] + [];
    } else {
      var line, rest := FirstLine(s, p);
      var q := p - |line| - 1;
      assert s[..p] == line + [NEWLINE] + rest[..q] && rest[q..] == s[p..];
      assert s + [NEWLINE] == line + [NEWLINE] + (rest + [NEWLINE]);
      LoweredOfLines(line, rest);
      LoweredOfLines(line, rest + [NEWLINE]);
      LoweredOfLines(line, rest[..q]);
      LoweredSplits(rest, q);
    }
  }

  lemma {:induction false} LoweredParts(before: seq<Byte>, line: seq<Byte>, rest: seq<Byte>)
    requires OneLine(line) && (before != [] ==> before[|before| - 1] == NEWLINE)
    ensures Lowered(before + (line + [NEWLINE] + rest))
         == Lowered(before) + (LoweredLine(line) + [NEWLINE] + Lowered(rest))
    decreases |before|
  {
    hide LoweredLine, Lowered;
    LoweredOfLines(line, rest);
    if before == [] {
      LoweredOfNothing();
      assert before + (line + [NEWLINE] + rest) == line + [NEWLINE] + rest;
    } else {
      var first, later := FirstLine(before, |before|);
      assert before + (line + [NEWLINE] + rest) == first + [NEWLINE] + (later + (line + [NEWLINE] + rest));
      LoweredOfLines(first, later + (line + [NEWLINE] + rest));
      LoweredOfLines(first, later);
      assert later != [] ==> later[|later| - 1] == before[|before| - 1];
      LoweredParts(later, line, rest);
    }
  }

  lemma Inside(a: seq<Byte>, b: seq<Byte>, c: seq<Byte>, i: nat)
    requires i < |b|
    ensures (a + (b + c))[|a| + i] == b[i]
  {
  }

  lemma Assoc(a: seq<Byte>, b: seq<Byte>, c: seq<Byte>)
    ensures a + (b + c) == (a + b) + c
  {
  }

  lemma WholeLine(before: seq<Byte>, line: seq<Byte>, after: seq<Byte>) returns (l: seq<Byte>, tail: seq<Byte>)
    requires OneLine(line) && (before != [] ==> before[|before| - 1] == NEWLINE)
    requires after != [] ==> after[0] == NEWLINE
    ensures l == LoweredLine(line) && Lowered(before + line + after) == Lowered(before) + (l + tail)
  {
    hide LoweredLine, Lowered;
    l := LoweredLine(line);
    if after == [] {
      tail := [];
      var s := before + line;
      assert s + after == s && l + tail == l;
      assert s[..|before|] == before && s[|before|..] == line;
      LoweredSplits(s, |before|);
    } else {
      var rest := after[1..];
      tail := [NEWLINE] + Lowered(rest);
      assert after == [NEWLINE] + rest;
      Assoc(line, [NEWLINE], rest);
      Assoc(before, line, after);
      LoweredParts(before, line, rest);
      Assoc(l, [NEWLINE], Lowered(rest));
    }
  }

  // What becomes of each byte of a text, in terms of its line: neither the lines before nor those behind matter.
  lemma TextByte(before: seq<Byte>, line: seq<Byte>, after: seq<Byte>, i: nat)
    requires (forall k :: 0 <= k < |line| ==> line[k] != 10) && i < |line|
    requires (before != [] ==> before[|before| - 1] == 10) && (after != [] ==> after[0] == 10)
    ensures Lowered(before + line + after)[|before| + i] ==
            if InKey(line, i) && 65 <= line[i] <= 90 then line[i] + 32 else line[i]
  {
    hide LoweredLine, Lowered, InKey;
    LineByte(line, i);
    var l, tail := WholeLine(before, line, after);
    Inside(Lowered(before), l, tail, i);
  }

  // ---- the pass ----

  lemma {:induction false} FirstStops(line: seq<Byte>)
    ensures var q := First(line, QUOTE, QUOTE);
      (q < |line| ==> line[q] == QUOTE) && forall k :: 0 <= k < q ==> line[k] != QUOTE
  {
    if line != [] && line[0] != QUOTE { FirstStops(line[1..]); }
  }

  // The inner loop: from the start of the line up to the colon, stopping at a quote.
  method LowerChunk(a: array<Byte>, l: nat, r: nat)
    requires l <= r < a.Length && a[r] == COLON
    modifies a
    ensures var was := old(a[..]);
      a[..] == was[..l] + LowerPrefix(was[l..r], First(was[l..r], QUOTE, QUOTE)) + was[r..]
  {
    ghost var was := a[..];
    ghost var chunk := was[l..r];
    ghost var q := First(chunk, QUOTE, QUOTE);
    FirstStops(chunk);
    var j := l;
    while j <= r
      invariant l <= j <= r + 1 && (j <= r ==> j - l <= q)
      invariant forall k :: 0 <= k < a.Length ==> a[k] == if l <= k < j && k - l < q then Lower(was[k]) else was[k]
    {
      var c := a[j];
      if c == QUOTE {
        break;
      }
      if 65 <= c <= 90 {
        a[j] := c + 32;
      }
      j := j + 1;
    }
  }

  lemma LastByte(s: seq<Byte>)
    requires s != [] && s[|s| - 1] == NEWLINE
    ensures s == s[..|s| - 1] + [NEWLINE]
  {
  }

  lemma Parts(a: seq<Byte>, b: seq<Byte>, c: seq<Byte>)
    ensures var s := a + b + c; s[..|a|] == a && s[|a|..|a| + |b|] == b && s[|a| + |b|..] == c
  {
  }

  lemma NewlineInFront(line: seq<Byte>)
    ensures var n := First([NEWLINE] + line, QUOTE, QUOTE);
      LowerPrefix([NEWLINE] + line, n) == [NEWLINE] + LowerPrefix(line, First(line, QUOTE, QUOTE))
  {
    assert ([NEWLINE] + line)[1..] == line;
  }

  // Lowering the chunk leaves a newline in front of the line alone.
  lemma ChunkIsLine(done: seq<Byte>, line: seq<Byte>, rest: seq<Byte>, l: nat)
    requires l == |done| || (l == |done| - 1 && done[l] == NEWLINE)
    ensures var text, i := done + line + rest, |done| + |line|;
      text[..l] + LowerPrefix(text[l..i], First(text[l..i], QUOTE, QUOTE)) + text[i..]
        == done + LowerPrefix(line, First(line, QUOTE, QUOTE)) + rest
  {
    hide First, LowerPrefix;
    if l == |done| {
      Parts(done, line, rest);
    } else {
      var front := done[..l];
      LastByte(done);
      NewlineInFront(line);
      Assoc(front, [NEWLINE], line);
      Assoc(front, [NEWLINE], LowerPrefix(line, First(line, QUOTE, QUOTE)));
      Parts(front, [NEWLINE] + line, rest);
    }
  }

  // Where the last line of a text starts.
  function LastLineStart(s: seq<Byte>): (p: nat)
    ensures p <= |s|
  {
    if s == [] || s[|s| - 1] == NEWLINE then |s| else LastLineStart(s[..|s| - 1])
  }

  lemma {:induction false} LastLine(s: seq<Byte>)
    ensures Splits(s, LastLineStart(s))
  {
    if s != [] && s[|s| - 1] != NEWLINE {
      LastLine(s[..|s| - 1]);
    }
  }

  lemma {:induction false} LoweredEnds(s: seq<Byte>)
    requires s != [] && s[|s| - 1] == NEWLINE
    ensures Lowered(s)[|s| - 1] == NEWLINE
  {
    var t := s[..|s| - 1];
    LastLine(t);
    assert s == t + [NEWLINE];
    var p := LastLineStart(t);
    LoweredSplits(t, p);
  }

  // The specification on one more byte of the text.
  lemma Grow(s: seq<Byte>, p: nat, i: nat)
    requires i < |s| && p <= i && Splits(s[..i], p)
    ensures s[i] == NEWLINE ==> Splits(s[..i + 1], i + 1) && Lowered(s[..i + 1]) == Lowered(s[..i]) + [NEWLINE]
    ensures s[i] != NEWLINE ==> Splits(s[..i + 1], p) && s[p..i + 1] == s[p..i] + [s[i]]
    ensures Lowered(s[..i]) == Lowered(s[..p]) + LoweredLine(s[p..i])
    ensures s[i] != NEWLINE ==>
      var line := s[p..i]; var n := First(line, COLON, HASH);
      Lowered(s[..i + 1]) ==
        if n == |line| && s[i] == COLON then Lowered(s[..p]) + LowerPrefix(line, First(line, QUOTE, QUOTE)) + [COLON]
        else Lowered(s[..i]) + [s[i]]
  {
    hide Lowered, LoweredLine, First;
    var line, c := s[p..i], s[i];
    var t, u := s[..i], s[..i + 1];
    assert u == t + [c] && t[..p] == s[..p] && u[..p] == s[..p] && t[p..] == line && u[p..] == line + [c];
    LoweredSplits(t, p);
    if c != NEWLINE {
      LoweredSplits(u, p);
      LineGrows(line, c);
    }
  }

  // Where the pass is before byte i: p is the start of the current line, ignore says that its key has been dealt with.
  ghost predicate Reached(s: seq<Byte>, now: seq<Byte>, i: nat, p: nat, l: int, ignore: bool) {
    && p <= i <= |s| && Splits(s[..i], p) && 0 <= l <= p && (l == p || l == p - 1)
    && (ignore <==> First(s[p..i], COLON, HASH) < i - p)
    && now == Lowered(s[..i]) + s[i..]
  }

  lemma NothingYet(s: seq<Byte>, i: nat)
    requires i <= |s|
    ensures s[i..i] == [] && First([], COLON, HASH) == 0 && Lowered([]) == []
  {
  }

  lemma StepOver(s: seq<Byte>, now: seq<Byte>, i: nat, p: nat, l: int, ignore: bool)
    requires Reached(s, now, i, p, l, ignore) && i < |s|
    ensures |now| == |s| && now[i] == s[i]
    ensures s[i] == NEWLINE ==> Reached(s, now, i + 1, i + 1, i, false)
    ensures s[i] != NEWLINE && (s[i] != COLON || ignore) ==> Reached(s, now, i + 1, p, l, ignore || s[i] == HASH)
  {
    hide Lowered, LoweredLine, First;
    Grow(s, p, i);
    FirstGrows(s[p..i], COLON, HASH, s[i]);
    assert s[i..] == [s[i]] + s[i + 1..];
    assert Lowered(s[..i]) + ([s[i]] + s[i + 1..]) == (Lowered(s[..i]) + [s[i]]) + s[i + 1..];
    if s[i] == NEWLINE { NothingYet(s, i + 1); }
  }

  lemma PlainLine(line: seq<Byte>)
    requires First(line, COLON, HASH) == |line|
    ensures LoweredLine(line) == line
  {
    LowerNothing(line);
  }

  lemma StepColon(s: seq<Byte>, now: seq<Byte>, i: nat, p: nat, l: int, next: seq<Byte>)
    requires Reached(s, now, i, p, l, false) && i < |s| == |now| && s[i] == COLON
    requires next == now[..l] + LowerPrefix(now[l..i], First(now[l..i], QUOTE, QUOTE)) + now[i..]
    ensures Reached(s, next, i + 1, p, l, true)
  {
    hide Lowered, First, LoweredLine, LowerPrefix;
    Grow(s, p, i);
    var done, line, rest := Lowered(s[..p]), s[p..i], s[i..];
    FirstGrows(line, COLON, HASH, COLON);
    PlainLine(line);
    if l == p - 1 { LoweredEnds(s[..p]); }
    ChunkIsLine(done, line, rest, l);
    var low := LowerPrefix(line, First(line, QUOTE, QUOTE));
    assert rest == [COLON] + s[i + 1..];
    Assoc(done + low, [COLON], s[i + 1..]);
  }

  lemma ReachedMeans(s: seq<Byte>, now: seq<Byte>, i: nat, p: nat, l: int, ignore: bool)
    requires Reached(s, now, i, p, l, ignore)
    ensures p <= i && 0 <= l <= p
  {
  }

  lemma StartOfText(s: seq<Byte>)
    ensures Reached(s, s, 0, 0, 0, false)
  {
    NothingYet(s, 0);
  }

  lemma EndOfText(s: seq<Byte>, now: seq<Byte>, p: nat, l: int, ignore: bool)
    requires Reached(s, now, |s|, p, l, ignore)
    ensures now == Lowered(s)
  {
    hide Lowered, First;
    assert s[..|s|] == s && s[|s|..] == [];
  }

  // keysToLower.
  method LowerKeys(a: array<Byte>)
    modifies a
    ensures a[..] == Lowered(old(a[..]))
  {
    hide Reached, Lowered, First;
    ghost var s := a[..];
    var l, ignore := 0, false;
    ghost var p := 0;
    StartOfText(s);
    for i := 0 to a.Length
      invariant 0 <= l <= i && Reached(s, a[..], i, p, l, ignore)
    {
      var b := a[i];
      StepOver(s, a[..], i, p, l, ignore);
      ReachedMeans(s, a[..], i, p, l, ignore);
      if b == HASH {
        ignore := true;
      } else if b == COLON {
        if !ignore {
          ghost var now := a[..];
          LowerChunk(a, l, i);
          StepColon(s, now, i, p, l, a[..]);
          ignore := true;
        }
      } else if b == NEWLINE {
        l := i;
        ignore := false;
        p := i + 1;
      }
    }
    EndOfText(s, a[..], p, l, ignore);
  }

  // ---- lowering twice ----

  lemma {:induction false} FirstLowered(line: seq<Byte>, n: nat, a: Byte, b: Byte)
    requires n <= |line| && a in {QUOTE, HASH, COLON} && b in {QUOTE, HASH, COLON}
    ensures First(LowerPrefix(line, n), a, b) == First(line, a, b)
  {
    if line != [] {
      var m := if n > 0 then n - 1 else 0;
      FirstLowered(line[1..], m, a, b);
      assert LowerPrefix(line, n)[1..] == LowerPrefix(line[1..], m);
    }
  }

  lemma PrefixTwice(line: seq<Byte>, n: nat)
    requires n <= |line|
    ensures LowerPrefix(LowerPrefix(line, n), n) == LowerPrefix(line, n)
  {
  }

  lemma LoweredLineTwice(line: seq<Byte>)
    ensures LoweredLine(LoweredLine(line)) == LoweredLine(line)
  {
    hide First;
    var n := KeyLength(line);
    var low := LowerPrefix(line, n);
    FirstLowered(line, n, COLON, HASH);
    var c := First(line, COLON, HASH);
    if c < |line| && line[c] == COLON {
      FirstLowered(line[..c], n, QUOTE, QUOTE);
      assert low[..c] == LowerPrefix(line[..c], n);
      assert low[c] == COLON;
    } else {
      FirstIs(line, COLON, HASH);
      LowerNothing(line);
    }
    PrefixTwice(line, n);
  }

  lemma LoweredIsOneLine(line: seq<Byte>)
    requires OneLine(line)
    ensures OneLine(LoweredLine(line))
  {
    hide KeyLength;
  }

  // The pass is idempotent.
  lemma {:induction false} LoweredTwice(s: seq<Byte>)
    ensures Lowered(Lowered(s)) == Lowered(s)
    decreases |s|
  {
    hide LoweredLine, Lowered;
    var n := LineLength(s);
    var line := s[..n];
    LineLengthIs(s);
    LoweredLineTwice(line);
    LoweredIsOneLine(line);
    if n < |s| {
      var rest := s[n + 1..];
      assert s == line + [NEWLINE] + rest;
      LoweredOfLines(line, rest);
      LoweredOfLines(LoweredLine(line), Lowered(rest));
      LoweredTwice(rest);
    } else {
      assert s == line;
      LoweredOfLine(line);
      LoweredOfLine(LoweredLine(line));
    }
  }
}
