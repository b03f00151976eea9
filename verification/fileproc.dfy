/** Reading a source file as lines: `parse_lines` copies the text into one
    buffer, turns every newline into a NUL and records where each line
    starts, so the assembler sees each line as a C string. */
module FileProc {

  /** The lines after one more character: a newline opens a new, empty
      line; anything else extends the last one. */
  function Step(ls: seq<string>, c: char): (r: seq<string>)
    requires |ls| >= 1
    ensures |r| >= 1
  {
    if c == '\n' then ls + [""] else ls[..|ls| - 1] + [ls[|ls| - 1] + [c]]
  }

  /** The lines of the first `n` characters of `t`. */
  function Lines(t: string, n: nat): (ls: seq<string>)
    requires n <= |t|
    ensures |ls| >= 1
  {
    if n == 0 then [""] else Step(Lines(t, n - 1), t[n - 1])
  }

  /** The lines of a text: the pieces between newlines, in order. A text
      with `n` newlines has `n + 1` lines (the last may be empty). */
  function Split(t: string): (ls: seq<string>)
    ensures |ls| >= 1
  {
    Lines(t, |t|)
  }

  /** Lines glued back together with a newline between neighbours. */
  function Join(ls: seq<string>): string
    requires |ls| >= 1
    decreases |ls|
  {
    if |ls| == 1 then ls[0] else Join(ls[..|ls| - 1]) + "\n" + ls[|ls| - 1]
  }

  predicate NoNewline(l: string) {
    forall j | 0 <= j < |l| :: l[j] != '\n'
  }

  predicate NoNul(t: string) {
    forall j | 0 <= j < |t| :: t[j] != '\0'
  }

  /** No line holds a newline. */
  lemma {:induction false} LinesPlain(t: string, n: nat)
    requires n <= |t|
    ensures forall k | 0 <= k < |Lines(t, n)| :: NoNewline(Lines(t, n)[k])
  {
    if n > 0 {
      LinesPlain(t, n - 1);
    }
  }

  /** The lines of a prefix depend on that prefix only. */
  lemma {:induction false} LinesPrefix(t: string, u: string, n: nat)
    requires n <= |t| && n <= |u| && forall j | 0 <= j < n :: t[j] == u[j]
    ensures Lines(t, n) == Lines(u, n)
  {
    if n > 0 {
      LinesPrefix(t, u, n - 1);
    }
  }

  /** Joining after one more line. */
  lemma JoinLast(front: seq<string>, x: string)
    ensures Join(front + [x]) == if |front| == 0 then x else Join(front) + "\n" + x
  {
    assert (front + [x])[..|front|] == front;
  }

  /** Joining two runs of lines puts one newline between them. */
  lemma {:induction false} JoinAppend(a: seq<string>, b: seq<string>)
    requires |a| >= 1 && |b| >= 1
    ensures Join(a + b) == Join(a) + "\n" + Join(b)
    decreases |b|
  {
    var x := b[|b| - 1];
    if |b| == 1 {
      assert b == [x];
      JoinLast(a, x);
    } else {
      var front := b[..|b| - 1];
      assert a + b == (a + front) + [x];
      JoinLast(a + front, x);
      JoinAppend(a, front);
    }
  }

  /** Three lines joined. */
  lemma JoinThree(x: string, y: string, z: string)
    ensures Join([x, y, z]) == x + "\n" + y + "\n" + z
  {
    JoinLast([x], y);
    JoinLast([x, y], z);
    assert [x] + [y] == [x, y] && [x, y] + [z] == [x, y, z];
  }

  /** A line and its newline in front of lines joined and ended by a
      newline. */
  lemma JoinCons(x: string, y: string, b: seq<string>)
    requires |b| >= 1 && y == Join(b) + "\n"
    ensures x + "\n" + y == Join([x] + b) + "\n"
  {
    JoinAppend([x], b);
  }

  /** Two texts that each end in a newline are, together, their lines
      joined, with a last empty line. */
  lemma JoinTexts(x: string, a: seq<string>, y: string, b: seq<string>)
    requires |a| >= 1 && |b| >= 1
    requires x == Join(a) + "\n" && y == Join(b) + "\n"
    ensures x + y == Join(a + b + [""])
  {
    JoinAppend(a, b);
    JoinLast(a + b, "");
  }

  /** One more character adds that character to the joined lines. */
  lemma JoinStep(ls: seq<string>, c: char)
    requires |ls| >= 1
    ensures Join(Step(ls, c)) == Join(ls) + [c]
  {
    if c == '\n' {
      JoinLast(ls, "");
    } else {
      JoinExtend(ls[..|ls| - 1], ls[|ls| - 1], c);
    }
  }

  /** A character that is not a newline extends the last joined line. */
  lemma JoinExtend(front: seq<string>, x: string, c: char)
    ensures Join(front + [x + [c]]) == Join(front + [x]) + [c]
  {
    JoinLast(front, x);
    JoinLast(front, x + [c]);
    if |front| > 0 {
      var j := Join(front);
      assert j + "\n" + (x + [c]) == (j + "\n" + x) + [c];
    }
  }

  /** Joining the lines of a prefix gives the prefix back. */
  lemma {:induction false} JoinLines(t: string, n: nat)
    requires n <= |t|
    ensures Join(Lines(t, n)) == t[..n]
  {
    if n > 0 {
      JoinLines(t, n - 1);
      JoinStep(Lines(t, n - 1), t[n - 1]);
      assert t[..n] == t[..n - 1] + [t[n - 1]];
    }
  }

  /** Joining the lines of a text gives the text back. */
  lemma JoinSplit(t: string)
    ensures Join(Split(t)) == t
  {
    JoinLines(t, |t|);
  }

  /** A step on lines written as a front and a last line. */
  lemma StepLast(front: seq<string>, x: string, c: char)
    ensures Step(front + [x], c) == if c == '\n' then front + [x, ""] else front + [x + [c]]
  {
    assert (front + [x])[..|front|] == front;
  }

  /** Text without newlines after `t` extends the last line of `t`. */
  lemma {:induction false} LinesAppendPlain(t: string, l: string, k: nat, front: seq<string>, x: string)
    requires NoNewline(l) && k <= |l|
    requires Split(t) == front + [x]
    ensures Lines(t + l, |t| + k) == front + [x + l[..k]]
  {
    if k == 0 {
      LinesPrefix(t, t + l, |t|);
      assert x + l[..0] == x;
    } else {
      LinesAppendPlain(t, l, k - 1, front, x);
      assert (t + l)[|t| + k - 1] == l[k - 1];
      StepLast(front, x + l[..k - 1], l[k - 1]);
      assert x + l[..k - 1] + [l[k - 1]] == x + l[..k];
    }
  }

  /** A newline after a text opens a new, empty line. */
  lemma SplitNewline(j: string)
    ensures Split(j + "\n") == Split(j) + [""]
  {
    var t := j + "\n";
    LinesPrefix(j, t, |j|);
    assert Lines(t, |t|) == Step(Lines(t, |j|), '\n');
  }

  /** Splitting joined lines that hold no newline gives those lines back. */
  lemma {:induction false} SplitJoin(ls: seq<string>)
    requires |ls| >= 1 && forall k | 0 <= k < |ls| :: NoNewline(ls[k])
    ensures Split(Join(ls)) == ls
    decreases |ls|
  {
    var l := ls[|ls| - 1];
    if |ls| == 1 {
      LinesAppendPlain("", l, |l|, [], "");
      assert "" + l == l && l[..|l|] == l;
    } else {
      var pre := ls[..|ls| - 1];
      SplitJoin(pre);
      var t := Join(pre) + "\n";
      SplitNewline(Join(pre));
      LinesAppendPlain(t, l, |l|, pre, "");
      assert "" + l[..|l|] == l;
      assert Join(ls) == t + l;
      assert ls == pre + [l];
    }
  }

  /** Text joined from two runs of lines without newlines and a last empty
      line splits back into those lines. */
  lemma SplitJoinTwo(t: string, a: seq<string>, b: seq<string>)
    requires forall k | 0 <= k < |a| :: NoNewline(a[k])
    requires forall k | 0 <= k < |b| :: NoNewline(b[k])
    requires t == Join(a + b + [""])
    ensures Split(t) == a + b + [""]
  {
    var ls := a + b + [""];
    forall k | 0 <= k < |ls|
      ensures NoNewline(ls[k])
    {
      if k < |a| {
        assert ls[k] == a[k];
      } else if k < |a| + |b| {
        assert ls[k] == b[k - |a|];
      }
    }
    SplitJoin(ls);
  }

  /** The first loop of `parse_lines`: copies the text into a buffer one
      longer (calloc'ed, so the extra byte is NUL), turning newlines into
      NUL and counting lines. Whether the text holds a NUL byte of its own
      is recorded alongside. */
  method Translate(text: string) returns (buffer: string, count: nat, defined: bool)
    ensures |buffer| == |text| + 1 && buffer[|text|] == '\0'
    ensures forall i | 0 <= i < |text| :: buffer[i] == (if text[i] == '\n' then '\0' else text[i])
    ensures count == |Split(text)|
    ensures defined <==> NoNul(text)
  {
    buffer := [];
    count := 1;
    defined := true;
    var i := 0;
    while i < |text|
      invariant 0 <= i <= |text| && |buffer| == i
      invariant forall j | 0 <= j < i :: buffer[j] == (if text[j] == '\n' then '\0' else text[j])
      invariant count == |Lines(text, i)|
      invariant defined <==> forall j | 0 <= j < i :: text[j] != '\0'
    {
      if text[i] == '\0' {
        defined := false;
      }
      if text[i] == '\n' {
        count := count + 1;
        buffer := buffer + ['\0'];
      } else {
        buffer := buffer + [text[i]];
      }
      i := i + 1;
    }
    buffer := buffer + ['\0'];
  }

  /** Reading a line at `start` of `buffer` as a C string gives `line`: its
      characters are there, none of them NUL, and a NUL follows. */
  predicate CStringAt(buffer: string, start: nat, line: string) {
    && start + |line| < |buffer|
    && buffer[start..start + |line|] == line
    && buffer[start + |line|] == '\0'
    && NoNul(line)
  }

  /** Every line recorded so far is the C string at its start, and ends
      before `last`. */
  predicate Recorded(buffer: string, starts: seq<nat>, lines: seq<string>, last: nat) {
    && |starts| == |lines| + 1
    && forall k | 0 <= k < |lines| :: CStringAt(buffer, starts[k], lines[k]) && starts[k] + |lines[k]| < last
  }

  /** Recording the line that ends at a NUL at `i` keeps the record. */
  lemma RecordLine(buffer: string, starts: seq<nat>, lines: seq<string>, last: nat, i: nat, line: string)
    requires Recorded(buffer, starts, lines, last) && last <= i
    requires CStringAt(buffer, starts[|lines|], line) && starts[|lines|] + |line| == i
    ensures Recorded(buffer, starts + [i + 1], lines + [line], i + 1)
  {
    var s', l' := starts + [i + 1], lines + [line];
    forall k | 0 <= k < |l'|
      ensures CStringAt(buffer, s'[k], l'[k]) && s'[k] + |l'[k]| < i + 1
    {
      if k < |lines| {
        assert s'[k] == starts[k] && l'[k] == lines[k];
      }
    }
  }

  /** The buffer `parse_lines` builds from `text`: a copy with every
      newline turned into NUL, and one more NUL at the end. */
  predicate BufferOf(text: string, buffer: string) {
    && |buffer| == |text| + 1 && buffer[|text|] == '\0'
    && forall i | 0 <= i < |text| :: buffer[i] == (if text[i] == '\n' then '\0' else text[i])
  }

  /** The state of the second loop of `parse_lines` at offset `i`: the
      lines closed so far are recorded, and the current line started at
      `last`. */
  predicate Scanning(text: string, buffer: string, starts: seq<nat>, lines: seq<string>, last: nat, i: nat) {
    && last <= i <= |text|
    && Recorded(buffer, starts, lines, last) && starts[|lines|] == last
    && lines + [text[last..i]] == Lines(text, i)
    && forall j | last <= j < i :: text[j] != '\n'
  }

  /** One character of the second loop: a NUL closes the current line and
      records the start of the next; anything else extends the line. */
  lemma ScanChar(text: string, buffer: string, starts: seq<nat>, lines: seq<string>, last: nat, i: nat)
    requires NoNul(text) && BufferOf(text, buffer)
    requires Scanning(text, buffer, starts, lines, last, i) && i < |text|
    ensures buffer[i] == '\0' ==> Scanning(text, buffer, starts + [i + 1], lines + [text[last..i]], i + 1, i + 1)
    ensures buffer[i] != '\0' ==> Scanning(text, buffer, starts, lines, last, i + 1)
  {
    SplitNext(text, i, lines, last);
    if buffer[i] == '\0' {
      NewLineCString(text, buffer, last, i);
      RecordLine(buffer, starts, lines, last, i, text[last..i]);
    }
  }

  /** The second loop of `parse_lines`, on a text without NUL bytes: a line
      starts at offset 0 and after every NUL of the buffer, and the C string
      at each start is the corresponding line of the text. */
  method FindStarts(text: string, buffer: string) returns (starts: seq<nat>, lines: seq<string>)
    requires NoNul(text) && BufferOf(text, buffer)
    ensures lines == Split(text) && |starts| == |lines|
    ensures forall k | 0 <= k < |lines| :: CStringAt(buffer, starts[k], lines[k])
  {
    starts := [0];
    lines := [];
    var last := 0;
    var i := 0;
    while i < |text|
      invariant Scanning(text, buffer, starts, lines, last, i)
      decreases |text| - i
    {
      ScanChar(text, buffer, starts, lines, last, i);
      if buffer[i] == '\0' {
        lines := lines + [text[last..i]];
        starts := starts + [i + 1];
        last := i + 1;
      }
      i := i + 1;
    }
    NewLineCString(text, buffer, last, i);
    assert text[last..i] == text[last..];
    RecordLine(buffer, starts, lines, last, i, text[last..]);
    lines := lines + [text[last..]];
    starts := starts + [i + 1];
    // The record ends with the start the terminating NUL would open; the
    // source never stores it, since it only records starts after NULs
    // inside the text.
    starts := starts[..|lines|];
  }

  /** One more character of text either closes the current line or extends
      it. */
  lemma SplitNext(t: string, i: nat, lines: seq<string>, last: nat)
    requires last <= i < |t| && lines + [t[last..i]] == Lines(t, i)
    ensures t[i] == '\n' ==> lines + [t[last..i]] + [t[i + 1..i + 1]] == Lines(t, i + 1)
    ensures t[i] != '\n' ==> lines + [t[last..i + 1]] == Lines(t, i + 1)
  {
    assert t[last..i + 1] == t[last..i] + [t[i]];
    assert t[i + 1..i + 1] == "";
    StepLast(lines, t[last..i], t[i]);
  }

  /** A stretch of text without newlines, followed by a newline or the end
      of the text, is a C string of the buffer. */
  lemma NewLineCString(text: string, buffer: string, last: nat, i: nat)
    requires NoNul(text) && BufferOf(text, buffer)
    requires last <= i <= |text| && buffer[i] == '\0'
    requires forall j | last <= j < i :: text[j] != '\n'
    ensures CStringAt(buffer, last, text[last..i])
  {
    assert buffer[last..i] == text[last..i];
  }

  /** `parse_lines` on a file holding `text`: the buffer, the line count,
      and the start of each line in the buffer with the C string found
      there. A NUL byte in the text would make the second loop record more
      starts than the line count has room for: `defined` is false exactly
      then, and nothing is said of the starts. */
  method ParseLines(text: string) returns (buffer: string, count: nat, starts: seq<nat>, lines: seq<string>, defined: bool)
    ensures |buffer| == |text| + 1 && buffer[|text|] == '\0'
    ensures forall i | 0 <= i < |text| :: buffer[i] == (if text[i] == '\n' then '\0' else text[i])
    ensures count == |Split(text)|
    ensures defined <==> NoNul(text)
    ensures defined ==> lines == Split(text) && |starts| == count
    ensures defined ==> forall k | 0 <= k < |lines| :: CStringAt(buffer, starts[k], lines[k])
  {
    buffer, count, defined := Translate(text);
    starts, lines := [0], [];
    if defined {
      starts, lines := FindStarts(text, buffer);
    }
  }
}
