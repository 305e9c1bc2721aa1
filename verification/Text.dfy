/** Trimming and splitting of text. */
module Text {

  /** The characters that `trim` removes. */
  predicate IsSpace(c: char) {
    var n := c as int;
    || 9 <= n <= 13 || n == 0x20 || n == 0xA0 || n == 0x1680 || 0x2000 <= n <= 0x200A
    || n == 0x2028 || n == 0x2029 || n == 0x202F || n == 0x205F || n == 0x3000 || n == 0xFEFF
  }

  function TrimStart(s: string): string {
    if s != "" && IsSpace(s[0]) then TrimStart(s[1..]) else s
  }

  function TrimEnd(s: string): string {
    if s != "" && IsSpace(s[|s| - 1]) then TrimEnd(s[..|s| - 1]) else s
  }

  function Trim(s: string): string {
    TrimEnd(TrimStart(s))
  }

  /** The finished lines of `text`: what splitting at newlines gives, but for the last piece. */
  function Lines(text: string): seq<string> {
    if text == "" then []
    else
      var last := |text| - 1;
      if text[last] == '\n' then Lines(text[..last]) + [Unfinished(text[..last])] else Lines(text[..last])
  }

  /** The last piece: what follows the last newline. */
  function Unfinished(text: string): (rest: string)
    ensures '\n' !in rest
  {
    if text == "" then ""
    else
      var last := |text| - 1;
      if text[last] == '\n' then "" else Unfinished(text[..last]) + [text[last]]
  }

  lemma {:induction false} SplitAppend(a: string, b: string)
    ensures Lines(a + b) == Lines(a) + Lines(Unfinished(a) + b)
    ensures Unfinished(a + b) == Unfinished(Unfinished(a) + b)
  {
    if b == "" {
      assert a + b == a && Unfinished(a) + b == Unfinished(a);
      NoNewline(Unfinished(a));
    } else {
      var last := |b| - 1;
      assert (a + b)[..|a + b| - 1] == a + b[..last];
      var rest := Unfinished(a) + b;
      assert rest[..|rest| - 1] == Unfinished(a) + b[..last];
      SplitAppend(a, b[..last]);
    }
  }

  lemma {:induction false} NoNewline(text: string)
    requires '\n' !in text
    ensures Lines(text) == [] && Unfinished(text) == text
  {
    if text != "" {
      NoNewline(text[..|text| - 1]);
    }
  }

  lemma FirstLine(line: string, rest: string)
    requires '\n' !in line
    ensures Lines(line + "\n" + rest) == [line] + Lines(rest)
  {
    var head := line + "\n";
    assert head[..|head| - 1] == line;
    NoNewline(line);
    SplitAppend(head, rest);
    assert "" + rest == rest;
  }

  /** The lines with a newline between each two. */
  function JoinLines(lines: seq<string>): string {
    if lines == [] then "" else if |lines| == 1 then lines[0] else lines[0] + "\n" + JoinLines(lines[1..])
  }

  lemma {:induction false} LinesNoNewline(text: string)
    ensures forall line | line in Lines(text) :: '\n' !in line
  {
    if text != "" {
      LinesNoNewline(text[..|text| - 1]);
    }
  }

  lemma {:induction false} TrimStartKeepsOut(s: string, c: char)
    requires c !in s
    ensures c !in TrimStart(s)
  {
    if s != "" {
      TrimStartKeepsOut(s[1..], c);
    }
  }

  lemma {:induction false} TrimEndKeepsOut(s: string, c: char)
    requires c !in s
    ensures c !in TrimEnd(s)
  {
    if s != "" {
      TrimEndKeepsOut(s[..|s| - 1], c);
    }
  }

  lemma TrimKeepsOut(s: string, c: char)
    requires c !in s
    ensures c !in Trim(s)
  {
    TrimStartKeepsOut(s, c);
    TrimEndKeepsOut(TrimStart(s), c);
  }

  /** No space at either end. */
  predicate Trimmed(s: string) { s == "" || (!IsSpace(s[0]) && !IsSpace(s[|s| - 1])) }

  lemma {:induction false} TrimEndOf(s: string)
    ensures TrimEnd(s) <= s && (TrimEnd(s) != "" ==> !IsSpace(TrimEnd(s)[|TrimEnd(s)| - 1]))
    ensures s != "" && !IsSpace(s[|s| - 1]) ==> TrimEnd(s) == s
  {
    if s != "" && IsSpace(s[|s| - 1]) {
      TrimEndOf(s[..|s| - 1]);
    }
  }

  lemma {:induction false} TrimStartOf(s: string)
    ensures |TrimStart(s)| <= |s| && (TrimStart(s) != "" ==> !IsSpace(TrimStart(s)[0]))
    ensures s != "" && !IsSpace(s[0]) ==> TrimStart(s) == s
  {
    if s != "" && IsSpace(s[0]) {
      TrimStartOf(s[1..]);
    }
  }

  lemma TrimOf(s: string)
    ensures Trimmed(Trim(s)) && |Trim(s)| <= |s|
    ensures Trim(s) == s <==> Trimmed(s)
  {
    TrimStartOf(s);
    TrimEndOf(TrimStart(s));
    TrimEndOf(s);
  }

  lemma {:induction false} TrimStartBefore(s: string, c: char)
    requires IsSpace(c)
    ensures TrimStart(s + [c]) == if TrimStart(s) == "" then "" else TrimStart(s) + [c]
  {
    if s == "" {
      assert s + [c] == [c] && [c][1..] == "";
    } else {
      assert (s + [c])[1..] == s[1..] + [c];
      TrimStartBefore(s[1..], c);
    }
  }

  /** A space at an end is trimmed. */
  lemma TrimPast(s: string, c: char)
    requires IsSpace(c)
    ensures Trim(s + [c]) == Trim(s) && Trim([c] + s) == Trim(s)
  {
    TrimStartBefore(s, c);
    assert ([c] + s)[1..] == s;
    var start := TrimStart(s);
    assert (start + [c])[..|start|] == start;
  }

  lemma TrimmedAppend(a: string, b: string)
    requires Trimmed(a) && Trimmed(b)
    ensures Trimmed(a + b)
  {
    assert a == "" ==> a + b == b;
    assert b == "" ==> a + b == a;
  }

  lemma JoinSnoc(lines: seq<string>, line: string)
    requires lines != []
    ensures JoinLines(lines + [line]) == JoinLines(lines) + "\n" + line
    decreases lines
  {
    var all := lines + [line];
    assert all[1..] == lines[1..] + [line];
    if |lines| > 1 {
      JoinSnoc(lines[1..], line);
      assert JoinLines(all) == lines[0] + "\n" + (JoinLines(lines[1..]) + "\n" + line);
    } else {
      assert all[1..] == [line];
    }
  }

  lemma JoinLonger(before: seq<string>, last: string, c: char)
    ensures JoinLines(before + [last + [c]]) == JoinLines(before + [last]) + [c]
  {
    if before == [] {
      assert before + [last + [c]] == [last + [c]] && before + [last] == [last];
    } else {
      JoinSnoc(before, last + [c]);
      JoinSnoc(before, last);
      assert JoinLines(before) + "\n" + (last + [c]) == JoinLines(before) + "\n" + last + [c];
    }
  }

  /** Splitting a text at its newlines and joining the pieces gives the text back. */
  lemma {:induction false} JoinSplit(text: string)
    ensures JoinLines(Lines(text) + [Unfinished(text)]) == text
  {
    if text != "" {
      var last := |text| - 1;
      var less := text[..last];
      JoinSplit(less);
      var pieces := Lines(less) + [Unfinished(less)];
      assert text == less + [text[last]];
      if text[last] == '\n' {
        JoinSnoc(pieces, "");
        assert text == less + "\n" + "";
      } else {
        JoinLonger(Lines(less), Unfinished(less), text[last]);
      }
    }
  }

  /** Trimming takes off spaces at the ends and nothing else. */
  lemma TrimCuts(s: string) returns (i: nat, j: nat)
    ensures i <= j <= |s| && Trim(s) == s[i..j] && Trimmed(Trim(s))
    ensures forall k | 0 <= k < |s| && !(i <= k < j) :: IsSpace(s[k])
  {
    TrimOf(s);
    i := StartCut(s);
    var n := EndCut(TrimStart(s));
    j := i + n;
    assert TrimStart(s)[..n] == s[i..j];
    forall k | j <= k < |s| ensures IsSpace(s[k]) {
      assert TrimStart(s)[k - i] == s[k];
    }
  }

  lemma {:induction false} StartCut(s: string) returns (i: nat)
    ensures i <= |s| && TrimStart(s) == s[i..] && forall k | 0 <= k < i :: IsSpace(s[k])
  {
    if s != "" && IsSpace(s[0]) {
      var n := StartCut(s[1..]);
      i := n + 1;
      forall k | 0 <= k < i ensures IsSpace(s[k]) {
        assert k > 0 ==> s[k] == s[1..][k - 1];
      }
    } else {
      i := 0;
    }
  }

  lemma {:induction false} EndCut(s: string) returns (n: nat)
    ensures n <= |s| && TrimEnd(s) == s[..n] && forall k | n <= k < |s| :: IsSpace(s[k])
  {
    if s != "" && IsSpace(s[|s| - 1]) {
      n := EndCut(s[..|s| - 1]);
      assert s[..|s| - 1][..n] == s[..n];
    } else {
      n := |s|;
    }
  }
}
