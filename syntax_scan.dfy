/**
 * The bracket checker script: one pass over a source text that counts
 * braces, parentheses and brackets outside string literals and comments,
 * remembers where each open brace is, and stops at the first closing
 * character that has no opening partner.  `Step` is what one turn of the
 * scanning loop does; `Scan` is the loop itself.
 */
module SyntaxScan {
  import opened Wrappers

  /** A line and column, as the script counts them. */
  datatype Pos = Pos(line: int, col: int)

  /** The scanner's variables; `prev` is `''` (None) or one character. */
  datatype State = State(
    line: int, col: int,
    brace: int, paren: int, bracket: int,
    inSingle: bool, inDouble: bool, inBack: bool,
    inLine: bool, inBlock: bool,
    prev: Option<char>,
    stack: seq<Pos>)

  const Start := State(1, 0, 0, 0, 0, false, false, false, false, false, None, [])

  predicate InString(s: State) {
    s.inSingle || s.inDouble || s.inBack
  }

  predicate InComment(s: State) {
    s.inLine || s.inBlock
  }

  predicate Negative(s: State) {
    s.brace < 0 || s.paren < 0 || s.bracket < 0
  }

  /** The counters and the brace stack, the part of the state strings and
      comments must leave alone. */
  function Counters(s: State): (int, int, int, seq<Pos>) {
    (s.brace, s.paren, s.bracket, s.stack)
  }

  /** A character outside strings and comments: the counter it names moves
      by one; an open brace pushes its position and a close brace pops the
      last one (nothing, when there is none). */
  function Code(s: State, ch: char): State {
    var s1 := if ch == '{' then s.(brace := s.brace + 1, stack := s.stack + [Pos(s.line, s.col)])
              else if ch == '}' then s.(brace := s.brace - 1, stack := if s.stack == [] then [] else s.stack[..|s.stack| - 1])
              else s;
    var s2 := if ch == '(' then s1.(paren := s1.paren + 1) else if ch == ')' then s1.(paren := s1.paren - 1) else s1;
    if ch == '[' then s2.(bracket := s2.bracket + 1) else if ch == ']' then s2.(bracket := s2.bracket - 1) else s2
  }

  /** One turn of the loop at `src[i]`: the new state and the index the
      next turn reads (two on, after the opening of a comment). */
  function Step(src: string, i: nat, s: State): (State, nat)
    requires i < |src|
  {
    var ch := src[i];
    var s1 := if ch == '\n' then s.(line := s.line + 1, col := 0, inLine := false) else s;
    var t := s1.(col := s1.col + 1);
    if t.inLine then (t.(prev := Some(ch)), i + 1)
    else if t.inBlock then (t.(inBlock := !(t.prev == Some('*') && ch == '/'), prev := Some(ch)), i + 1)
    else if !InString(t) && ch == '/' && i + 1 < |src| && src[i + 1] == '/' then (t.(inLine := true, prev := None), i + 2)
    else if !InString(t) && ch == '/' && i + 1 < |src| && src[i + 1] == '*' then (t.(inBlock := true, prev := None), i + 2)
    else if !t.inSingle && !t.inDouble && ch == '`' && !t.inBack then (t.(inBack := true, prev := Some(ch)), i + 1)
    else if t.inBack && ch == '`' && t.prev != Some('\\') then (t.(inBack := false, prev := Some(ch)), i + 1)
    else if !t.inBack && !t.inDouble && ch == '\'' && !t.inSingle then (t.(inSingle := true, prev := Some(ch)), i + 1)
    else if t.inSingle && ch == '\'' && t.prev != Some('\\') then (t.(inSingle := false, prev := Some(ch)), i + 1)
    else if !t.inBack && !t.inSingle && ch == '"' && !t.inDouble then (t.(inDouble := true, prev := Some(ch)), i + 1)
    else if t.inDouble && ch == '"' && t.prev != Some('\\') then (t.(inDouble := false, prev := Some(ch)), i + 1)
    else if InString(t) then (t.(prev := Some(ch)), i + 1)
    else (Code(t, ch), i + 1)
  }

  /** How a scan ends: the state, the index it reached and whether it
      stopped at a counter gone negative. */
  datatype Outcome = Outcome(st: State, end: nat, stopped: bool)

  /** The loop from index `i` on. */
  function Run(src: string, i: nat, s: State): Outcome
    decreases |src| - i
  {
    if i >= |src| then Outcome(s, i, false)
    else
      var (s2, j) := Step(src, i, s);
      if Negative(s2) then Outcome(s2, j, true) else Run(src, j, s2)
  }

  /** The scanning loop of the script, over the text already read. */
  method Scan(src: string) returns (r: Outcome)
    ensures r == Run(src, 0, Start)
  {
    var s := Start;
    var i: nat := 0;
    while i < |src|
      invariant Run(src, i, s) == Run(src, 0, Start)
      decreases |src| - i
    {
      var t, j := Turn(src, i, s);
      if Negative(t) {
        return Outcome(t, j, true);
      }
      s, i := t, j;
    }
    r := Outcome(s, i, false);
  }

  /** The body of the loop at `src[i]`. */
  method Turn(src: string, i: nat, s0: State) returns (s: State, j: nat)
    requires i < |src|
    ensures (s, j) == Step(src, i, s0)
  {
    s, j := s0, i + 1;
    var ch := src[i];
    if ch == '\n' {
      s := s.(line := s.line + 1, col := 0, inLine := false);
    }
    s := s.(col := s.col + 1);
    if s.inLine {
      s := s.(prev := Some(ch));
    } else if s.inBlock {
      if s.prev == Some('*') && ch == '/' {
        s := s.(inBlock := false);
      }
      s := s.(prev := Some(ch));
    } else if !InString(s) && ch == '/' && i + 1 < |src| && src[i + 1] == '/' {
      s, j := s.(inLine := true, prev := None), i + 2;
    } else if !InString(s) && ch == '/' && i + 1 < |src| && src[i + 1] == '*' {
      s, j := s.(inBlock := true, prev := None), i + 2;
    } else if !s.inSingle && !s.inDouble && ch == '`' && !s.inBack {
      s := s.(inBack := true, prev := Some(ch));
    } else if s.inBack && ch == '`' && s.prev != Some('\\') {
      s := s.(inBack := false, prev := Some(ch));
    } else if !s.inBack && !s.inDouble && ch == '\'' && !s.inSingle {
      s := s.(inSingle := true, prev := Some(ch));
    } else if s.inSingle && ch == '\'' && s.prev != Some('\\') {
      s := s.(inSingle := false, prev := Some(ch));
    } else if !s.inBack && !s.inSingle && ch == '"' && !s.inDouble {
      s := s.(inDouble := true, prev := Some(ch));
    } else if s.inDouble && ch == '"' && s.prev != Some('\\') {
      s := s.(inDouble := false, prev := Some(ch));
    } else if InString(s) {
      s := s.(prev := Some(ch));
    } else {
      s := CountCode(s, ch);
    }
  }

  /** The counting part of the loop body, for a character outside strings
      and comments. */
  method CountCode(s0: State, ch: char) returns (s: State)
    ensures s == Code(s0, ch)
  {
    s := s0;
    if ch == '{' {
      s := s.(brace := s.brace + 1, stack := s.stack + [Pos(s.line, s.col)]);
    }
    if ch == '}' {
      s := s.(brace := s.brace - 1);
      if s.stack != [] {
        s := s.(stack := s.stack[..|s.stack| - 1]);
      }
    }
    if ch == '(' { s := s.(paren := s.paren + 1); }
    if ch == ')' { s := s.(paren := s.paren - 1); }
    if ch == '[' { s := s.(bracket := s.bracket + 1); }
    if ch == ']' { s := s.(bracket := s.bracket - 1); }
  }

  /** The open brace the script reports at the end, when one is left. */
  function LastUnmatched(s: State): Option<Pos> {
    if s.brace > 0 && |s.stack| > 0 then Some(s.stack[|s.stack| - 1]) else None
  }

  // ------------------------------------------------------------ properties

  /** While the brace count is not negative the stack holds one position
      per open brace. */
  predicate StackMatches(s: State) {
    s.brace >= 0 ==> |s.stack| == s.brace
  }

  /** A state the loop can be in at the top of a turn. */
  predicate Running(s: State) {
    !Negative(s) && |s.stack| == s.brace
  }

  lemma StepKeepsStack(src: string, i: nat, s: State)
    requires i < |src| && Running(s)
    ensures StackMatches(Step(src, i, s).0)
    ensures !Negative(Step(src, i, s).0) ==> Running(Step(src, i, s).0)
  {
  }

  /** Every state the scan ends in keeps the stack in step with the brace
      count; the scan stops exactly when a counter is negative, and
      otherwise reads the whole text; the open brace reported at the end is
      the last one pushed, and there is one exactly when braces are open. */
  lemma {:induction false} RunResult(src: string, i: nat, s: State)
    requires Running(s)
    ensures var r := Run(src, i, s);
            StackMatches(r.st)
            && (r.stopped <==> Negative(r.st))
            && (!r.stopped ==> r.end >= |src|)
            && (!r.stopped ==> (LastUnmatched(r.st).Some? <==> r.st.brace > 0))
    decreases |src| - i
  {
    if i < |src| {
      var (s2, j) := Step(src, i, s);
      StepKeepsStack(src, i, s);
      if !Negative(s2) {
        RunResult(src, j, s2);
      }
    }
  }

  /** The scan of the whole text, from the script's starting values. */
  lemma ScanResult(src: string)
    ensures var r := Run(src, 0, Start);
            StackMatches(r.st)
            && (r.stopped <==> Negative(r.st))
            && (!r.stopped ==> r.end >= |src| && r.st.brace >= 0 && r.st.paren >= 0 && r.st.bracket >= 0)
            && (!r.stopped ==> (LastUnmatched(r.st).Some? <==> r.st.brace > 0))
  {
    RunResult(src, 0, Start);
  }

  /** A character read inside a string literal or a comment leaves the
      counters and the brace stack as they were; so does any character
      that is not one of the six the script counts. */
  lemma QuotedCharsKeepCounters(src: string, i: nat, s: State)
    requires i < |src|
    requires InString(s) || InComment(s) || src[i] !in "{}()[]"
    ensures Counters(Step(src, i, s).0) == Counters(s)
  {
    assert (src[i] != '{' && src[i] != '}' && src[i] != '(' && src[i] != ')' && src[i] != '[' && src[i] != ']')
      || InString(s) || InComment(s);
  }

  /** A quote closes its string only when the character before it is not
      a backslash; a backslash before it keeps the string open. */
  lemma EscapedQuoteKeepsString(src: string, i: nat, s: State)
    requires i < |src| && !InComment(s)
    ensures s.inDouble && src[i] == '"' ==> (Step(src, i, s).0.inDouble <==> s.prev == Some('\\'))
    ensures s.inSingle && src[i] == '\'' ==> (Step(src, i, s).0.inSingle <==> s.prev == Some('\\'))
    ensures s.inBack && src[i] == '`' ==> (Step(src, i, s).0.inBack <==> s.prev == Some('\\'))
  {
  }

  /** A line comment ends at the next newline; a block comment ends at the
      '/' of a '*' '/' pair and not before. */
  lemma CommentsEnd(src: string, i: nat, s: State)
    requires i < |src|
    ensures s.inLine && src[i] == '\n' ==> !Step(src, i, s).0.inLine
    ensures s.inLine && src[i] != '\n' ==> Step(src, i, s).0.inLine
    ensures !s.inLine && s.inBlock ==> (Step(src, i, s).0.inBlock <==> !(s.prev == Some('*') && src[i] == '/'))
  {
  }

  /** The number of newlines in a text. */
  function Newlines(t: string): nat
    decreases |t|
  {
    if t == [] then 0 else (if t[0] == '\n' then 1 else 0) + Newlines(t[1..])
  }

  lemma {:induction false} NewlinesAppend(a: string, b: string)
    ensures Newlines(a + b) == Newlines(a) + Newlines(b)
    decreases |a|
  {
    if a != [] {
      NewlinesAppend(a[1..], b);
      assert (a + b)[0] == a[0] && (a + b)[1..] == a[1..] + b;
    } else {
      assert a + b == b;
    }
  }

  /** One turn adds one line exactly when it reads a newline: the
      character a comment opening skips is never one. */
  lemma StepCountsLines(src: string, i: nat, s: State)
    requires i < |src|
    ensures var (s2, j) := Step(src, i, s);
            i < j <= |src| && s2.line == s.line + Newlines(src[i..j])
  {
    var (s2, j) := Step(src, i, s);
    var w := src[i..j];
    assert w[0] == src[i] && w[1..] == src[i + 1..j];
    if j == i + 2 {
      var w1 := w[1..];
      assert w1[0] == src[i + 1] != '\n' && w1[1..] == [];
      assert src[i] == '/' && Newlines(w1) == 0;
      assert Newlines(w) == 0;
    } else {
      assert w[1..] == [];
    }
  }

  /** The line the scan ends on is one more than the number of newlines
      read. */
  lemma {:induction false} RunCountsLines(src: string, i: nat, s: State)
    requires i <= |src|
    ensures var r := Run(src, i, s);
            i <= r.end <= |src| && r.st.line == s.line + Newlines(src[i..r.end])
    decreases |src| - i
  {
    if i < |src| {
      var (s2, j) := Step(src, i, s);
      StepCountsLines(src, i, s);
      if !Negative(s2) {
        RunCountsLines(src, j, s2);
        var r := Run(src, j, s2);
        assert src[i..r.end] == src[i..j] + src[j..r.end];
        NewlinesAppend(src[i..j], src[j..r.end]);
      }
    } else {
      assert src[i..i] == [];
    }
  }
}
