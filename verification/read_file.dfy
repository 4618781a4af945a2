/** Reading a file line by line and splitting each line into words. */
module ReadFiles {

  predicate IsBlank(c: char) {
    c == ' ' || c == '\t' || c == '\n' || c == '\r' || c == '\U{000B}' || c == '\U{000C}'
  }

  /** The space and the five control characters from tab to carriage return. */
  lemma BlankExactly(c: char)
    ensures IsBlank(c) <==> c as int == 32 || 9 <= c as int <= 13
  {
  }

  // ---------------------------------------------------------------- words

  /** The first position from `i` on that is not blank. */
  function SkipBlanks(line: string, i: nat): (s: nat)
    requires i <= |line|
    ensures i <= s <= |line| && (s < |line| ==> !IsBlank(line[s]))
    ensures forall p :: i <= p < s ==> IsBlank(line[p])
    decreases |line| - i
  {
    if i < |line| && IsBlank(line[i]) then SkipBlanks(line, i + 1) else i
  }

  /** The first position from `i` on that is blank. */
  function RunEnd(line: string, i: nat): (e: nat)
    requires i <= |line|
    ensures i <= e <= |line| && (e < |line| ==> IsBlank(line[e]))
    ensures forall p :: i <= p < e ==> !IsBlank(line[p])
    decreases |line| - i
  {
    if i < |line| && !IsBlank(line[i]) then RunEnd(line, i + 1) else i
  }

  function Runs(line: string, i: nat): seq<(nat, nat)>
    requires i <= |line|
    decreases |line| - i
  {
    var s := SkipBlanks(line, i);
    if s == |line| then [] else [(s, RunEnd(line, s))] + Runs(line, RunEnd(line, s))
  }

  function Words(line: string, i: nat): seq<string>
    requires i <= |line|
    decreases |line| - i
  {
    var s := SkipBlanks(line, i);
    if s == |line| then [] else [line[s..RunEnd(line, s)]] + Words(line, RunEnd(line, s))
  }

  /** What one line yields: its words, and an empty word after trailing blanks. */
  function Tokens(line: string): seq<string> {
    Words(line, 0) + if line == "" || IsBlank(line[|line| - 1]) then [""] else []
  }

  /** A stretch without blanks that cannot be extended to either side, within the line from `i` on. */
  ghost predicate MaximalRun(line: string, i: nat, run: (nat, nat)) {
    && i <= run.0 < run.1 <= |line|
    && (run.0 == i || IsBlank(line[run.0 - 1]))
    && (run.1 == |line| || IsBlank(line[run.1]))
    && forall p :: run.0 <= p < run.1 ==> !IsBlank(line[p])
  }

  ghost predicate Covered(runs: seq<(nat, nat)>, p: nat) {
    exists k :: 0 <= k < |runs| && runs[k].0 <= p < runs[k].1
  }

  /** From `i` on, `runs` are the maximal stretches without blanks, all of them, in order. */
  ghost predicate MaximalRuns(line: string, i: nat, runs: seq<(nat, nat)>) {
    && (forall k :: 0 <= k < |runs| ==> MaximalRun(line, i, runs[k]))
    && (forall j, k :: 0 <= j < k < |runs| ==> runs[j].1 < runs[k].0)
    && (forall p :: i <= p < |line| && !IsBlank(line[p]) ==> Covered(runs, p))
  }

  lemma CoverMore(run: (nat, nat), rest: seq<(nat, nat)>, p: nat)
    requires Covered(rest, p)
    ensures Covered([run] + rest, p)
  {
    var k :| 0 <= k < |rest| && rest[k].0 <= p < rest[k].1;
    assert ([run] + rest)[k + 1] == rest[k];
  }

  lemma PrependRun(line: string, i: nat, rest: seq<(nat, nat)>)
    requires i <= |line| && SkipBlanks(line, i) < |line|
    requires MaximalRuns(line, RunEnd(line, SkipBlanks(line, i)), rest)
    ensures MaximalRuns(line, i, [(SkipBlanks(line, i), RunEnd(line, SkipBlanks(line, i)))] + rest)
  {
    var s := SkipBlanks(line, i);
    var e := RunEnd(line, s);
    var runs := [(s, e)] + rest;
    assert MaximalRun(line, i, (s, e));
    forall k | 0 <= k < |rest| ensures e < rest[k].0 && MaximalRun(line, i, rest[k]) {
      assert MaximalRun(line, e, rest[k]);
      assert e < |line| && !IsBlank(line[rest[k].0]);
    }
    forall p | i <= p < |line| && !IsBlank(line[p]) ensures Covered(runs, p) {
      if p < e {
        assert runs[0].0 <= p < runs[0].1;
      } else {
        CoverMore((s, e), rest, p);
      }
    }
  }

  lemma {:induction false} RunsAreMaximal(line: string, i: nat)
    requires i <= |line|
    ensures MaximalRuns(line, i, Runs(line, i))
    decreases |line| - i
  {
    var s := SkipBlanks(line, i);
    if s < |line| {
      RunsAreMaximal(line, RunEnd(line, s));
      PrependRun(line, i, Runs(line, RunEnd(line, s)));
    }
  }

  lemma {:induction false} WordsAreTheRuns(line: string, i: nat)
    requires i <= |line|
    ensures |Words(line, i)| == |Runs(line, i)|
    ensures forall k :: 0 <= k < |Runs(line, i)| ==>
              && 0 <= Runs(line, i)[k].0 <= Runs(line, i)[k].1 <= |line|
              && Words(line, i)[k] == line[Runs(line, i)[k].0..Runs(line, i)[k].1]
    decreases |line| - i
  {
    var s := SkipBlanks(line, i);
    if s < |line| {
      WordsAreTheRuns(line, RunEnd(line, s));
    }
  }

  lemma FirstRun(line: string, i: nat, runs: seq<(nat, nat)>)
    requires i <= |line| && MaximalRuns(line, i, runs)
    ensures runs == [] <==> SkipBlanks(line, i) == |line|
    ensures runs != [] ==> runs[0] == (SkipBlanks(line, i), RunEnd(line, SkipBlanks(line, i)))
  {
    var s := SkipBlanks(line, i);
    assert s < |line| ==> Covered(runs, s);
    if runs != [] {
      assert MaximalRun(line, i, runs[0]);
      assert !IsBlank(line[runs[0].0]);
      assert s <= runs[0].0;
      assert Covered(runs, s);
      var k :| 0 <= k < |runs| && runs[k].0 <= s < runs[k].1;
      assert runs[0].0 == s && RunEnd(line, s) == runs[0].1;
    }
  }

  /** The maximal runs of a line are unique. */
  lemma {:induction false} MaximalRunsUnique(line: string, i: nat, runs: seq<(nat, nat)>)
    requires i <= |line| && MaximalRuns(line, i, runs)
    ensures runs == Runs(line, i)
    decreases |line| - i
  {
    hide IsBlank, SkipBlanks, RunEnd;
    FirstRun(line, i, runs);
    if runs != [] {
      var e, rest := runs[0].1, runs[1..];
      assert MaximalRun(line, i, runs[0]);
      forall k | 0 <= k < |rest| ensures MaximalRun(line, e, rest[k]) {
        assert MaximalRun(line, i, runs[k + 1]) && runs[0].1 < runs[k + 1].0;
      }
      forall p | e <= p < |line| && !IsBlank(line[p]) ensures Covered(rest, p) {
        assert Covered(runs, p);
        var k :| 0 <= k < |runs| && runs[k].0 <= p < runs[k].1;
        assert rest[k - 1].0 <= p < rest[k - 1].1;
      }
      MaximalRunsUnique(line, e, rest);
    }
  }

  /** A line yields the texts of its maximal stretches without blanks, in order, and one empty word more exactly when it
      is empty or ends in a blank. `runs` is any list of stretches that fits the description. */
  lemma TokensExactly(line: string, runs: seq<(nat, nat)>)
    requires MaximalRuns(line, 0, runs)
    ensures var open := line == "" || line[|line| - 1] as int == 32 || 9 <= line[|line| - 1] as int <= 13;
            && |Tokens(line)| == |runs| + (if open then 1 else 0)
            && (open ==> Tokens(line)[|runs|] == "")
            && forall k :: 0 <= k < |runs| ==>
                 0 <= runs[k].0 <= runs[k].1 <= |line| && Tokens(line)[k] == line[runs[k].0..runs[k].1]
  {
    if line != "" { BlankExactly(line[|line| - 1]); }
    MaximalRunsUnique(line, 0, runs);
    WordsAreTheRuns(line, 0);
    hide IsBlank, Words, Runs, MaximalRuns;
  }

  // ---------------------------------------------------------------- splitting undoes joining

  function Join(words: seq<string>): string
    requires words != []
  {
    if |words| == 1 then words[0] else words[0] + " " + Join(words[1..])
  }

  predicate IsWord(w: string) {
    w != "" && forall c :: c in w ==> !IsBlank(c)
  }

  lemma {:induction false} ShiftScans(before: string, line: string, i: nat)
    requires i <= |line|
    ensures SkipBlanks(before + line, |before| + i) == |before| + SkipBlanks(line, i)
    ensures RunEnd(before + line, |before| + i) == |before| + RunEnd(line, i)
    decreases |line| - i
  {
    if i < |line| {
      ShiftScans(before, line, i + 1);
    }
  }

  lemma SliceShift(before: string, line: string, s: nat, e: nat)
    requires s <= e <= |line|
    ensures (before + line)[|before| + s..|before| + e] == line[s..e]
  {
  }

  lemma WordsUnfold(line: string, i: nat)
    requires i <= |line|
    ensures var s := SkipBlanks(line, i);
            Words(line, i) == if s == |line| then [] else [line[s..RunEnd(line, s)]] + Words(line, RunEnd(line, s))
  {
    hide IsBlank, SkipBlanks, RunEnd;
  }

  lemma {:induction false} ShiftWords(before: string, line: string, i: nat)
    requires i <= |line|
    ensures Words(before + line, |before| + i) == Words(line, i)
    decreases |line| - i
  {
    hide IsBlank, SkipBlanks, RunEnd, Words;
    ShiftScans(before, line, i);
    var s, all := SkipBlanks(line, i), before + line;
    WordsUnfold(line, i);
    WordsUnfold(all, |before| + i);
    if s < |line| {
      ShiftScans(before, line, s);
      var e := RunEnd(line, s);
      ShiftWords(before, line, e);
      SliceShift(before, line, s, e);
    }
  }

  lemma WordThen(w: string, more: string)
    requires IsWord(w) && (more == "" || IsBlank(more[0]))
    ensures Words(w + more, 0) == [w] + Words(more, 0)
  {
    var line := w + more;
    forall p | 0 <= p < |w| ensures !IsBlank(line[p]) {
      assert line[p] == w[p] && w[p] in w;
    }
    assert more != "" ==> line[|w|] == more[0];
    assert SkipBlanks(line, 0) == 0 && RunEnd(line, 0) == |w|;
    assert line[0..|w|] == w;
    ShiftWords(w, more, 0);
  }

  /** Splitting what was joined with single spaces gives back the words, with no empty word. */
  lemma {:induction false} SplitUndoesJoin(words: seq<string>)
    requires words != [] && forall w :: w in words ==> IsWord(w)
    ensures Join(words) != "" && Tokens(Join(words)) == words
  {
    var w := words[0];
    assert w in words;
    if |words| == 1 {
      assert w + "" == w && w[|w| - 1] in w;
      WordThen(w, "");
    } else {
      SplitUndoesJoin(words[1..]);
      SplitOne(w, Join(words[1..]));
      assert w + " " + Join(words[1..]) == w + (" " + Join(words[1..]));
    }
  }

  lemma SplitOne(w: string, rest: string)
    requires IsWord(w) && rest != ""
    ensures Tokens(w + (" " + rest)) == [w] + Tokens(rest)
  {
    var more := " " + rest;
    LeadingBlank(rest);
    hide IsBlank, SkipBlanks, RunEnd, Words;
    WordThen(w, more);
    assert (w + more)[|w + more| - 1] == rest[|rest| - 1];
  }

  lemma LeadingBlank(rest: string)
    ensures IsBlank((" " + rest)[0]) && Words(" " + rest, 0) == Words(rest, 0)
  {
    var more := " " + rest;
    assert IsBlank(more[0]);
    hide IsBlank;
    ShiftWords(" ", rest, 0);
    assert SkipBlanks(more, 0) == SkipBlanks(more, 1);
  }

  // ---------------------------------------------------------------- lines

  /** Where the first newline is, or the end. */
  function LineEnd(s: string): (e: nat)
    ensures e <= |s| && (e < |s| ==> s[e] == '\n') && forall p :: 0 <= p < e ==> s[p] != '\n'
  {
    if s == "" || s[0] == '\n' then 0 else 1 + LineEnd(s[1..])
  }

  datatype Stream = Stream(rest: string, eof: bool)

  /** `std::getline`: the line, and the stream after it. */
  function GetLine(s: Stream): (string, Stream) {
    if s.eof then ("", s)
    else
      var e := LineEnd(s.rest);
      if e == |s.rest| then (s.rest, Stream("", true)) else (s.rest[..e], Stream(s.rest[e + 1..], false))
  }

  /** All that a caller collects who reads until the first refusal. */
  function ReadAll(s: Stream): seq<seq<string>>
    decreases |s.rest|
  {
    var (line, s') := GetLine(s);
    if s'.eof || line == "" then [] else [Tokens(line)] + ReadAll(s')
  }

  /** Only blanks are left. */
  lemma NoMoreWords(line: string, pos: nat)
    requires pos <= |line| && (pos < |line| || line == "") && SkipBlanks(line, pos) == |line|
    ensures Words(line, pos) == [] && (line == "" || IsBlank(line[|line| - 1]))
    ensures line[|line|..RunEnd(line, |line|)] == "" && RunEnd(line, |line|) == |line|
  {
    hide IsBlank;
  }

  /** The last word ends the line. */
  lemma LastWord(line: string, pos: nat)
    requires pos <= |line| && SkipBlanks(line, pos) < |line| && RunEnd(line, SkipBlanks(line, pos)) == |line|
    ensures Words(line, pos) == [line[SkipBlanks(line, pos)..]] && !IsBlank(line[|line| - 1])
  {
    WordsUnfold(line, pos);
    assert SkipBlanks(line, |line|) == |line|;
    WordsUnfold(line, |line|);
    var s := SkipBlanks(line, pos);
    assert line[s..] == line[s..|line|];
    hide IsBlank, Words;
  }

  lemma TokensWith(line: string, words: seq<string>, rest: seq<string>, last: string)
    requires words + rest == Words(line, 0)
    requires if line == "" || IsBlank(line[|line| - 1]) then rest == [] && last == "" else rest == [last]
    ensures words + [last] == Tokens(line)
  {
    hide IsBlank, Words;
    assert words + [] == words;
  }

  lemma OneMore(words: seq<string>, rest: seq<string>, w: string, more: seq<string>, all: seq<string>)
    requires words + rest == all && rest == [w] + more
    ensures words + [w] + more == all
  {
  }

  /** What one extraction adds to the words before `pos`: the next word, or, if it meets the end, all that was
      missing. */
  lemma NextExtraction(line: string, pos: nat, words: seq<string>)
    requires pos <= |line| && words + Words(line, pos) == Words(line, 0) && (pos < |line| || line == "")
    ensures var s := SkipBlanks(line, pos);
            var e := RunEnd(line, s);
            if e == |line| then words + [line[s..e]] == Tokens(line)
            else words + [line[s..e]] + Words(line, e) == Words(line, 0)
  {
    hide IsBlank, SkipBlanks, RunEnd, Words, Tokens;
    var s := SkipBlanks(line, pos);
    var e := RunEnd(line, s);
    if s == |line| {
      NoMoreWords(line, pos);
      TokensWith(line, words, [], "");
    } else if e == |line| {
      LastWord(line, pos);
      assert line[s..] == line[s..e];
      TokensWith(line, words, [line[s..e]], line[s..e]);
    } else {
      WordsUnfold(line, pos);
      OneMore(words, Words(line, pos), line[s..e], Words(line, e), Words(line, 0));
    }
  }

  class ReadFile {
    var stream: Stream

    constructor (text: string)
      ensures stream == Stream(text, false)
    {
      stream := Stream(text, false);
    }

    /** Appends the words of the next line to `args`, unless the line is empty or unterminated. */
    method ReadLine(args: seq<string>) returns (ok: bool, args': seq<string>)
      modifies this
      ensures stream == GetLine(old(stream)).1
      ensures var line := GetLine(old(stream)).0;
              && ok == (line != "" && !stream.eof)
              && args' == args + if ok then Tokens(line) else []
    {
      var (line, next) := GetLine(stream);
      stream := next;
      args' := args;
      if stream.eof || line == "" {
        return false, args';
      }
      var words := Split(line);
      return true, args' + words;
    }

    /** The `>>` loop over one line; it stops once an extraction has met the end of the line. */
    method Split(line: string) returns (words: seq<string>)
      ensures words == Tokens(line)
    {
      hide IsBlank, SkipBlanks, RunEnd, Words, Tokens;
      words := [];
      var pos, eof := 0, false;
      while !eof
        invariant pos <= |line|
        invariant !eof ==> words + Words(line, pos) == Words(line, 0) && (pos < |line| || line == "")
        invariant eof ==> words == Tokens(line)
        decreases !eof, |line| - pos
      {
        NextExtraction(line, pos, words);
        var word;
        word, pos, eof := Extract(line, pos);
        words := words + [word];
      }
    }

    /** `line_ss >> word` from position `pos`: the word, the position after it, and whether the end was met. */
    method Extract(line: string, pos: nat) returns (word: string, next: nat, eof: bool)
      requires pos <= |line|
      ensures var s := SkipBlanks(line, pos);
              && next == RunEnd(line, s) && word == line[s..next] && eof == (next == |line|)
    {
      hide IsBlank;
      var s := pos;
      while s < |line| && IsBlank(line[s])
        invariant pos <= s <= |line| && SkipBlanks(line, s) == SkipBlanks(line, pos)
      {
        s := s + 1;
      }
      next := s;
      while next < |line| && !IsBlank(line[next])
        invariant s <= next <= |line| && RunEnd(line, next) == RunEnd(line, s)
      {
        next := next + 1;
      }
      return line[s..next], next, next == |line|;
    }
  }

  /** Lines, each terminated. */
  function Unlines(lines: seq<string>): string {
    if lines == [] then "" else lines[0] + "\n" + Unlines(lines[1..])
  }

  lemma FirstLine(line: string, more: string)
    requires '\n' !in line
    ensures GetLine(Stream(line + "\n" + more, false)) == (line, Stream(more, false))
  {
    var text := line + "\n" + more;
    forall p | 0 <= p < |line| ensures text[p] != '\n' {
      assert text[p] == line[p];
    }
    assert text[|line|] == '\n';
    assert LineEnd(text) == |line|;
    assert text[..|line|] == line && text[|line| + 1..] == more;
  }

  /** A last line without a newline is consumed and refused; so is any read after it. */
  lemma LastLine(line: string)
    requires '\n' !in line
    ensures GetLine(Stream(line, false)) == (line, Stream("", true))
    ensures forall rest: string :: GetLine(Stream(rest, true)) == ("", Stream(rest, true))
  {
    assert LineEnd(line) == |line|;
  }

  lemma ReadAllStep(line: string, more: string)
    requires line != "" && '\n' !in line
    ensures ReadAll(Stream(line + "\n" + more, false)) == [Tokens(line)] + ReadAll(Stream(more, false))
  {
    hide Tokens, LineEnd;
    FirstLine(line, more);
  }

  lemma ReadAllEnd(end: string)
    requires '\n' !in end || end[0] == '\n'
    ensures ReadAll(Stream(end, false)) == []
  {
    hide Tokens;
    if '\n' !in end {
      assert LineEnd(end) == |end|;
    } else {
      assert LineEnd(end) == 0;
    }
  }

  /** Reading delivers the tokens of every line up to the first one that is empty or not terminated, and stops. */
  lemma {:induction false} ReadsUntilEmptyOrUnterminated(lines: seq<string>, end: string)
    requires forall l :: l in lines ==> l != "" && '\n' !in l
    requires '\n' !in end || end[0] == '\n'
    ensures ReadAll(Stream(Unlines(lines) + end, false)) ==
            seq(|lines|, i requires 0 <= i < |lines| => Tokens(lines[i]))
  {
    hide ReadAll, Tokens;
    if lines == [] {
      assert Unlines(lines) + end == end;
      ReadAllEnd(end);
    } else {
      var more := Unlines(lines[1..]) + end;
      assert Unlines(lines) + end == lines[0] + "\n" + more;
      assert lines[0] in lines && forall l :: l in lines[1..] ==> l in lines;
      ReadAllStep(lines[0], more);
      ReadsUntilEmptyOrUnterminated(lines[1..], end);
    }
  }
}
