/** Splitting a language model's answer into convention files: delimiter lines start a file, missing
    files get defaults, and the expected files come first. */
module LlmResponse {
  import opened Text

  datatype File = File(name: string, content: string)

  /** The four static templates, by file name. */
  datatype Defaults = Defaults(project: string, coding: string, commit: string, testing: string)

  /** The outcome of a parse; slicing a delimiter line that is too short aborts it. */
  datatype Parsed = Files(files: seq<File>) | Aborted

  const PREFIX: string := "--- FILE: "
  const SUFFIX: string := " ---"
  const EXPECTED: seq<string> := ["project.md", "coding.md", "commit.md", "testing.md"]

  // ---- lines --------------------------------------------------------------

  function StripReturn(line: string): string {
    if line != "" && line[|line| - 1] == '\r' then line[..|line| - 1] else line
  }

  /** `str::lines` on the parts between newlines: a carriage return before a newline is dropped, and
      so is an empty unterminated last line. */
  function FinishLines(parts: seq<string>): seq<string> {
    if parts == [] then []
    else if |parts| == 1 then (if parts[0] == "" then [] else parts)
    else [StripReturn(parts[0])] + FinishLines(parts[1..])
  }

  function Lines(text: string): seq<string> {
    FinishLines(Split(text, '\n'))
  }

  predicate IsDelimiter(line: string) {
    StartsWith(Trim(line), PREFIX) && EndsWith(Trim(line), SUFFIX)
  }

  /** The one delimiter line whose name would be cut from behind itself. */
  predicate IsShort(line: string) {
    IsDelimiter(line) && |Trim(line)| < |PREFIX| + |SUFFIX|
  }

  function NameOf(line: string): string
    requires IsDelimiter(line) && !IsShort(line)
  {
    var t := Trim(line);
    Trim(t[|PREFIX|..|t| - |SUFFIX|])
  }

  /** Only one text is too short to hold a name. */
  lemma ShortDelimiter(line: string)
    ensures IsShort(line) <==> Trim(line) == "--- FILE: ---"
  {
    var t := Trim(line);
    if IsShort(line) {
      assert t[..10] == PREFIX;
      assert forall i :: 0 <= i < 10 ==> t[i] == PREFIX[i];
      assert forall i :: 0 <= i < 4 ==> t[|t| - 4 + i] == SUFFIX[i];
      assert t[|t| - 4] == ' ';
      assert |t| == 13;
      assert t == "--- FILE: ---";
    }
  }

  /** A text of terminated lines; each ends in a newline, or in a carriage return and a newline. */
  datatype Terminated = Terminated(line: string, returned: bool)

  function TerminatedText(ls: seq<Terminated>): string {
    if ls == [] then ""
    else ls[0].line + (if ls[0].returned then "\r\n" else "\n") + TerminatedText(ls[1..])
  }

  function TerminatedLines(ls: seq<Terminated>): seq<string> {
    if ls == [] then [] else [ls[0].line] + TerminatedLines(ls[1..])
  }

  lemma FirstLine(line: string, rest: string)
    requires '\n' !in line
    ensures Lines(line + "\n" + rest) == [StripReturn(line)] + Lines(rest)
  {
    SplitConcat(line, '\n', rest);
    SplitWithoutSeparator(line, '\n');
    assert line + "\n" + rest == line + ['\n'] + rest;
    assert ([line] + Split(rest, '\n'))[1..] == Split(rest, '\n');
  }

  lemma FirstTerminated(l: Terminated, rest: string)
    requires '\n' !in l.line && (l.returned || !EndsWith(l.line, "\r"))
    ensures Lines(l.line + (if l.returned then "\r\n" else "\n") + rest) == [l.line] + Lines(rest)
  {
    if l.returned {
      FirstLine(l.line + "\r", rest);
      assert l.line + "\r\n" + rest == l.line + "\r" + "\n" + rest;
    } else {
      FirstLine(l.line, rest);
      assert l.line != "" ==> l.line[|l.line| - 1..] == [l.line[|l.line| - 1]];
    }
  }

  /** Lines are read without their terminators, of either kind; an unterminated last line is read as
      it is, and an empty one is none. */
  lemma {:induction false} LinesMeaning(ls: seq<Terminated>, last: string)
    requires '\n' !in last && forall i :: 0 <= i < |ls| ==> '\n' !in ls[i].line
    requires forall i :: 0 <= i < |ls| && !ls[i].returned ==> !EndsWith(ls[i].line, "\r")
    ensures Lines(TerminatedText(ls) + last) == TerminatedLines(ls) + if last == "" then [] else [last]
    decreases |ls|
  {
    if ls == [] {
      assert TerminatedText(ls) + last == last;
      SplitWithoutSeparator(last, '\n');
    } else {
      var l, rest := ls[0], TerminatedText(ls[1..]) + last;
      LinesMeaning(ls[1..], last);
      FirstTerminated(l, rest);
      assert TerminatedText(ls) + last == l.line + (if l.returned then "\r\n" else "\n") + rest;
    }
  }

  /** A line opens a file exactly when, trimmed, it holds a name between the two markers; the name is
      trimmed in its turn. */
  lemma DelimiterMeaning(line: string)
    ensures IsDelimiter(line) && !IsShort(line) <==> exists x :: Trim(line) == "--- FILE: " + x + " ---"
    ensures forall x :: Trim(line) == "--- FILE: " + x + " ---" ==>
              IsDelimiter(line) && !IsShort(line) && NameOf(line) == Trim(x)
  {
    var t := Trim(line);
    if IsDelimiter(line) && !IsShort(line) {
      var x := t[10..|t| - 4];
      assert t[..10] == PREFIX && t[|t| - 4..] == SUFFIX;
      assert t == "--- FILE: " + x + " ---";
    }
    forall x | t == "--- FILE: " + x + " ---"
      ensures IsDelimiter(line) && !IsShort(line) && NameOf(line) == Trim(x)
    {
      assert t[..|PREFIX|] == PREFIX && t[|t| - |SUFFIX|..] == SUFFIX && t[|PREFIX|..|t| - |SUFFIX|] == x;
    }
  }

  // ---- sections -----------------------------------------------------------

  /** The scan's state: the open file, if any, and its content so far. */
  datatype State = State(done: seq<File>, current: Option<string>, content: string)

  function AddLine(content: string, line: string): string {
    (if content == "" then content else content + "\n") + line
  }

  function Step(s: State, line: string): State
    requires !IsShort(line)
  {
    if IsDelimiter(line) then
      State(if s.current.Some? then s.done + [File(s.current.value, Trim(s.content))] else s.done,
            Some(NameOf(line)), "")
    else if s.current.Some? then s.(content := AddLine(s.content, line))
    else s
  }

  predicate NoneShort(lines: seq<string>) {
    forall i :: 0 <= i < |lines| ==> !IsShort(lines[i])
  }

  function Steps(s: State, lines: seq<string>): State
    requires NoneShort(lines)
  {
    if lines == [] then s else Step(Steps(s, lines[..|lines| - 1]), lines[|lines| - 1])
  }

  function Scan(lines: seq<string>): State
    requires NoneShort(lines)
  {
    Steps(State([], None, ""), lines)
  }

  /** The last file is kept only when it has content. */
  function Close(s: State): seq<File> {
    if s.current.Some? && Trim(s.content) != "" then s.done + [File(s.current.value, Trim(s.content))] else s.done
  }

  /** Without any file, the whole answer is the project file. */
  function Fallback(files: seq<File>, response: string): seq<File> {
    if files == [] && Trim(response) != "" then [File("project.md", Trim(response))] else files
  }

  // ---- defaults and order -------------------------------------------------

  predicate HasName(files: seq<File>, name: string) {
    exists i :: 0 <= i < |files| && files[i].name == name
  }

  function DefaultFiles(d: Defaults): (fs: seq<File>)
    ensures |fs| == 4 && forall i :: 0 <= i < 4 ==> fs[i].name == EXPECTED[i]
  {
    [File("project.md", d.project), File("coding.md", d.coding),
     File("commit.md", d.commit), File("testing.md", d.testing)]
  }

  function Fill(files: seq<File>, defaults: seq<File>): seq<File> {
    if defaults == [] then files
    else
      var n := |defaults| - 1;
      var before := Fill(files, defaults[..n]);
      if HasName(before, defaults[n].name) then before else before + [defaults[n]]
  }

  function Position(files: seq<File>, name: string): (p: nat)
    requires HasName(files, name)
    ensures p < |files| && files[p].name == name && forall j :: 0 <= j < p ==> files[j].name != name
  {
    if files[0].name == name then 0
    else
      assert HasName(files[1..], name) by {
        var i :| 0 <= i < |files| && files[i].name == name;
        assert files[1..][i - 1] == files[i];
      }
      1 + Position(files[1..], name)
  }

  /** The first file of every name in `names`, taken out one after the other. */
  function Pick(files: seq<File>, names: seq<string>): (seq<File>, seq<File>) {
    if names == [] then ([], files)
    else
      var n := |names| - 1;
      var (picked, rest) := Pick(files, names[..n]);
      if HasName(rest, names[n]) then
        var p := Position(rest, names[n]);
        (picked + [rest[p]], rest[..p] + rest[p + 1..])
      else (picked, rest)
  }

  function Ordered(files: seq<File>): seq<File> {
    var (picked, rest) := Pick(files, EXPECTED);
    picked + rest
  }

  /** The files that the answer itself holds. */
  function Found(response: string): seq<File>
    requires NoneShort(Lines(response))
  {
    Fallback(Close(Scan(Lines(response))), response)
  }

  function ParseFiles(response: string, d: Defaults): seq<File>
    requires NoneShort(Lines(response))
  {
    Ordered(Fill(Found(response), DefaultFiles(d)))
  }

  lemma NoneShortMore(lines: seq<string>, i: nat)
    requires i < |lines| && NoneShort(lines[..i])
    ensures NoneShort(lines[..i + 1]) <==> !IsShort(lines[i])
    ensures !IsShort(lines[i]) ==> Scan(lines[..i + 1]) == Step(Scan(lines[..i]), lines[i])
  {
    assert lines[..i + 1] == lines[..i] + [lines[i]];
    assert lines[..i + 1][..i] == lines[..i];
  }

  /** The line-by-line scan: the files it completes, and the one still open. */
  method ScanLines(lines: seq<string>) returns (r: Option<State>)
    ensures r.None? <==> !NoneShort(lines)
    ensures r.Some? ==> r.value == Scan(lines)
  {
    var files: seq<File> := [];
    var currentFile: Option<string> := None;
    var currentContent := "";
    for i := 0 to |lines|
      invariant NoneShort(lines[..i]) && Scan(lines[..i]) == State(files, currentFile, currentContent)
    {
      var line := lines[i];
      NoneShortMore(lines, i);
      if IsDelimiter(line) {
        if currentFile.Some? {
          files := files + [File(currentFile.value, Trim(currentContent))];
        }
        if IsShort(line) {
          return None;
        }
        currentFile := Some(NameOf(line));
        currentContent := "";
      } else if currentFile.Some? {
        if currentContent != "" {
          currentContent := currentContent + "\n";
        }
        currentContent := currentContent + line;
      }
    }
    assert lines[..|lines|] == lines;
    return Some(State(files, currentFile, currentContent));
  }

  /** Some line has only the bare delimiter. */
  ghost predicate HasBareDelimiter(lines: seq<string>) {
    exists i :: 0 <= i < |lines| && Trim(lines[i]) == "--- FILE: ---"
  }

  lemma AbortMeaning(lines: seq<string>)
    ensures NoneShort(lines) <==> !HasBareDelimiter(lines)
  {
    forall i | 0 <= i < |lines| ensures IsShort(lines[i]) <==> Trim(lines[i]) == "--- FILE: ---" {
      ShortDelimiter(lines[i]);
    }
  }

  /** The answer that consists of the bare delimiter cannot be parsed. */
  lemma AbortExample(response: string)
    requires response == "--- FILE: ---"
    ensures HasBareDelimiter(Lines(response)) && !NoneShort(Lines(response))
  {
    SplitWithoutSeparator(response, '\n');
    TrimOfTrimmed(response);
    assert Trim(Lines(response)[0]) == "--- FILE: ---";
    AbortMeaning(Lines(response));
  }

  /** Parse the answer into files; it aborts exactly when some line is the bare delimiter. */
  method ParseLlmResponse(response: string, d: Defaults) returns (r: Parsed)
    ensures r.Aborted? <==> HasBareDelimiter(Lines(response))
    ensures r.Files? ==> NoneShort(Lines(response)) && r.files == ParseFiles(response, d)
  {
    var lines := Lines(response);
    AbortMeaning(lines);
    var scanned := ScanLines(lines);
    if scanned.None? {
      return Aborted;
    }
    var files := scanned.value.done;
    if scanned.value.current.Some? {
      var content := Trim(scanned.value.content);
      if content != "" {
        files := files + [File(scanned.value.current.value, content)];
      }
    }
    assert files == Close(Scan(lines));
    if files == [] && Trim(response) != "" {
      files := files + [File("project.md", Trim(response))];
    }
    assert files == Found(response);
    files := FillMissing(files, d);
    files := Reorder(files);
    return Files(files);
  }

  method FillMissing(given: seq<File>, d: Defaults) returns (files: seq<File>)
    ensures files == Fill(given, DefaultFiles(d))
  {
    files := given;
    var defaults := DefaultFiles(d);
    for i := 0 to |defaults|
      invariant files == Fill(given, defaults[..i])
    {
      assert defaults[..i + 1][..i] == defaults[..i];
      if !HasName(files, defaults[i].name) {
        files := files + [defaults[i]];
      }
    }
    assert defaults[..|defaults|] == defaults;
  }

  method Reorder(given: seq<File>) returns (ordered: seq<File>)
    ensures ordered == Ordered(given)
  {
    var files := given;
    ordered := [];
    for i := 0 to |EXPECTED|
      invariant (ordered, files) == Pick(given, EXPECTED[..i])
    {
      var name := EXPECTED[i];
      assert EXPECTED[..i + 1][..i] == EXPECTED[..i];
      if HasName(files, name) {
        var pos := Position(files, name);
        ordered := ordered + [files[pos]];
        files := files[..pos] + files[pos + 1..];
      }
    }
    assert EXPECTED[..|EXPECTED|] == EXPECTED;
    ordered := ordered + files;
  }
}
