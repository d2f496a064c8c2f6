/** What parsing an answer keeps, and the answers it inverts. */
module LlmResponseLaws {
  import opened Text
  import opened LlmResponse
  import opened Sequences

  // ---- conservation -------------------------------------------------------

  predicate HasNames(files: seq<File>, names: seq<string>) {
    forall i :: 0 <= i < |names| ==> HasName(files, names[i])
  }

  /** The default files whose names are missing, in order. */
  function Missing(files: seq<File>, defaults: seq<File>): seq<File> {
    if defaults == [] then []
    else
      var n := |defaults| - 1;
      Missing(files, defaults[..n]) + if HasName(files, defaults[n].name) then [] else [defaults[n]]
  }

  lemma HasNameConcat(a: seq<File>, b: seq<File>, name: string)
    ensures HasName(a + b, name) <==> HasName(a, name) || HasName(b, name)
  {
    assert forall i :: 0 <= i < |a| ==> (a + b)[i] == a[i];
    assert forall i :: 0 <= i < |b| ==> (a + b)[|a| + i] == b[i];
    if HasName(b, name) {
      var i :| 0 <= i < |b| && b[i].name == name;
      assert (a + b)[|a| + i].name == name;
    }
  }

  lemma {:induction false} MissingNames(files: seq<File>, defaults: seq<File>, name: string)
    requires HasName(Missing(files, defaults), name)
    ensures HasName(defaults, name)
    decreases |defaults|
  {
    if defaults != [] {
      var n := |defaults| - 1;
      var last := if HasName(files, defaults[n].name) then [] else [defaults[n]];
      HasNameConcat(Missing(files, defaults[..n]), last, name);
      if HasName(Missing(files, defaults[..n]), name) {
        MissingNames(files, defaults[..n], name);
        var i :| 0 <= i < n && defaults[..n][i].name == name;
        assert defaults[i].name == name;
      }
    }
  }

  function Names(files: seq<File>): (names: seq<string>)
    ensures |names| == |files| && forall i :: 0 <= i < |names| ==> names[i] == files[i].name
  {
    seq(|files|, i requires 0 <= i < |files| => files[i].name)
  }

  /** Filling adds the missing defaults after the files, and only those; then no default's name is missing. */
  lemma {:induction false} FillMeaning(files: seq<File>, defaults: seq<File>)
    requires NoDuplicates(Names(defaults))
    ensures Fill(files, defaults) == files + Missing(files, defaults)
    ensures forall i :: 0 <= i < |defaults| ==> HasName(Fill(files, defaults), defaults[i].name)
    decreases |defaults|
  {
    if defaults != [] {
      var n := |defaults| - 1;
      FillMeaning(files, defaults[..n]);
      var name := defaults[n].name;
      var missing := Missing(files, defaults[..n]);
      HasNameConcat(files, missing, name);
      if HasName(missing, name) {
        MissingNames(files, defaults[..n], name);
      }
      forall i | 0 <= i < |defaults| ensures HasName(Fill(files, defaults), defaults[i].name) {
        if i < n {
          assert defaults[..n][i] == defaults[i];
          HasNameConcat(Fill(files, defaults[..n]), [defaults[n]], defaults[i].name);
        } else {
          HasNameConcat(Fill(files, defaults[..n]), [defaults[n]], name);
          assert [defaults[n]][0].name == name;
        }
      }
    }
  }

  /** What is left after the first file of every wanted name is taken out, in order. */
  function Extras(files: seq<File>, want: set<string>): seq<File> {
    if files == [] then []
    else if files[0].name in want then Extras(files[1..], want - {files[0].name})
    else [files[0]] + Extras(files[1..], want)
  }

  function FirstNamed(files: seq<File>, name: string): File
    requires HasName(files, name)
  {
    files[Position(files, name)]
  }

  lemma HasNameTail(files: seq<File>, name: string)
    requires files != []
    ensures HasName(files, name) <==> files[0].name == name || HasName(files[1..], name)
  {
    assert files == [files[0]] + files[1..];
    HasNameConcat([files[0]], files[1..], name);
    assert HasName([files[0]], name) <==> [files[0]][0].name == name;
  }

  function Without(files: seq<File>, p: nat): seq<File>
    requires p < |files|
  {
    files[..p] + files[p + 1..]
  }

  /** Without its first file of a name. */
  function Taken(files: seq<File>, name: string): seq<File>
    requires HasName(files, name)
  {
    Without(files, Position(files, name))
  }

  lemma TakenAtHead(head: File, tail: seq<File>)
    ensures HasName([head] + tail, head.name)
    ensures FirstNamed([head] + tail, head.name) == head && Taken([head] + tail, head.name) == tail
  {
    var files := [head] + tail;
    assert files[0].name == head.name;
    assert Position(files, head.name) == 0;
    assert files[1..] == tail;
  }

  lemma TakenInTail(head: File, tail: seq<File>, name: string)
    requires head.name != name && HasName(tail, name)
    ensures HasName([head] + tail, name)
    ensures FirstNamed([head] + tail, name) == FirstNamed(tail, name)
    ensures Taken([head] + tail, name) == [head] + Taken(tail, name)
  {
    var files := [head] + tail;
    assert files[1..] == tail;
    HasNameTail(files, name);
    assert Position(files, name) == 1 + Position(tail, name);
  }

  /** Taking out one more name: the file taken is the first of that name in the whole list. */
  lemma {:induction false} TakeOne(files: seq<File>, want: set<string>, name: string)
    requires name !in want && HasName(files, name)
    ensures HasName(Extras(files, want), name)
    ensures FirstNamed(Extras(files, want), name) == FirstNamed(files, name)
    ensures Taken(Extras(files, want), name) == Extras(files, want + {name})
    decreases |files|
  {
    var head, tail := files[0], files[1..];
    assert files == [head] + tail;
    HasNameTail(files, name);
    if head.name in want {
      TakeOne(tail, want - {head.name}, name);
      TakenInTail(head, tail, name);
      assert want + {name} - {head.name} == want - {head.name} + {name};
    } else if head.name == name {
      TakenAtHead(head, tail);
      TakenAtHead(head, Extras(tail, want));
      assert want + {name} - {name} == want;
    } else {
      TakeOne(tail, want, name);
      TakenInTail(head, tail, name);
      TakenInTail(head, Extras(tail, want), name);
    }
  }

  lemma {:induction false} NothingWanted(files: seq<File>)
    ensures Extras(files, {}) == files
    decreases |files|
  {
    if files != [] {
      NothingWanted(files[1..]);
    }
  }

  lemma WithoutConserves(files: seq<File>, p: nat)
    requires p < |files|
    ensures multiset(Without(files, p)) + multiset{files[p]} == multiset(files)
  {
    assert files == files[..p] + [files[p]] + files[p + 1..];
  }

  function NameSet(names: seq<string>): set<string> {
    set i | 0 <= i < |names| :: names[i]
  }

  /** What has been picked: the first file of each name, with the rest in order and none lost. */
  ghost predicate IsPick(files: seq<File>, names: seq<string>, picked: seq<File>, rest: seq<File>)
    requires HasNames(files, names)
  {
    && |picked| == |names|
    && (forall i :: 0 <= i < |names| ==> picked[i] == FirstNamed(files, names[i]))
    && rest == Extras(files, NameSet(names))
    && multiset(picked) + multiset(rest) == multiset(files)
  }

  lemma PickOneMore(files: seq<File>, names: seq<string>, name: string, picked: seq<File>, rest: seq<File>)
    requires HasNames(files, names) && IsPick(files, names, picked, rest)
    requires name !in names && HasName(files, name)
    ensures HasName(rest, name) && HasNames(files, names + [name])
    ensures IsPick(files, names + [name], picked + [FirstNamed(rest, name)], Taken(rest, name))
  {
    var more := names + [name];
    assert NameSet(more) == NameSet(names) + {name} by {
      assert forall i :: 0 <= i < |names| ==> more[i] == names[i];
      assert more[|names|] == name;
    }
    TakeOne(files, NameSet(names), name);
    WithoutConserves(rest, Position(rest, name));
  }

  /** The files picked are the first of their names, the rest keep their order, and none is lost. */
  lemma {:induction false} PickMeaning(files: seq<File>, names: seq<string>)
    requires NoDuplicates(names) && HasNames(files, names)
    ensures IsPick(files, names, Pick(files, names).0, Pick(files, names).1)
    decreases |names|
  {
    if names == [] {
      NothingWanted(files);
      assert NameSet([]) == {};
    } else {
      var n := |names| - 1;
      var front := names[..n];
      PickMeaning(files, front);
      var (picked, rest) := Pick(files, front);
      assert names == front + [names[n]];
      PickOneMore(files, front, names[n], picked, rest);
    }
  }

  lemma ExpectedDistinct()
    ensures NoDuplicates(EXPECTED)
  {
    assert EXPECTED[0][0] == 'p' && EXPECTED[3][0] == 't';
    assert EXPECTED[1][2] == 'd' && EXPECTED[2][2] == 'm';
  }

  lemma OrderConserves(files: seq<File>, d: Defaults)
    ensures IsArranged(Ordered(Fill(files, DefaultFiles(d))), files + Missing(files, DefaultFiles(d)))
  {
    ExpectedDistinct();
    var defaults := DefaultFiles(d);
    assert Names(defaults) == EXPECTED;
    FillMeaning(files, defaults);
    var all := files + Missing(files, defaults);
    forall i | 0 <= i < |EXPECTED| ensures HasName(all, EXPECTED[i]) {
      assert defaults[i].name == EXPECTED[i];
    }
    PickMeaning(all, EXPECTED);
    var (picked, rest) := Pick(all, EXPECTED);
    assert (picked + rest)[4..] == rest;
    assert |multiset(picked + rest)| == |multiset(all)|;
  }

  /** `r` is `all` rearranged: the first file of each expected name, in the expected order, and then
      the others in their own order. */
  ghost predicate IsArranged(r: seq<File>, all: seq<File>) {
    && |r| == |all| >= 4 && multiset(r) == multiset(all)
    && (forall i :: 0 <= i < 4 ==>
          r[i].name == EXPECTED[i] && HasName(all, EXPECTED[i]) && r[i] == FirstNamed(all, EXPECTED[i]))
    && r[4..] == Extras(all, NameSet(EXPECTED))
  }

  /** For every answer that parses: the four expected files come first, in order; extra files and
      repeats follow in their own order; and the result is a permutation of the files found and the
      defaults for the names that are missing. */
  lemma ParseConserves(response: string, d: Defaults)
    requires NoneShort(Lines(response))
    ensures IsArranged(ParseFiles(response, d), Found(response) + Missing(Found(response), DefaultFiles(d)))
  {
    OrderConserves(Found(response), d);
  }

  lemma {:induction false} MissingAreDefaults(files: seq<File>, defaults: seq<File>, f: File)
    requires f in Missing(files, defaults)
    ensures f in defaults
    decreases |defaults|
  {
    var n := |defaults| - 1;
    if f in Missing(files, defaults[..n]) {
      MissingAreDefaults(files, defaults[..n], f);
    }
  }

  lemma FirstNamedConcat(a: seq<File>, b: seq<File>, name: string)
    requires HasName(a + b, name)
    ensures HasName(a, name) ==> FirstNamed(a + b, name) == FirstNamed(a, name)
    ensures !HasName(a, name) ==> FirstNamed(a + b, name) in b
  {
    var all := a + b;
    var p := Position(all, name);
    assert all[p] == if p < |a| then a[p] else b[p - |a|];
    if HasName(a, name) {
      var q := Position(a, name);
      assert all[q] == a[q] && forall j :: 0 <= j < q ==> all[j] == a[j];
      assert p == q;
    } else {
      assert forall i :: 0 <= i < |a| ==> a[i].name != name;
    }
  }

  /** The file of an expected name is the first one found, or else that name's own template. */
  lemma ExpectedFile(found: seq<File>, d: Defaults, i: nat)
    requires i < 4
    ensures var r := Ordered(Fill(found, DefaultFiles(d)));
            && |r| >= 4
            && r[i] == if HasName(found, EXPECTED[i]) then FirstNamed(found, EXPECTED[i]) else DefaultFiles(d)[i]
  {
    var defaults := DefaultFiles(d);
    var missing := Missing(found, defaults);
    OrderConserves(found, d);
    FirstNamedConcat(found, missing, EXPECTED[i]);
    if !HasName(found, EXPECTED[i]) {
      var f := FirstNamed(found + missing, EXPECTED[i]);
      MissingAreDefaults(found, defaults, f);
      var k :| 0 <= k < 4 && defaults[k] == f;
      ExpectedDistinct();
      assert EXPECTED[k] == EXPECTED[i];
    }
  }

  function FirstOr(files: seq<File>, template: File): File {
    if HasName(files, template.name) then FirstNamed(files, template.name) else template
  }

  /** The four files of every parse: project, coding, commit and testing, each as the answer has it
      first, or from its own template. */
  lemma FourFiles(response: string, d: Defaults)
    requires NoneShort(Lines(response))
    ensures var found, r := Found(response), ParseFiles(response, d);
            && |r| >= 4
            && r[0] == FirstOr(found, File("project.md", d.project))
            && r[1] == FirstOr(found, File("coding.md", d.coding))
            && r[2] == FirstOr(found, File("commit.md", d.commit))
            && r[3] == FirstOr(found, File("testing.md", d.testing))
  {
    ExpectedFile(Found(response), d, 0);
    ExpectedFile(Found(response), d, 1);
    ExpectedFile(Found(response), d, 2);
    ExpectedFile(Found(response), d, 3);
  }

  // ---- round trip ---------------------------------------------------------

  function Header(name: string): string {
    PREFIX + name + SUFFIX
  }

  function SectionText(f: File): string {
    Header(f.name) + "\n" + f.content
  }

  function SectionTexts(files: seq<File>): (ts: seq<string>)
    ensures |ts| == |files|
  {
    if files == [] then [] else [SectionText(files[0])] + SectionTexts(files[1..])
  }

  /** An answer that holds the given files. */
  function Answer(files: seq<File>): string {
    Join(SectionTexts(files), "\n")
  }

  predicate PlainLine(line: string) {
    !IsDelimiter(line) && (line == "" || line[|line| - 1] != '\r')
  }

  /** A file that a section can carry: a trimmed one-line name, and trimmed content without delimiter
      lines and without a carriage return before a newline. */
  predicate Carried(f: File) {
    && Trimmed(f.name) && '\n' !in f.name && Trimmed(f.content)
    && forall line :: line in Split(f.content, '\n') ==> PlainLine(line)
  }

  /** Files that an answer can carry: of them only the last must have content. */
  predicate AllCarried(files: seq<File>) {
    files != [] && files[|files| - 1].content != "" && forall i :: 0 <= i < |files| ==> Carried(files[i])
  }

  function SectionLines(f: File): seq<string> {
    [Header(f.name)] + Split(f.content, '\n')
  }

  function AnswerLines(files: seq<File>): seq<string> {
    if files == [] then [] else SectionLines(files[0]) + AnswerLines(files[1..])
  }

  lemma HeaderIsDelimiter(name: string)
    requires Trimmed(name)
    ensures IsDelimiter(Header(name)) && !IsShort(Header(name)) && NameOf(Header(name)) == name
  {
    var h := Header(name);
    assert h[0] == PREFIX[0] == '-' && h[|h| - 1] == SUFFIX[3] == '-';
    TrimOfTrimmed(h);
    assert h[..|PREFIX|] == PREFIX && h[|h| - |SUFFIX|..] == SUFFIX;
    assert h[|PREFIX|..|h| - |SUFFIX|] == name;
    TrimOfTrimmed(name);
  }

  lemma {:induction false} AnswerSplit(files: seq<File>)
    requires forall i :: 0 <= i < |files| ==> '\n' !in files[i].name
    ensures SplitEach(SectionTexts(files), '\n') == AnswerLines(files)
    decreases |files|
  {
    if files != [] {
      var f := files[0];
      AnswerSplit(files[1..]);
      assert '\n' !in Header(f.name);
      SplitConcat(Header(f.name), '\n', f.content);
      SplitWithoutSeparator(Header(f.name), '\n');
    }
  }

  lemma {:induction false} FinishPlain(parts: seq<string>)
    requires parts != [] && parts[|parts| - 1] != ""
    requires forall i :: 0 <= i < |parts| ==> parts[i] == "" || parts[i][|parts[i]| - 1] != '\r'
    ensures FinishLines(parts) == parts
    decreases |parts|
  {
    if |parts| > 1 {
      FinishPlain(parts[1..]);
      assert parts == [parts[0]] + parts[1..];
    }
  }

  /** The last line of a trimmed text is not empty, nor is the first. */
  lemma {:induction false} ContentEnds(text: string)
    requires Trimmed(text) && text != ""
    ensures var parts := Split(text, '\n'); parts[0] != "" && parts[|parts| - 1] != ""
  {
    var parts := Split(text, '\n');
    JoinSplit(text, '\n');
    if parts[|parts| - 1] == "" {
      JoinEndsEmpty(parts, "\n");
    }
  }

  lemma {:induction false} JoinEndsEmpty(parts: seq<string>, sep: string)
    requires |parts| >= 1 && parts[|parts| - 1] == ""
    ensures |parts| == 1 ==> Join(parts, sep) == ""
    ensures |parts| > 1 ==> EndsWith(Join(parts, sep), sep)
    decreases |parts|
  {
    if |parts| > 1 {
      JoinEndsEmpty(parts[1..], sep);
      var whole, tail := Join(parts, sep), Join(parts[1..], sep);
      assert whole[|whole| - |tail|..] == tail;
    }
  }

  /** Lines that `lines()` gives back as they are, and that the scan can name. */
  predicate Verbatim(lines: seq<string>) {
    lines != [] && lines[|lines| - 1] != "" && Unreturned(lines) && NoneShort(lines)
  }

  predicate Unreturned(lines: seq<string>) {
    forall i :: 0 <= i < |lines| ==> lines[i] == "" || lines[i][|lines[i]| - 1] != '\r'
  }

  lemma VerbatimConcat(a: seq<string>, b: seq<string>)
    requires Unreturned(a) && NoneShort(a) && Verbatim(b)
    ensures Verbatim(a + b)
  {
    var c := a + b;
    forall i | 0 <= i < |c| ensures (c[i] == "" || c[i][|c[i]| - 1] != '\r') && !IsShort(c[i]) {
      assert c[i] == if i < |a| then a[i] else b[i - |a|];
    }
  }

  lemma SectionVerbatim(f: File)
    requires Carried(f)
    ensures Unreturned(SectionLines(f)) && NoneShort(SectionLines(f))
    ensures f.content != "" ==> Verbatim(SectionLines(f))
  {
    if f.content != "" {
      ContentEnds(f.content);
    }
    HeaderIsDelimiter(f.name);
    var h := Header(f.name);
    assert h[|h| - 1] == SUFFIX[3] == '-';
    var section, parts := SectionLines(f), Split(f.content, '\n');
    forall i | 0 <= i < |section|
      ensures (section[i] == "" || section[i][|section[i]| - 1] != '\r') && !IsShort(section[i])
    {
      if i > 0 {
        assert section[i] == parts[i - 1] && parts[i - 1] in parts;
      }
    }
  }

  lemma {:induction false} AnswerVerbatim(files: seq<File>)
    requires AllCarried(files)
    ensures Verbatim(AnswerLines(files))
    decreases |files|
  {
    SectionVerbatim(files[0]);
    if |files| > 1 {
      AnswerVerbatim(files[1..]);
      VerbatimConcat(SectionLines(files[0]), AnswerLines(files[1..]));
    } else {
      assert AnswerLines(files) == SectionLines(files[0]);
    }
  }

  lemma LinesOfVerbatim(text: string, lines: seq<string>)
    requires Split(text, '\n') == lines && Verbatim(lines)
    ensures Lines(text) == lines
  {
    FinishPlain(lines);
  }

  lemma AnswerParts(files: seq<File>)
    requires files != [] && forall i :: 0 <= i < |files| ==> '\n' !in files[i].name
    ensures Split(Answer(files), '\n') == AnswerLines(files)
  {
    SplitJoin(SectionTexts(files), '\n');
    AnswerSplit(files);
  }

  /** The lines of an answer are the lines of its sections. */
  lemma LinesOfAnswer(files: seq<File>)
    requires AllCarried(files)
    ensures Lines(Answer(files)) == AnswerLines(files) && NoneShort(AnswerLines(files))
  {
    AnswerParts(files);
    AnswerVerbatim(files);
    LinesOfVerbatim(Answer(files), AnswerLines(files));
  }

  lemma {:induction false} StepsConcat(s: State, a: seq<string>, b: seq<string>)
    requires NoneShort(a + b) && NoneShort(a) && NoneShort(b)
    ensures Steps(s, a + b) == Steps(Steps(s, a), b)
    decreases |b|
  {
    if b == [] {
      assert a + b == a;
    } else {
      var n := |b| - 1;
      assert (a + b)[..|a + b| - 1] == a + b[..n];
      StepsConcat(s, a, b[..n]);
    }
  }

  /** A section's body lines accumulate into their joined text. */
  lemma {:induction false} BodySteps(s: State, body: seq<string>)
    requires s.current.Some? && s.content == "" && body != [] && body[0] != ""
    requires forall i :: 0 <= i < |body| ==> PlainLine(body[i])
    ensures NoneShort(body) && Steps(s, body) == s.(content := Join(body, "\n")) && Join(body, "\n") != ""
    decreases |body|
  {
    var n := |body| - 1;
    if n == 0 {
      assert body[..0] == [];
      assert Steps(s, body[..0]) == s;
    } else {
      BodySteps(s, body[..n]);
      JoinAppend(body[..n], "\n", body[n]);
      assert body == body[..n] + [body[n]];
    }
  }

  lemma SectionSteps(s: State, f: File)
    requires Carried(f)
    ensures NoneShort(SectionLines(f))
    ensures Steps(s, SectionLines(f)) == State(Opened(s), Some(f.name), f.content)
  {
    var body := Split(f.content, '\n');
    var header := [Header(f.name)];
    HeaderIsDelimiter(f.name);
    assert header[..0] == [] && Steps(s, header[..0]) == s;
    var entered := Steps(s, header);
    assert entered == State(Opened(s), Some(f.name), "");
    forall i | 0 <= i < |body| ensures PlainLine(body[i]) {
      assert body[i] in body;
    }
    if f.content == "" {
      assert body[..0] == [] && Steps(entered, body[..0]) == entered;
    } else {
      ContentEnds(f.content);
      BodySteps(entered, body);
      JoinSplit(f.content, '\n');
    }
    StepsConcat(s, header, body);
  }

  /** The files done once the next section opens. */
  function Opened(s: State): seq<File> {
    if s.current.Some? then s.done + [File(s.current.value, Trim(s.content))] else s.done
  }

  lemma SectionThen(s: State, f: File, lines: seq<string>)
    requires Carried(f) && NoneShort(lines)
    ensures NoneShort(SectionLines(f) + lines)
    ensures Steps(s, SectionLines(f) + lines) == Steps(State(Opened(s), Some(f.name), f.content), lines)
    ensures Opened(State(Opened(s), Some(f.name), f.content)) == Opened(s) + [f]
  {
    SectionSteps(s, f);
    var all := SectionLines(f) + lines;
    forall i | 0 <= i < |all| ensures !IsShort(all[i]) {
      assert all[i] == if i < |SectionLines(f)| then SectionLines(f)[i] else lines[i - |SectionLines(f)|];
    }
    StepsConcat(s, SectionLines(f), lines);
    TrimOfTrimmed(f.content);
  }

  lemma {:induction false} AnswerSteps(s: State, files: seq<File>)
    requires files != [] && forall i :: 0 <= i < |files| ==> Carried(files[i])
    ensures NoneShort(AnswerLines(files))
    ensures Steps(s, AnswerLines(files))
            == State(Opened(s) + files[..|files| - 1], Some(files[|files| - 1].name), files[|files| - 1].content)
    decreases |files|
  {
    var f, rest := files[0], files[1..];
    if rest == [] {
      SectionSteps(s, f);
      assert AnswerLines(files) == SectionLines(f);
      assert Opened(s) + files[..0] == Opened(s);
    } else {
      AnswerSteps(State(Opened(s), Some(f.name), f.content), rest);
      SectionThen(s, f, AnswerLines(rest));
      SkipFirst(Opened(s), files);
    }
  }

  lemma SkipFirst(before: seq<File>, files: seq<File>)
    requires |files| > 1
    ensures before + [files[0]] + files[1..][..|files| - 2] == before + files[..|files| - 1]
  {
    assert [files[0]] + files[1..][..|files| - 2] == files[..|files| - 1];
  }

  lemma CloseLast(files: seq<File>, s: State)
    requires files != [] && Carried(files[|files| - 1]) && files[|files| - 1].content != ""
    requires s == State(files[..|files| - 1], Some(files[|files| - 1].name), files[|files| - 1].content)
    ensures Close(s) == files
  {
    var n := |files| - 1;
    TrimOfTrimmed(files[n].content);
    assert files[..n] + [files[n]] == files;
  }

  lemma AnswerEnds(start: State, files: seq<File>)
    requires start.done == [] && start.current == None
    requires files != [] && forall i :: 0 <= i < |files| ==> Carried(files[i])
    ensures NoneShort(AnswerLines(files))
    ensures Steps(start, AnswerLines(files))
            == State(files[..|files| - 1], Some(files[|files| - 1].name), files[|files| - 1].content)
  {
    AnswerSteps(start, files);
    assert Opened(start) + files[..|files| - 1] == files[..|files| - 1];
  }

  lemma ScanAnswer(files: seq<File>)
    requires AllCarried(files)
    ensures NoneShort(AnswerLines(files)) && Close(Scan(AnswerLines(files))) == files
  {
    AnswerEnds(State([], None, ""), files);
    CloseLast(files, Scan(AnswerLines(files)));
  }

  /** Splitting a written answer gives its files back, whatever their names. */
  lemma SectionsRoundTrip(files: seq<File>)
    requires AllCarried(files)
    ensures NoneShort(Lines(Answer(files)))
    ensures Found(Answer(files)) == files
  {
    LinesOfAnswer(files);
    ScanAnswer(files);
  }

  lemma PickAtHead(files: seq<File>, n: nat)
    requires n < |files|
    ensures HasName(files[n..], files[n].name)
    ensures files[..n] + [FirstNamed(files[n..], files[n].name)] == files[..n + 1]
    ensures Taken(files[n..], files[n].name) == files[n + 1..]
  {
    assert files[n..] == [files[n]] + files[n + 1..];
    TakenAtHead(files[n], files[n + 1..]);
  }

  lemma {:induction false} PickInOrder(files: seq<File>, names: seq<string>)
    requires |names| <= |files| && forall i :: 0 <= i < |names| ==> files[i].name == names[i]
    ensures Pick(files, names) == (files[..|names|], files[|names|..])
    decreases |names|
  {
    if names != [] {
      var n := |names| - 1;
      PickInOrder(files, names[..n]);
      PickAtHead(files, n);
    }
  }

  lemma PickRejoins(files: seq<File>, names: seq<string>)
    requires |names| <= |files| && forall i :: 0 <= i < |names| ==> files[i].name == names[i]
    ensures Pick(files, names).0 + Pick(files, names).1 == files
  {
    PickInOrder(files, names);
    Rejoin(files, |names|);
  }

  lemma Rejoin(files: seq<File>, n: nat)
    requires n <= |files|
    ensures files[..n] + files[n..] == files
  {
  }

  lemma {:induction false} NothingMissing(files: seq<File>, defaults: seq<File>)
    requires forall i :: 0 <= i < |defaults| ==> HasName(files, defaults[i].name)
    ensures Fill(files, defaults) == files
    decreases |defaults|
  {
    if defaults != [] {
      NothingMissing(files, defaults[..|defaults| - 1]);
    }
  }

  lemma FilledStays(files: seq<File>, d: Defaults)
    requires |files| >= 4 && (forall i :: 0 <= i < 4 ==> files[i].name == EXPECTED[i])
    ensures Fill(files, DefaultFiles(d)) == files
  {
    var defaults := DefaultFiles(d);
    forall i | 0 <= i < |defaults| ensures HasName(files, defaults[i].name) {
      assert files[i].name == defaults[i].name;
    }
    NothingMissing(files, defaults);
  }

  lemma OrderedStays(files: seq<File>)
    requires |files| >= 4 && (forall i :: 0 <= i < 4 ==> files[i].name == EXPECTED[i])
    ensures Ordered(files) == files
  {
    PickRejoins(files, EXPECTED);
  }

  /** Parsing a written answer whose first files are the four expected ones gives the same list, extra
      files included. */
  lemma ResponseRoundTrip(files: seq<File>, d: Defaults)
    requires |files| >= 4 && (forall i :: 0 <= i < 4 ==> files[i].name == EXPECTED[i])
    requires AllCarried(files)
    ensures NoneShort(Lines(Answer(files))) && ParseFiles(Answer(files), d) == files
  {
    SectionsRoundTrip(files);
    FilledStays(files, d);
    OrderedStays(files);
  }
}
