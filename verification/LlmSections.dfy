/** Which sections of an arbitrary answer are kept: one for every delimiter line, with the lines up
    to the next one as its content. */
module LlmSections {
  import opened Sequences
  import opened Text
  import opened LlmResponse
  import opened LlmResponseLaws

  // ---- positions ----------------------------------------------------------

  /** The positions that carry a name. */
  function Openings(names: seq<Option<string>>): seq<nat> {
    if names == [] then []
    else
      var n := |names| - 1;
      Openings(names[..n]) + if names[n].Some? then [n] else []
  }

  ghost predicate AreOpenings(names: seq<Option<string>>, ds: seq<nat>) {
    Increasing(ds) && forall i :: i in ds <==> 0 <= i < |names| && names[i].Some?
  }

  lemma OneMoreOpening(names: seq<Option<string>>, ds: seq<nat>, name: Option<string>)
    requires AreOpenings(names, ds)
    ensures AreOpenings(names + [name], ds + if name.Some? then [|names|] else [])
  {
    var last := if name.Some? then [|names|] else [];
    assert forall k :: 0 <= k < |ds| ==> ds[k] in ds;
    forall i ensures i in ds + last <==> 0 <= i < |names + [name]| && (names + [name])[i].Some? {
      assert i in last <==> i == |names| && name.Some?;
    }
  }

  lemma {:induction false} OpeningsMeaning(names: seq<Option<string>>)
    ensures AreOpenings(names, Openings(names))
    decreases |names|
  {
    if names != [] {
      var n := |names| - 1;
      OpeningsMeaning(names[..n]);
      OneMoreOpening(names[..n], Openings(names[..n]), names[n]);
      assert names[..n] + [names[n]] == names;
    }
  }

  /** A name, and the lines up to the next name. */
  datatype Block = Block(name: string, body: seq<string>)

  /** Positions of names, in order. */
  predicate InOrder(names: seq<Option<string>>, ds: seq<nat>) {
    Increasing(ds) && forall k :: 0 <= k < |ds| ==> ds[k] < |names| && names[ds[k]].Some?
  }

  /** From behind the `k`-th opening to the next one, or to the end. */
  function BlockOf(names: seq<Option<string>>, lines: seq<string>, ds: seq<nat>, k: nat): Block
    requires |names| == |lines| && InOrder(names, ds) && k < |ds|
  {
    Block(names[ds[k]].value, lines[ds[k] + 1..if k + 1 < |ds| then ds[k + 1] else |lines|])
  }

  lemma OpeningsInOrder(names: seq<Option<string>>)
    ensures InOrder(names, Openings(names))
  {
    var ds := Openings(names);
    OpeningsMeaning(names);
    forall k | 0 <= k < |ds| ensures ds[k] < |names| && names[ds[k]].Some? {
      assert ds[k] in ds;
    }
  }

  /** The `k`-th block of a text. */
  function BlockAt(names: seq<Option<string>>, lines: seq<string>, k: nat): Block
    requires |names| == |lines| && k < |Openings(names)|
  {
    OpeningsInOrder(names);
    BlockOf(names, lines, Openings(names), k)
  }

  /** A further line belongs to the last block. */
  function Carry(bs: seq<Block>, line: string): (more: seq<Block>)
    ensures |more| == |bs|
  {
    if bs == [] then []
    else
      var m := |bs| - 1;
      bs[..m] + [Block(bs[m].name, bs[m].body + [line])]
  }

  /** The blocks as a scan builds them, line by line. */
  function Blocks(names: seq<Option<string>>, lines: seq<string>): seq<Block>
    requires |names| == |lines|
  {
    if lines == [] then []
    else
      var n := |lines| - 1;
      var bs := Blocks(names[..n], lines[..n]);
      if names[n].Some? then bs + [Block(names[n].value, [])] else Carry(bs, lines[n])
  }

  lemma BlockStays(names: seq<Option<string>>, lines: seq<string>, ds: seq<nat>, k: nat,
                   name: Option<string>, line: string, es: seq<nat>)
    requires |names| == |lines| && InOrder(names, ds) && InOrder(names + [name], ds + es)
    requires k < |ds| && (k + 1 < |ds| || (es != [] && es[0] == |lines|))
    ensures BlockOf(names + [name], lines + [line], ds + es, k) == BlockOf(names, lines, ds, k)
  {
    var d := ds[k];
    var end := (ds + es)[k + 1];
    assert end <= |lines|;
    assert (lines + [line])[d + 1..end] == lines[d + 1..end];
    assert lines[d + 1..|lines|] == lines[d + 1..];
  }

  lemma BlockExtends(names: seq<Option<string>>, lines: seq<string>, ds: seq<nat>, k: nat, line: string)
    requires |names| == |lines| && InOrder(names, ds) && InOrder(names + [None], ds) && k + 1 == |ds|
    ensures var b := BlockOf(names, lines, ds, k);
            BlockOf(names + [None], lines + [line], ds, k) == Block(b.name, b.body + [line])
  {
    assert (lines + [line])[ds[k] + 1..] == lines[ds[k] + 1..] + [line];
  }

  /** `bs` are the blocks between the openings at `ds`. */
  predicate AreBlocks(names: seq<Option<string>>, lines: seq<string>, ds: seq<nat>, bs: seq<Block>)
    requires |names| == |lines| && InOrder(names, ds)
  {
    |bs| == |ds| && forall k :: 0 <= k < |ds| ==> bs[k] == BlockOf(names, lines, ds, k)
  }

  lemma BlocksOpen(names: seq<Option<string>>, lines: seq<string>, ds: seq<nat>, bs: seq<Block>,
                   name: string, line: string)
    requires |names| == |lines| && InOrder(names, ds) && AreBlocks(names, lines, ds, bs)
    ensures InOrder(names + [Some(name)], ds + [|lines|])
    ensures AreBlocks(names + [Some(name)], lines + [line], ds + [|lines|], bs + [Block(name, [])])
  {
    assert InOrder(names + [Some(name)], ds + [|lines|]);
    forall k | 0 <= k <= |ds|
      ensures (bs + [Block(name, [])])[k] == BlockOf(names + [Some(name)], lines + [line], ds + [|lines|], k)
    {
      if k < |ds| {
        BlockStays(names, lines, ds, k, Some(name), line, [|lines|]);
      }
    }
  }

  lemma BlocksCarry(names: seq<Option<string>>, lines: seq<string>, ds: seq<nat>, bs: seq<Block>, line: string)
    requires |names| == |lines| && InOrder(names, ds) && AreBlocks(names, lines, ds, bs)
    ensures InOrder(names + [None], ds)
    ensures AreBlocks(names + [None], lines + [line], ds, Carry(bs, line))
  {
    assert InOrder(names + [None], ds);
    forall k | 0 <= k < |ds| ensures Carry(bs, line)[k] == BlockOf(names + [None], lines + [line], ds, k) {
      if k + 1 < |ds| {
        BlockStays(names, lines, ds, k, None, line, []);
        assert ds + [] == ds;
      } else {
        BlockExtends(names, lines, ds, k, line);
      }
    }
  }

  lemma BlocksStep(names: seq<Option<string>>, lines: seq<string>, ds: seq<nat>, bs: seq<Block>,
                   name: Option<string>, line: string)
    requires |names| == |lines| && InOrder(names, ds) && AreBlocks(names, lines, ds, bs)
    ensures InOrder(names + [name], ds + if name.Some? then [|lines|] else [])
    ensures AreBlocks(names + [name], lines + [line], ds + if name.Some? then [|lines|] else [],
                      if name.Some? then bs + [Block(name.value, [])] else Carry(bs, line))
  {
    if name.Some? {
      BlocksOpen(names, lines, ds, bs, name.value, line);
    } else {
      BlocksCarry(names, lines, ds, bs, line);
      assert ds + [] == ds;
    }
  }

  lemma Unsnoc<T>(s: seq<T>)
    requires s != []
    ensures s[..|s| - 1] + [s[|s| - 1]] == s
  {
  }

  /** The scan's blocks are the ones between consecutive openings. */
  lemma {:induction false} BlocksMeaning(names: seq<Option<string>>, lines: seq<string>)
    requires |names| == |lines|
    ensures InOrder(names, Openings(names)) && AreBlocks(names, lines, Openings(names), Blocks(names, lines))
    decreases |lines|
  {
    if lines != [] {
      var n := |lines| - 1;
      BlocksMeaning(names[..n], lines[..n]);
      Unsnoc(names);
      Unsnoc(lines);
      BlocksStep(names[..n], lines[..n], Openings(names[..n]), Blocks(names[..n], lines[..n]), names[n], lines[n]);
    }
  }

  // ---- content ------------------------------------------------------------

  /** What a scan makes of a body: its lines joined, less the empty lines in front. */
  function Content(body: seq<string>): string {
    if body == [] then "" else AddLine(Content(body[..|body| - 1]), body[|body| - 1])
  }

  lemma BlankBefore(pad: string, text: string)
    requires Blank(pad)
    ensures Trim(pad + text) == Trim(text)
  {
    var a, b := TrimDecomposes(text);
    TrimPadded(pad + a, Trim(text), b);
    assert pad + text == pad + a + Trim(text) + b;
  }

  lemma AddLinePads(pad: string, content: string, line: string) returns (more: string)
    requires Blank(pad)
    ensures Blank(more) && pad + content + "\n" + line == more + AddLine(content, line)
  {
    if content == "" {
      more := pad + "\n";
    } else {
      more := pad;
      assert pad + content + "\n" + line == pad + (content + "\n" + line);
    }
  }

  lemma {:induction false} ContentPads(body: seq<string>) returns (pad: string)
    ensures Blank(pad) && Join(body, "\n") == pad + Content(body)
    decreases |body|
  {
    if |body| <= 1 {
      pad := "";
      assert body != [] ==> body[..0] == [];
    } else {
      var front, last := body[..|body| - 1], body[|body| - 1];
      pad := ContentPads(front);
      JoinAppend(front, "\n", last);
      assert body == front + [last];
      pad := AddLinePads(pad, Content(front), last);
    }
  }

  lemma ContentTrimmed(body: seq<string>)
    ensures Trim(Content(body)) == Trim(Join(body, "\n"))
  {
    var pad := ContentPads(body);
    BlankBefore(pad, Content(body));
  }

  // ---- the scan -----------------------------------------------------------

  /** The name on each delimiter line. */
  function HeaderNames(lines: seq<string>): (names: seq<Option<string>>)
    requires NoneShort(lines)
    ensures |names| == |lines|
    ensures forall i :: 0 <= i < |lines| ==>
              names[i] == if IsDelimiter(lines[i]) then Some(NameOf(lines[i])) else None
  {
    seq(|lines|, i requires 0 <= i < |lines| => if IsDelimiter(lines[i]) then Some(NameOf(lines[i])) else None)
  }

  function SectionFile(b: Block): File {
    File(b.name, Trim(Join(b.body, "\n")))
  }

  function SectionFiles(bs: seq<Block>): (files: seq<File>)
    ensures |files| == |bs| && forall k :: 0 <= k < |bs| ==> files[k] == SectionFile(bs[k])
  {
    seq(|bs|, k requires 0 <= k < |bs| => SectionFile(bs[k]))
  }

  /** The state of a scan: every block but the last is done, and the last is open. */
  ghost predicate Scanned(bs: seq<Block>, s: State) {
    if bs == [] then s == State([], None, "")
    else
      var m := |bs| - 1;
      s == State(SectionFiles(bs[..m]), Some(bs[m].name), Content(bs[m].body))
  }

  lemma ScannedOpens(bs: seq<Block>, s: State, name: string)
    requires Scanned(bs, s)
    ensures Scanned(bs + [Block(name, [])], State(Opened(s), Some(name), ""))
  {
    assert (bs + [Block(name, [])])[..|bs|] == bs;
    if bs != [] {
      var m := |bs| - 1;
      ContentTrimmed(bs[m].body);
      assert SectionFiles(bs) == SectionFiles(bs[..m]) + [SectionFile(bs[m])];
    }
  }

  lemma ScannedCarries(bs: seq<Block>, s: State, line: string)
    requires Scanned(bs, s) && bs != []
    ensures Scanned(Carry(bs, line), s.(content := AddLine(s.content, line)))
  {
    var m := |bs| - 1;
    assert Carry(bs, line)[..m] == bs[..m];
    var body := bs[m].body;
    assert (body + [line])[..|body|] == body;
  }

  lemma {:induction false} ScanDenotation(lines: seq<string>)
    requires NoneShort(lines)
    ensures Scanned(Blocks(HeaderNames(lines), lines), Scan(lines))
    decreases |lines|
  {
    if lines != [] {
      var n := |lines| - 1;
      ScanDenotation(lines[..n]);
      var names := HeaderNames(lines);
      assert names[..n] == HeaderNames(lines[..n]);
      NoneShortMore(lines, n);
      assert lines[..n + 1] == lines;
      ScanLine(Blocks(names[..n], lines[..n]), Scan(lines[..n]), lines[n]);
    }
  }

  lemma ScanLine(bs: seq<Block>, s: State, line: string)
    requires Scanned(bs, s) && !IsShort(line)
    ensures IsDelimiter(line) ==> Scanned(bs + [Block(NameOf(line), [])], Step(s, line))
    ensures !IsDelimiter(line) ==> Scanned(Carry(bs, line), Step(s, line))
  {
    if IsDelimiter(line) {
      ScannedOpens(bs, s, NameOf(line));
    } else if bs != [] {
      ScannedCarries(bs, s, line);
    }
  }

  /** The blocks kept: all but a last one without content. */
  function Kept(bs: seq<Block>): seq<Block> {
    if bs != [] && Trim(Join(bs[|bs| - 1].body, "\n")) == "" then bs[..|bs| - 1] else bs
  }

  lemma CloseScanned(bs: seq<Block>, s: State)
    requires Scanned(bs, s)
    ensures Close(s) == SectionFiles(Kept(bs))
  {
    if bs != [] {
      var m := |bs| - 1;
      ContentTrimmed(bs[m].body);
      assert SectionFiles(bs) == SectionFiles(bs[..m]) + [SectionFile(bs[m])];
    }
  }

  /** The blocks of an answer's lines. */
  function LineBlocks(lines: seq<string>): (bs: seq<Block>)
    requires NoneShort(lines)
    ensures |bs| == |Openings(HeaderNames(lines))|
    ensures forall k :: 0 <= k < |bs| ==> bs[k] == BlockAt(HeaderNames(lines), lines, k)
  {
    BlocksMeaning(HeaderNames(lines), lines);
    Blocks(HeaderNames(lines), lines)
  }

  /** For every list of lines: the files found are the blocks between the delimiter lines, in order,
      each with its trimmed lines as content. Only what stands before the first delimiter, and a last
      block without content, is dropped. */
  lemma SectionsFound(lines: seq<string>)
    requires NoneShort(lines)
    ensures AreOpenings(HeaderNames(lines), Openings(HeaderNames(lines)))
    ensures Close(Scan(lines)) == SectionFiles(Kept(LineBlocks(lines)))
  {
    OpeningsMeaning(HeaderNames(lines));
    ScanDenotation(lines);
    CloseScanned(Blocks(HeaderNames(lines), lines), Scan(lines));
  }

  lemma {:induction false} NothingOpened(lines: seq<string>)
    requires forall i :: 0 <= i < |lines| ==> !IsDelimiter(lines[i])
    ensures NoneShort(lines) && Scan(lines) == State([], None, "")
    decreases |lines|
  {
    if lines != [] {
      NothingOpened(lines[..|lines| - 1]);
    }
  }

  /** Lines in front of the first delimiter leave no trace in the files found. */
  lemma PreambleDropped(preamble: seq<string>, lines: seq<string>)
    requires NoneShort(lines) && forall i :: 0 <= i < |preamble| ==> !IsDelimiter(preamble[i])
    ensures NoneShort(preamble + lines) && Close(Scan(preamble + lines)) == Close(Scan(lines))
  {
    NothingOpened(preamble);
    var all := preamble + lines;
    forall i | 0 <= i < |all| ensures !IsShort(all[i]) {
      assert all[i] == if i < |preamble| then preamble[i] else lines[i - |preamble|];
    }
    StepsConcat(State([], None, ""), preamble, lines);
  }

  /** What parsing makes of any answer without a bare delimiter: the kept sections, or else the whole
      answer as the project file, and the defaults for the names they lack, rearranged with the four
      expected files in front. */
  lemma ParseDenotation(response: string, d: Defaults)
    requires NoneShort(Lines(response))
    ensures var kept := SectionFiles(Kept(LineBlocks(Lines(response))));
            var found := if kept != [] || Trim(response) == "" then kept else [File("project.md", Trim(response))];
            && Found(response) == found
            && IsArranged(ParseFiles(response, d), found + Missing(found, DefaultFiles(d)))
  {
    SectionsFound(Lines(response));
    ParseConserves(response, d);
  }
}
