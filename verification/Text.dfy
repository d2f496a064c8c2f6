/** Strings as the queue's small text languages use them: `trim`, `split`, `split_once`,
    `split_whitespace` and `join`, with the algebra that relates them. */
module Text {

  datatype Option<+T> = None | Some(value: T)

  /** The characters that count as white space: Unicode's White_Space property. */
  predicate IsWhitespace(c: char) {
    var n := c as int;
    9 <= n <= 13 || n == 0x20 || n == 0x85 || n == 0xA0 || n == 0x1680 || 0x2000 <= n <= 0x200A
    || n == 0x2028 || n == 0x2029 || n == 0x202F || n == 0x205F || n == 0x3000
  }

  predicate Blank(s: string) {
    forall i :: 0 <= i < |s| ==> IsWhitespace(s[i])
  }

  predicate Trimmed(s: string) {
    s == "" || (!IsWhitespace(s[0]) && !IsWhitespace(s[|s| - 1]))
  }

  predicate StartsWith(s: string, prefix: string) {
    |prefix| <= |s| && s[..|prefix|] == prefix
  }

  predicate EndsWith(s: string, suffix: string) {
    |suffix| <= |s| && s[|s| - |suffix|..] == suffix
  }

  // ---- trim ---------------------------------------------------------------

  function TrimStart(s: string): string {
    if s != "" && IsWhitespace(s[0]) then TrimStart(s[1..]) else s
  }

  function TrimEnd(s: string): string {
    if s != "" && IsWhitespace(s[|s| - 1]) then TrimEnd(s[..|s| - 1]) else s
  }

  function Trim(s: string): string {
    TrimEnd(TrimStart(s))
  }

  lemma {:induction false} TrimStartDropsBlank(a: string, t: string)
    requires Blank(a) && (t == "" || !IsWhitespace(t[0]))
    ensures TrimStart(a + t) == t
    decreases |a|
  {
    if a == "" {
      assert a + t == t;
    } else {
      assert (a + t)[1..] == a[1..] + t;
      TrimStartDropsBlank(a[1..], t);
    }
  }

  lemma {:induction false} TrimEndDropsBlank(t: string, b: string)
    requires Blank(b) && (t == "" || !IsWhitespace(t[|t| - 1]))
    ensures TrimEnd(t + b) == t
    decreases |b|
  {
    if b == "" {
      assert t + b == t;
    } else {
      assert (t + b)[..|t + b| - 1] == t + b[..|b| - 1];
      TrimEndDropsBlank(t, b[..|b| - 1]);
    }
  }

  /** `Trim` finds the trimmed core of any text that is padded with white space. */
  lemma TrimPadded(a: string, t: string, b: string)
    requires Blank(a) && Blank(b) && Trimmed(t)
    ensures Trim(a + t + b) == t
  {
    if t == "" {
      assert a + t + b == (a + b) + "";
      TrimStartDropsBlank(a + b, "");
    } else {
      assert a + t + b == a + (t + b);
      TrimStartDropsBlank(a, t + b);
      TrimEndDropsBlank(t, b);
    }
  }

  lemma TrimOfTrimmed(t: string)
    requires Trimmed(t)
    ensures Trim(t) == t
  {
    TrimPadded("", t, "");
    assert "" + t + "" == t;
  }

  lemma {:induction false} TrimStartDecomposes(s: string) returns (a: string)
    ensures Blank(a) && s == a + TrimStart(s)
    ensures TrimStart(s) == "" || !IsWhitespace(TrimStart(s)[0])
    decreases |s|
  {
    if s != "" && IsWhitespace(s[0]) {
      a := TrimStartDecomposes(s[1..]);
      a := [s[0]] + a;
    } else {
      a := "";
    }
  }

  lemma {:induction false} TrimEndDecomposes(s: string) returns (b: string)
    ensures Blank(b) && s == TrimEnd(s) + b
    ensures TrimEnd(s) == "" || !IsWhitespace(TrimEnd(s)[|TrimEnd(s)| - 1])
    decreases |s|
  {
    if s != "" && IsWhitespace(s[|s| - 1]) {
      b := TrimEndDecomposes(s[..|s| - 1]);
      b := b + [s[|s| - 1]];
      assert s == s[..|s| - 1] + [s[|s| - 1]];
    } else {
      b := "";
    }
  }

  /** Every text is its trimmed core between two blank stretches. */
  lemma TrimDecomposes(s: string) returns (a: string, b: string)
    ensures Blank(a) && Blank(b) && Trimmed(Trim(s)) && s == a + Trim(s) + b
  {
    a := TrimStartDecomposes(s);
    b := TrimEndDecomposes(TrimStart(s));
    var t := Trim(s);
    assert t != "" ==> t[0] == TrimStart(s)[0];
  }

  lemma TrimIsTrimmed(s: string)
    ensures Trimmed(Trim(s)) && |Trim(s)| <= |s|
    ensures forall c :: c in Trim(s) ==> c in s
  {
    var a, b := TrimDecomposes(s);
  }

  lemma TrimNonBlank(s: string, i: nat)
    requires i < |s| && !IsWhitespace(s[i])
    ensures Trim(s) != ""
  {
    var a, b := TrimDecomposes(s);
    assert Trim(s) == "" ==> s == a + b;
  }

  // ---- split and join -----------------------------------------------------

  /** `str::split` at a separator character: one part more than there are separators. */
  function Split(s: string, sep: char): (parts: seq<string>)
    ensures |parts| >= 1
  {
    if s == "" then [""]
    else if s[0] == sep then [""] + Split(s[1..], sep)
    else
      var rest := Split(s[1..], sep);
      [[s[0]] + rest[0]] + rest[1..]
  }

  function Join(parts: seq<string>, sep: string): string {
    if |parts| == 0 then ""
    else if |parts| == 1 then parts[0]
    else parts[0] + sep + Join(parts[1..], sep)
  }

  lemma {:induction false} JoinAppend(parts: seq<string>, sep: string, last: string)
    requires parts != []
    ensures Join(parts + [last], sep) == Join(parts, sep) + sep + last
    decreases |parts|
  {
    assert (parts + [last])[1..] == parts[1..] + [last];
    if |parts| > 1 {
      JoinAppend(parts[1..], sep, last);
    } else {
      assert parts[1..] + [last] == [last];
    }
  }

  lemma {:induction false} SplitParts(s: string, sep: char)
    ensures forall p :: p in Split(s, sep) ==> sep !in p
    decreases |s|
  {
    if s != "" {
      SplitParts(s[1..], sep);
      var rest := Split(s[1..], sep);
      assert rest[0] in rest;
      forall p | p in Split(s, sep) ensures sep !in p {
        if s[0] != sep && p == [s[0]] + rest[0] {
        } else if p != "" {
          assert p in rest;
        }
      }
    }
  }

  lemma {:induction false} SplitWithoutSeparator(s: string, sep: char)
    requires sep !in s
    ensures Split(s, sep) == [s]
    decreases |s|
  {
    if s != "" {
      SplitWithoutSeparator(s[1..], sep);
      assert s == [s[0]] + s[1..];
    }
  }

  /** Splitting distributes over a separator. */
  lemma {:induction false} SplitConcat(a: string, sep: char, b: string)
    ensures Split(a + [sep] + b, sep) == Split(a, sep) + Split(b, sep)
    decreases |a|
  {
    var whole := a + [sep] + b;
    if a == "" {
      assert whole[1..] == b;
    } else {
      assert whole[1..] == a[1..] + [sep] + b;
      SplitConcat(a[1..], sep, b);
    }
  }

  lemma {:induction false} JoinSplit(s: string, sep: char)
    ensures Join(Split(s, sep), [sep]) == s
    decreases |s|
  {
    if s != "" {
      JoinSplit(s[1..], sep);
      var rest := Split(s[1..], sep);
      if s[0] == sep {
        assert ([""] + rest)[1..] == rest;
      } else {
        assert ([[s[0]] + rest[0]] + rest[1..])[1..] == rest[1..];
      }
      assert s == [s[0]] + s[1..];
    }
  }

  /** The parts of every element, in order. */
  function SplitEach(parts: seq<string>, sep: char): seq<string> {
    if parts == [] then [] else Split(parts[0], sep) + SplitEach(parts[1..], sep)
  }

  lemma SplitEachHead(head: string, rest: seq<string>, sep: char)
    ensures SplitEach([head] + rest, sep) == Split(head, sep) + SplitEach(rest, sep)
  {
    assert ([head] + rest)[1..] == rest;
  }

  /** Splitting a joined text splits every element in place, whatever the elements hold. */
  lemma {:induction false} SplitJoin(parts: seq<string>, sep: char)
    requires parts != []
    ensures Split(Join(parts, [sep]), sep) == SplitEach(parts, sep)
    decreases |parts|
  {
    if |parts| == 1 {
      assert SplitEach(parts[1..], sep) == [];
    } else {
      SplitConcat(parts[0], sep, Join(parts[1..], [sep]));
      SplitJoin(parts[1..], sep);
    }
  }

  lemma {:induction false} SplitEachConcat(a: seq<string>, b: seq<string>, sep: char)
    ensures SplitEach(a + b, sep) == SplitEach(a, sep) + SplitEach(b, sep)
    decreases |a|
  {
    if a == [] {
      assert a + b == b;
    } else {
      assert (a + b)[1..] == a[1..] + b;
      SplitEachConcat(a[1..], b, sep);
    }
  }

  lemma {:induction false} SplitEachParts(parts: seq<string>, sep: char)
    ensures forall p :: p in SplitEach(parts, sep) ==> sep !in p
    decreases |parts|
  {
    if parts != [] {
      SplitParts(parts[0], sep);
      SplitEachParts(parts[1..], sep);
    }
  }

  lemma {:induction false} SplitEachClean(parts: seq<string>, sep: char)
    requires forall p :: p in parts ==> sep !in p
    ensures SplitEach(parts, sep) == parts
    decreases |parts|
  {
    if parts != [] {
      assert parts[0] in parts;
      SplitWithoutSeparator(parts[0], sep);
      SplitEachClean(parts[1..], sep);
    }
  }

  lemma {:induction false} SplitEachHas(parts: seq<string>, sep: char, p: string)
    requires p in parts && sep !in p
    ensures p in SplitEach(parts, sep)
    decreases |parts|
  {
    if parts[0] == p {
      SplitWithoutSeparator(p, sep);
    } else {
      SplitEachHas(parts[1..], sep, p);
    }
  }

  /** `str::split_once`: the text before and after the first separator. */
  function SplitOnce(s: string, sep: char): Option<(string, string)> {
    if s == "" then None
    else if s[0] == sep then Some(("", s[1..]))
    else
      match SplitOnce(s[1..], sep)
      case None => None
      case Some((a, b)) => Some(([s[0]] + a, b))
  }

  lemma {:induction false} SplitOnceAt(a: string, sep: char, b: string)
    requires sep !in a
    ensures SplitOnce(a + [sep] + b, sep) == Some((a, b))
    decreases |a|
  {
    var whole := a + [sep] + b;
    if a == "" {
      assert whole[1..] == b;
    } else {
      assert whole[1..] == a[1..] + [sep] + b;
      SplitOnceAt(a[1..], sep, b);
      assert a == [a[0]] + a[1..];
    }
  }

  lemma {:induction false} SplitOnceMeaning(s: string, sep: char)
    ensures SplitOnce(s, sep).None? ==> sep !in s
    ensures SplitOnce(s, sep).Some? ==>
              var (a, b) := SplitOnce(s, sep).value; sep !in a && s == a + [sep] + b
    decreases |s|
  {
    if s != "" && s[0] != sep {
      SplitOnceMeaning(s[1..], sep);
      assert s == [s[0]] + s[1..];
    }
  }

  lemma {:induction false} SplitOnceMissing(s: string, sep: char)
    requires sep !in s
    ensures SplitOnce(s, sep) == None
    decreases |s|
  {
    if s != "" {
      SplitOnceMissing(s[1..], sep);
    }
  }

  // ---- split_whitespace ---------------------------------------------------

  function WordLength(s: string): (n: nat)
    ensures n <= |s|
    ensures forall i :: 0 <= i < n ==> !IsWhitespace(s[i])
    ensures n < |s| ==> IsWhitespace(s[n])
  {
    if s == "" || IsWhitespace(s[0]) then 0 else 1 + WordLength(s[1..])
  }

  /** `str::split_whitespace`: the maximal runs of other characters. */
  function Words(s: string): seq<string>
    decreases |s|
  {
    if s == "" then []
    else if IsWhitespace(s[0]) then Words(s[1..])
    else
      var n := WordLength(s);
      [s[..n]] + Words(s[n..])
  }

  predicate IsWord(w: string) {
    w != "" && forall i :: 0 <= i < |w| ==> !IsWhitespace(w[i])
  }

  lemma {:induction false} WordsCons(w: string, gap: char, rest: string)
    requires IsWord(w) && IsWhitespace(gap)
    ensures Words(w + [gap] + rest) == [w] + Words(rest)
  {
    var s := w + [gap] + rest;
    var n := WordLength(s);
    assert s[|w|] == gap;
    assert forall i :: 0 <= i < |w| ==> s[i] == w[i];
    assert s[..n] == w;
    assert s[n..] == [gap] + rest;
    assert ([gap] + rest)[1..] == rest;
  }

  lemma {:induction false} WordsSingle(w: string)
    requires IsWord(w)
    ensures Words(w) == [w]
  {
    var n := WordLength(w);
    assert n == |w|;
    assert w[..n] == w && w[n..] == "";
  }

  lemma {:induction false} WordsJoin(ws: seq<string>)
    requires forall i :: 0 <= i < |ws| ==> IsWord(ws[i])
    ensures Words(Join(ws, " ")) == ws
    decreases |ws|
  {
    if |ws| == 1 {
      WordsSingle(ws[0]);
    } else if |ws| > 1 {
      WordsJoin(ws[1..]);
      WordsCons(ws[0], ' ', Join(ws[1..], " "));
      assert ws == [ws[0]] + ws[1..];
    }
  }

  /** A word and the white space in front of it. */
  datatype Spaced = Spaced(gap: string, word: string)

  function SpacedText(ws: seq<Spaced>): string {
    if ws == [] then "" else ws[0].gap + ws[0].word + SpacedText(ws[1..])
  }

  function SpacedWords(ws: seq<Spaced>): seq<string> {
    if ws == [] then [] else [ws[0].word] + SpacedWords(ws[1..])
  }

  lemma {:induction false} WordsAfterBlank(gap: string, rest: string)
    requires Blank(gap)
    ensures Words(gap + rest) == Words(rest)
    decreases |gap|
  {
    if gap == "" {
      assert gap + rest == rest;
    } else {
      assert (gap + rest)[1..] == gap[1..] + rest;
      WordsAfterBlank(gap[1..], rest);
    }
  }

  lemma WordsTaken(w: string, rest: string)
    requires IsWord(w) && (rest == "" || IsWhitespace(rest[0]))
    ensures Words(w + rest) == [w] + Words(rest)
  {
    var s := w + rest;
    var n := WordLength(s);
    assert forall i :: 0 <= i < |w| ==> s[i] == w[i];
    assert rest != "" ==> s[|w|] == rest[0];
    assert n == |w|;
    assert s[..n] == w && s[n..] == rest;
  }

  /** Whatever white space stands around and between words, splitting at it gives the words. */
  lemma {:induction false} WordsMeaning(ws: seq<Spaced>, tail: string)
    requires Blank(tail) && forall i :: 0 <= i < |ws| ==> Blank(ws[i].gap) && IsWord(ws[i].word)
    requires forall i :: 1 <= i < |ws| ==> ws[i].gap != ""
    ensures Words(SpacedText(ws) + tail) == SpacedWords(ws)
    decreases |ws|
  {
    if ws == [] {
      WordsAfterBlank(tail, "");
      assert SpacedText(ws) + tail == tail + "";
    } else {
      var rest := SpacedText(ws[1..]) + tail;
      WordsMeaning(ws[1..], tail);
      assert SpacedText(ws) + tail == ws[0].gap + (ws[0].word + rest);
      WordsAfterBlank(ws[0].gap, ws[0].word + rest);
      if |ws| > 1 {
        assert rest[0] == ws[1].gap[0];
      }
      WordsTaken(ws[0].word, rest);
    }
  }
}
