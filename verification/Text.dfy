/** String operations the SDP helpers are built from: lines, words, joins and reverse search. */
module Text {
  import opened Prelude

  // ---- Characters ----

  /** ASCII white space. */
  predicate IsAsciiSpace(c: char) {
    c in {' ', '\t', '\n', '\r', '\U{000C}'}
  }

  /** Unicode white space. */
  predicate IsSpace(c: char) {
    IsAsciiSpace(c) || c in {'\U{000B}', '\U{0085}', '\U{00A0}', '\U{1680}', '\U{2028}', '\U{2029}', '\U{202F}', '\U{205F}', '\U{3000}'}
    || '\U{2000}' <= c <= '\U{200A}'
  }

  predicate Blank(s: string) {
    forall i :: 0 <= i < |s| ==> IsAsciiSpace(s[i])
  }

  function ToLower(c: char): char {
    if 'A' <= c <= 'Z' then ((c as int) + 32) as char else c
  }

  function Lower(s: string): string {
    seq(|s|, i requires 0 <= i < |s| => ToLower(s[i]))
  }

  /** Without trailing white space. */
  function TrimEnd(s: string): string {
    if s != [] && IsSpace(s[|s| - 1]) then TrimEnd(s[..|s| - 1]) else s
  }

  /** The same text but for the case of ASCII letters. */
  predicate SameIgnoringCase(s: string, t: string) {
    |s| == |t| && forall i :: 0 <= i < |s| ==>
      || s[i] == t[i]
      || ('A' <= s[i] <= 'Z' && t[i] as int == s[i] as int + 32)
      || ('A' <= t[i] <= 'Z' && s[i] as int == t[i] as int + 32)
  }

  /** Folding tells texts apart exactly when they differ in more than the case of ASCII letters. */
  lemma LowerFoldsExactly(s: string, t: string)
    ensures Lower(s) == Lower(t) <==> SameIgnoringCase(s, t)
  {
    if Lower(s) == Lower(t) {
      assert forall i :: 0 <= i < |s| ==> Lower(s)[i] == ToLower(s[i]) && Lower(t)[i] == ToLower(t[i]);
    }
  }

  predicate AllSpace(s: string) {
    forall i :: 0 <= i < |s| ==> IsSpace(s[i])
  }

  /** Trimming leaves what white space follows, and no white space at its end. */
  lemma {:induction false} TrimEndExactly(s: string)
    ensures var t := TrimEnd(s);
            && t <= s && AllSpace(s[|t|..]) && (t != [] ==> !IsSpace(t[|t| - 1]))
  {
    if s != [] && IsSpace(s[|s| - 1]) {
      TrimEndExactly(s[..|s| - 1]);
      var t := TrimEnd(s);
      assert s[|t|..] == s[..|s| - 1][|t|..] + [s[|s| - 1]];
    }
  }

  // ---- Lines ----

  /** The index of the first `c`, or the length. */
  function IndexOf(s: string, c: char): (i: nat)
    ensures i <= |s| && (i < |s| ==> s[i] == c)
    ensures forall j :: 0 <= j < i ==> s[j] != c
  {
    if s == [] then 0 else if s[0] == c then 0 else 1 + IndexOf(s[1..], c)
  }

  /** One carriage return at the end belongs to the line ending. */
  function StripCr(l: string): string {
    if l != [] && l[|l| - 1] == '\r' then l[..|l| - 1] else l
  }

  function NonEmpty(l: string): seq<string> {
    if l == [] then [] else [l]
  }

  /** The non-empty lines of a text, without their endings. */
  function Lines(s: string): seq<string>
    decreases |s|
  {
    var i := IndexOf(s, '\n');
    if i == |s| then NonEmpty(StripCr(s))
    else NonEmpty(StripCr(s[..i])) + Lines(s[i + 1..])
  }

  const CRLF: string := "\r\n"
  const LF: string := "\n"

  predicate CrLfAt(s: string, i: int) {
    0 <= i && i + 2 <= |s| && s[i] == '\r' && s[i + 1] == '\n'
  }

  predicate HasCrLf(s: string) {
    exists i :: 0 <= i < |s| && CrLfAt(s, i)
  }

  /** The line ending a rewritten text gets. */
  function Eol(s: string): string {
    if HasCrLf(s) then CRLF else LF
  }

  /** Every line followed by the line ending. */
  function Emit(lines: seq<string>, eol: string): string {
    if lines == [] then [] else lines[0] + eol + Emit(lines[1..], eol)
  }

  lemma {:induction false} EmitAppend(lines: seq<string>, l: string, eol: string)
    ensures Emit(lines + [l], eol) == Emit(lines, eol) + l + eol
  {
    if lines == [] {
      assert lines + [l] == [l];
      assert Emit([l], eol) == l + eol + Emit([], eol);
    } else {
      assert (lines + [l])[1..] == lines[1..] + [l];
      EmitAppend(lines[1..], l, eol);
    }
  }

  ghost predicate EndsInCr(l: string) {
    l != [] && l[|l| - 1] == '\r'
  }

  /** A line that survives being emitted with `eol` and split again. */
  ghost predicate Survives(l: string, eol: string) {
    l != [] && '\n' !in l && (eol == CRLF || !EndsInCr(l))
  }

  ghost predicate AllSurvive(lines: seq<string>, eol: string) {
    forall i :: 0 <= i < |lines| ==> Survives(lines[i], eol)
  }

  lemma FirstNewline(l: string, rest: string)
    requires '\n' !in l
    ensures IndexOf(l + LF + rest, '\n') == |l|
  {
    var s := l + LF + rest;
    assert s[|l|] == '\n';
    assert forall j :: 0 <= j < |l| ==> s[j] == l[j] && l[j] in l;
  }

  lemma LinesAtNewline(l: string, rest: string)
    requires '\n' !in l
    ensures Lines(l + LF + rest) == NonEmpty(StripCr(l)) + Lines(rest)
  {
    var s := l + LF + rest;
    FirstNewline(l, rest);
    assert s[..|l|] == l && s[|l| + 1..] == rest;
  }

  lemma FirstLine(l: string, eol: string, rest: string)
    requires Survives(l, eol) && eol in {CRLF, LF}
    ensures Lines(l + eol + rest) == [l] + Lines(rest)
  {
    var first := if eol == CRLF then l + "\r" else l;
    assert l + eol + rest == first + LF + rest;
    LinesAtNewline(first, rest);
    assert StripCr(first) == l;
  }

  /** Splitting recovers exactly the emitted lines, under either line ending. */
  lemma {:induction false} LinesOfEmit(lines: seq<string>, eol: string)
    requires eol in {CRLF, LF} && AllSurvive(lines, eol)
    ensures Lines(Emit(lines, eol)) == lines
  {
    if lines != [] {
      var rest := lines[1..];
      assert lines == [lines[0]] + rest;
      assert forall i :: 0 <= i < |rest| ==> rest[i] == lines[i + 1];
      FirstLine(lines[0], eol, Emit(rest, eol));
      LinesOfEmit(rest, eol);
    }
  }

  /** Every chunk followed by a line ending of its own. */
  function EmitEach(chunks: seq<string>, eols: seq<string>): string
    requires |eols| == |chunks|
  {
    if chunks == [] then [] else chunks[0] + eols[0] + EmitEach(chunks[1..], eols[1..])
  }

  function NonEmpties(chunks: seq<string>): seq<string> {
    if chunks == [] then [] else NonEmpty(chunks[0]) + NonEmpties(chunks[1..])
  }

  /** Splitting finds the non-empty lines of a text with any mix of line endings and empty lines. */
  lemma {:induction false} LinesOfMixed(chunks: seq<string>, eols: seq<string>)
    requires |eols| == |chunks| && forall i :: 0 <= i < |chunks| ==>
               eols[i] in {CRLF, LF} && '\n' !in chunks[i] && (eols[i] == CRLF || !EndsInCr(chunks[i]))
    ensures Lines(EmitEach(chunks, eols)) == NonEmpties(chunks)
  {
    if chunks != [] {
      var rest := EmitEach(chunks[1..], eols[1..]);
      FirstChunk(chunks[0], eols[0], rest);
      LinesOfMixed(chunks[1..], eols[1..]);
    }
  }

  lemma FirstChunk(l: string, eol: string, rest: string)
    requires eol in {CRLF, LF} && '\n' !in l && (eol == CRLF || !EndsInCr(l))
    ensures Lines(l + eol + rest) == NonEmpty(l) + Lines(rest)
  {
    var first := if eol == CRLF then l + "\r" else l;
    assert l + eol + rest == first + LF + rest;
    LinesAtNewline(first, rest);
    assert StripCr(first) == l;
  }

  /** No line that splitting returns is empty or contains a newline. */
  lemma {:induction false} LinesAreLines(s: string)
    ensures forall l :: l in Lines(s) ==> l != [] && '\n' !in l
    decreases |s|
  {
    var i := IndexOf(s, '\n');
    if i < |s| {
      LinesAreLines(s[i + 1..]);
    }
    var first := StripCr(s[..i]);
    assert '\n' !in s[..i];
  }

  lemma CrLfPastLine(l: string, rest: string)
    requires '\n' !in l && !EndsInCr(l)
    ensures HasCrLf(l + LF + rest) <==> HasCrLf(rest)
  {
    var s := l + LF + rest;
    var n := |l| + 1;
    assert s[|l|] == '\n';
    assert forall i :: 0 <= i < |l| ==> s[i] == l[i] && l[i] in l;
    assert forall i :: 0 <= i < |rest| ==> s[n + i] == rest[i];
    if HasCrLf(s) {
      var i :| 0 <= i < |s| && CrLfAt(s, i);
      assert i >= n;
      assert CrLfAt(rest, i - n);
    }
    if HasCrLf(rest) {
      var i :| 0 <= i < |rest| && CrLfAt(rest, i);
      assert CrLfAt(s, n + i);
    }
  }

  /** The line ending is recovered from the emitted text. */
  lemma {:induction false} EolOfEmit(lines: seq<string>, eol: string)
    requires eol in {CRLF, LF} && AllSurvive(lines, eol)
    ensures HasCrLf(Emit(lines, eol)) <==> eol == CRLF && lines != []
  {
    if lines != [] {
      var l, rest := lines[0], Emit(lines[1..], eol);
      EolOfEmit(lines[1..], eol);
      if eol == CRLF {
        assert CrLfAt(l + eol + rest, |l|);
      } else {
        CrLfPastLine(l, rest);
      }
    }
  }

  ghost predicate EndsInTwoCr(s: string) {
    |s| >= 2 && s[|s| - 1] == '\r' && s[|s| - 2] == '\r'
  }

  ghost predicate NoneEndsInCr(lines: seq<string>) {
    forall i :: 0 <= i < |lines| ==> !EndsInCr(lines[i])
  }

  /** A text is a line without ending, or a line, a newline and the rest. */
  lemma SplitAtNewline(s: string) returns (l: string, rest: string)
    requires '\n' in s
    ensures '\n' !in l && s == l + LF + rest
    ensures EndsInCr(l) ==> HasCrLf(s)
    ensures EndsInTwoCr(s) <==> EndsInTwoCr(rest)
  {
    var i := IndexOf(s, '\n');
    l, rest := s[..i], s[i + 1..];
    assert s == l + LF + rest;
    if EndsInCr(l) {
      var k: int := i - 1;
      assert CrLfAt(s, k);
    }
  }

  lemma LastLine(s: string)
    requires '\n' !in s
    ensures Lines(s) == NonEmpty(StripCr(s))
    ensures EndsInCr(StripCr(s)) <==> EndsInTwoCr(s)
  {
    assert s[..IndexOf(s, '\n')] == s;
  }

  lemma {:induction false} LinesWithoutCr(s: string)
    requires !HasCrLf(s)
    ensures NoneEndsInCr(Lines(s)) <==> !EndsInTwoCr(s)
    decreases |s|
  {
    if '\n' in s {
      var l, rest := SplitAtNewline(s);
      CrLfPastLine(l, rest);
      LinesAtNewline(l, rest);
      LinesWithoutCr(rest);
      NoneInBoth(NonEmpty(l), Lines(rest));
    } else {
      LastLine(s);
      var l := StripCr(s);
      assert l != [] ==> NonEmpty(l)[0] == l;
    }
  }

  /** Without CRLF in the text, only its last line can end in a carriage return. */
  lemma {:induction false} OnlyLastEndsInCr(s: string, k: nat)
    requires !HasCrLf(s) && k + 1 < |Lines(s)|
    ensures !EndsInCr(Lines(s)[k])
    decreases |s|
  {
    if '\n' !in s {
      LastLine(s);
    } else {
      var l, rest := SplitAtNewline(s);
      CrLfPastLine(l, rest);
      LinesAtNewline(l, rest);
      var (first, more) := (NonEmpty(l), Lines(rest));
      assert Lines(s) == first + more;
      EitherHas(first, more, k);
      if k >= |first| {
        OnlyLastEndsInCr(rest, k - |first|);
      }
    }
  }

  /** Under CRLF every newline of an emitted text follows a carriage return. */
  lemma {:induction false} NewlinesFollowCr(lines: seq<string>, k: nat)
    requires forall i :: 0 <= i < |lines| ==> '\n' !in lines[i]
    requires k < |Emit(lines, CRLF)| && Emit(lines, CRLF)[k] == '\n'
    ensures k > 0 && Emit(lines, CRLF)[k - 1] == '\r'
  {
    var l, rest := lines[0], Emit(lines[1..], CRLF);
    var s := l + CRLF + rest;
    assert forall i :: 0 <= i < |l| ==> s[i] == l[i] && l[i] in l;
    assert s[|l|] == '\r' && s[|l| + 1] == '\n';
    assert s[|l| + 2..] == rest;
    if k >= |l| + 2 {
      NewlinesFollowCr(lines[1..], k - |l| - 2);
    }
  }

  lemma EitherHas(a: seq<string>, b: seq<string>, k: nat)
    requires k < |a + b|
    ensures (a + b)[k] == if k < |a| then a[k] else b[k - |a|]
  {
  }

  lemma NoneInBoth(a: seq<string>, b: seq<string>)
    ensures NoneEndsInCr(a + b) <==> NoneEndsInCr(a) && NoneEndsInCr(b)
  {
    assert forall i :: 0 <= i < |a| ==> (a + b)[i] == a[i];
    assert forall i :: 0 <= i < |b| ==> (a + b)[|a| + i] == b[i];
  }

  /** Whether the lines of a text can be emitted again and split back into the same lines. */
  ghost predicate Resplits(s: string) {
    HasCrLf(s) || !EndsInTwoCr(s)
  }

  /** The lines of a text survive its own line ending exactly when it does not end in a stray carriage return. */
  lemma LinesSurviveExactly(s: string)
    ensures AllSurvive(Lines(s), Eol(s)) <==> Resplits(s)
  {
    LinesAreLines(s);
    assert forall i :: 0 <= i < |Lines(s)| ==> Lines(s)[i] in Lines(s);
    if !HasCrLf(s) {
      LinesWithoutCr(s);
    }
  }

  // ---- Words ----

  function SkipBlank(s: string): (t: string)
    ensures |t| <= |s|
    ensures t != [] ==> !IsAsciiSpace(t[0])
  {
    if s != [] && IsAsciiSpace(s[0]) then SkipBlank(s[1..]) else s
  }

  /** The length of the word a string starts with. */
  function WordLength(s: string): (n: nat)
    ensures n <= |s| && (n < |s| ==> IsAsciiSpace(s[n]))
    ensures forall i :: 0 <= i < n ==> !IsAsciiSpace(s[i])
    ensures s != [] && !IsAsciiSpace(s[0]) ==> n > 0
  {
    if s == [] || IsAsciiSpace(s[0]) then 0 else 1 + WordLength(s[1..])
  }

  /** The first word; empty when there is none. */
  function FirstWord(s: string): string {
    var t := SkipBlank(s);
    t[..WordLength(t)]
  }

  /** What follows the first word. */
  function AfterWord(s: string): (u: string)
    ensures |u| <= |s| && (SkipBlank(s) != [] ==> |u| < |s|)
    ensures u != [] ==> IsAsciiSpace(u[0])
  {
    var t := SkipBlank(s);
    t[WordLength(t)..]
  }

  /** The words between ASCII white space. */
  function Words(s: string): seq<string>
    decreases |s|
  {
    if SkipBlank(s) == [] then [] else [FirstWord(s)] + Words(AfterWord(s))
  }

  /** What follows the first `n` words. */
  function AfterWords(s: string, n: nat): string
    decreases n
  {
    if n == 0 then s else AfterWords(AfterWord(s), n - 1)
  }

  ghost predicate IsWord(w: string) {
    w != [] && forall i :: 0 <= i < |w| ==> !IsAsciiSpace(w[i])
  }

  lemma WordFirst(w: string, s: string)
    requires IsWord(w) && (s == [] || IsAsciiSpace(s[0]))
    ensures SkipBlank(w + s) == w + s && FirstWord(w + s) == w && AfterWord(w + s) == s
    ensures Words(w + s) == [w] + Words(s)
  {
    var t := w + s;
    assert t[0] == w[0];
    assert forall i :: 0 <= i < |w| ==> t[i] == w[i];
    assert s != [] ==> t[|w|] == s[0];
    assert WordLength(t) == |w|;
    assert t[..|w|] == w && t[|w|..] == s;
  }

  lemma SpaceFirst(s: string)
    ensures SkipBlank(" " + s) == SkipBlank(s) && Words(" " + s) == Words(s)
  {
    assert (" " + s)[1..] == s;
  }

  lemma FirstWordIsWord(s: string)
    requires SkipBlank(s) != []
    ensures IsWord(FirstWord(s))
  {
    var t := SkipBlank(s);
    assert WordLength(t) > 0;
  }

  lemma {:induction false} WordsAreWords(s: string, k: nat)
    requires k < |Words(s)|
    ensures IsWord(Words(s)[k])
    decreases k
  {
    FirstWordIsWord(s);
    if k > 0 {
      WordsAreWords(AfterWord(s), k - 1);
    }
  }

  /** Dropping words from the list is skipping them in the string. */
  lemma {:induction false} WordsSplit(s: string, n: nat)
    requires n <= |Words(s)|
    ensures Words(AfterWords(s, n)) == Words(s)[n..]
    decreases n
  {
    if n > 0 {
      var r := Words(AfterWord(s));
      assert Words(s) == [FirstWord(s)] + r;
      WordsSplit(AfterWord(s), n - 1);
      assert r[n - 1..] == Words(s)[n..];
    }
  }

  ghost predicate Suffix(t: string, s: string) {
    |t| <= |s| && t == s[|s| - |t|..]
  }

  lemma {:induction false} SkippedIsSuffix(s: string)
    ensures Suffix(SkipBlank(s), s)
  {
    if s != [] && IsAsciiSpace(s[0]) {
      SkippedIsSuffix(s[1..]);
    }
  }

  lemma {:induction false} AfterWordsIsSuffix(s: string, n: nat)
    ensures Suffix(AfterWords(s, n), s)
    decreases n
  {
    if n > 0 {
      SkippedIsSuffix(s);
      assert Suffix(AfterWord(s), s);
      AfterWordsIsSuffix(AfterWord(s), n - 1);
    }
  }

  /** Words joined by single spaces. */
  function Join(words: seq<string>): string {
    if words == [] then []
    else if |words| == 1 then words[0]
    else words[0] + " " + Join(words[1..])
  }

  ghost predicate AllWords(words: seq<string>) {
    forall i :: 0 <= i < |words| ==> IsWord(words[i])
  }

  /** Words joined by single spaces come back when split, whatever blank-led text follows. */
  lemma {:induction false} WordsOfJoin(words: seq<string>, tail: string)
    requires AllWords(words) && words != [] && (tail == [] || IsAsciiSpace(tail[0]))
    ensures Words(Join(words) + tail) == words + Words(tail)
    ensures AfterWords(Join(words) + tail, |words|) == tail
    decreases |words|
  {
    var w, rest := words[0], words[1..];
    assert words == [w] + rest;
    if rest == [] {
      OnlyWord(w, tail);
    } else {
      WordsOfJoin(rest, tail);
      JoinedStep(w, rest, tail);
      Regroup(w, rest, Words(tail));
    }
  }

  lemma Regroup(w: string, a: seq<string>, b: seq<string>)
    ensures [w] + (a + b) == [w] + a + b
  {
  }

  lemma OnlyWord(w: string, tail: string)
    requires IsWord(w) && (tail == [] || IsAsciiSpace(tail[0]))
    ensures Words(Join([w]) + tail) == [w] + Words(tail) && AfterWords(Join([w]) + tail, 1) == tail
  {
    WordFirst(w, tail);
    assert AfterWords(w + tail, 1) == AfterWords(tail, 0);
  }

  lemma JoinedStep(w: string, rest: seq<string>, tail: string)
    requires IsWord(w) && rest != []
    ensures Words(Join([w] + rest) + tail) == [w] + Words(Join(rest) + tail)
    ensures AfterWords(Join([w] + rest) + tail, |rest| + 1) == AfterWords(Join(rest) + tail, |rest|)
  {
    var more := Join(rest) + tail;
    JoinStep(w, rest);
    assert Join([w] + rest) + tail == w + (" " + more);
    WordFirst(w, " " + more);
    SpaceFirst(more);
    AfterWordsSpace(more, |rest|);
  }

  lemma AfterWordsSpace(s: string, n: nat)
    requires n > 0
    ensures AfterWords(" " + s, n) == AfterWords(s, n)
  {
    SpaceFirst(s);
  }

  /** Words separated by single spaces, possibly followed by white space. */
  predicate SingleSpaced(t: string)
    decreases |t|
  {
    t == [] ||
    (!IsAsciiSpace(t[0]) &&
     var u := t[WordLength(t)..];
     Blank(u) || (u[0] == ' ' && u[1..] != [] && SingleSpaced(u[1..])))
  }

  lemma {:induction false} BlankHasNoWords(s: string)
    ensures Blank(s) <==> SkipBlank(s) == []
  {
    if s != [] {
      BlankHasNoWords(s[1..]);
      assert forall i :: 1 <= i < |s| ==> s[i] == s[1..][i - 1];
    }
  }

  lemma JoinStep(w: string, words: seq<string>)
    ensures Join([w] + words) == if words == [] then w else w + " " + Join(words)
  {
    assert ([w] + words)[1..] == words;
  }

  lemma {:induction false} JoinEnds(words: seq<string>)
    requires words != [] && forall i :: 0 <= i < |words| ==> IsWord(words[i])
    ensures Join(words) != []
    ensures !IsAsciiSpace(Join(words)[0]) && !IsAsciiSpace(Join(words)[|Join(words)| - 1])
  {
    if |words| > 1 {
      JoinEnds(words[1..]);
    }
  }

  lemma JoinOfWordsEnds(s: string)
    requires SkipBlank(s) != []
    ensures Join(Words(s)) != []
    ensures !IsAsciiSpace(Join(Words(s))[0]) && !IsAsciiSpace(Join(Words(s))[|Join(Words(s))| - 1])
  {
    forall i | 0 <= i < |Words(s)| ensures IsWord(Words(s)[i]) {
      WordsAreWords(s, i);
    }
    JoinEnds(Words(s));
  }

  /**
   * A string without leading white space is single-spaced exactly when its words, joined by single
   * spaces, are how it starts; what follows them is then white space.
   */
  lemma {:induction false} SingleSpacedExactly(t: string)
    requires SkipBlank(t) == t
    ensures SingleSpaced(t) <==> Join(Words(t)) <= t
    ensures SingleSpaced(t) ==> Blank(t[|Join(Words(t))|..])
    decreases |t|
  {
    if t != [] {
      var w, u := FirstWord(t), AfterWord(t);
      assert t == w + u;
      JoinStep(w, Words(u));
      BlankHasNoWords(u);
      if !Blank(u) {
        JoinOfWordsEnds(u);
        SpacedStep(w, u);
      }
    }
  }

  lemma {:induction false} SpacedStep(w: string, u: string)
    requires u != [] && IsAsciiSpace(u[0]) && SkipBlank(u) != []
    requires Join(Words(u)) != [] && !IsAsciiSpace(Join(Words(u))[0])
    ensures var j := w + " " + Join(Words(u));
            ((u[0] == ' ' && u[1..] != [] && SingleSpaced(u[1..])) <==> j <= w + u)
            && (j <= w + u ==> Blank((w + u)[|j|..]))
    decreases |u|, 0
  {
    var v := u[1..];
    var j := Join(Words(u));
    if u[0] == ' ' {
      SpaceFirst(v);
      assert u == " " + v;
      assert w + " " + j == (w + " ") + j && w + u == (w + " ") + v;
      PrefixCancel(w + " ", j, v);
      if v != [] && !IsAsciiSpace(v[0]) {
        SingleSpacedExactly(v);
      } else {
        assert v == [] || v[0] != j[0];
      }
    } else {
      assert (w + u)[|w|] == u[0];
      assert (w + " " + j)[|w|] == ' ';
    }
  }

  lemma PrefixCancel(a: string, b: string, c: string)
    ensures a + b <= a + c <==> b <= c
    ensures b <= c ==> (a + c)[|a + b|..] == c[|b|..]
  {
    assert (a + c)[|a|..] == c && (a + b)[|a|..] == b;
    if a + b <= a + c {
      assert forall i :: 0 <= i < |b| ==> b[i] == (a + b)[|a| + i] && c[i] == (a + c)[|a| + i];
    }
    if b <= c {
      assert a + c == a + b + c[|b|..];
    }
  }

  // ---- Reverse search ----

  predicate OccursAt(s: string, p: string, i: int) {
    0 <= i && i + |p| <= |s| && s[i..i + |p|] == p
  }

  function RFindBelow(s: string, p: string, n: nat): (i: Option<nat>)
    ensures i.Some? ==> i.value < n && OccursAt(s, p, i.value) && forall j :: i.value < j < n ==> !OccursAt(s, p, j)
    ensures i.None? ==> forall j :: 0 <= j < n ==> !OccursAt(s, p, j)
  {
    if n == 0 then None else if OccursAt(s, p, n - 1) then Some(n - 1) else RFindBelow(s, p, n - 1)
  }

  /** Where the last occurrence of `p` starts. */
  function RFind(s: string, p: string): (i: Option<nat>)
    ensures i.Some? ==> OccursAt(s, p, i.value) && forall j :: i.value < j ==> !OccursAt(s, p, j)
    ensures i.None? ==> forall j :: !OccursAt(s, p, j)
  {
    RFindBelow(s, p, |s| + 1)
  }

  /** A non-blank-ended pattern followed by nothing but white space occurs last right there. */
  lemma RFindBeforeBlank(s: string, p: string, at: nat)
    requires OccursAt(s, p, at) && p != [] && !IsAsciiSpace(p[|p| - 1]) && Blank(s[at + |p|..])
    ensures RFind(s, p) == Some(at)
  {
    var i := RFind(s, p).value;
    var k := i + |p| - 1;
    assert s[i..i + |p|][|p| - 1] == s[k];
    assert forall m :: at + |p| <= m < |s| ==> s[m] == s[at + |p|..][m - at - |p|];
  }

  // ---- One more carriage return ----

  const CR: string := "\r"

  lemma {:induction false} SkipBlankCr(t: string)
    ensures SkipBlank(t + CR) == if SkipBlank(t) == [] then [] else SkipBlank(t) + CR
  {
    if t == [] {
      assert t + CR == CR && CR[1..] == [];
    } else if IsAsciiSpace(t[0]) {
      assert (t + CR)[1..] == t[1..] + CR;
      SkipBlankCr(t[1..]);
    }
  }

  lemma {:induction false} WordLengthCr(t: string)
    ensures WordLength(t + CR) == WordLength(t)
  {
    if t == [] {
      assert t + CR == CR;
    } else if !IsAsciiSpace(t[0]) {
      assert (t + CR)[1..] == t[1..] + CR;
      WordLengthCr(t[1..]);
    }
  }

  /** A carriage return at the end changes no word. */
  lemma {:induction false} WordsCr(t: string)
    ensures Words(t + CR) == Words(t)
    decreases |t|
  {
    SkipBlankCr(t);
    var u := SkipBlank(t);
    if u != [] {
      WordLengthCr(u);
      var n := WordLength(u);
      assert (u + CR)[..n] == u[..n] && (u + CR)[n..] == u[n..] + CR;
      WordsCr(AfterWord(t));
    }
  }

  /** A carriage return at the end is not part of an occurrence that ends otherwise. */
  lemma OccursCr(s: string, p: string, i: int)
    requires p != [] && p[|p| - 1] != '\r'
    ensures OccursAt(s + CR, p, i) <==> OccursAt(s, p, i)
  {
    if 0 <= i && i + |p| <= |s| {
      assert (s + CR)[i..i + |p|] == s[i..i + |p|];
    } else if i >= 0 && i + |p| == |s| + 1 {
      assert (s + CR)[i..i + |p|][|p| - 1] == '\r';
    }
  }

  lemma RFindCr(s: string, p: string)
    requires p != [] && p[|p| - 1] != '\r'
    ensures RFind(s + CR, p) == RFind(s, p)
  {
    var i := RFind(s + CR, p);
    var j := RFind(s, p);
    if i.Some? { OccursCr(s, p, i.value); }
    if j.Some? { OccursCr(s, p, j.value); }
  }

  lemma TrimEndCr(s: string)
    ensures TrimEnd(s + CR) == TrimEnd(s)
  {
    assert (s + CR)[..|s|] == s;
  }

  /** What the last line of a text that does not resplit looks like. */
  lemma {:induction false} LastLineEndsInCr(s: string)
    requires !Resplits(s)
    ensures Lines(s) != [] && EndsInCr(Lines(s)[|Lines(s)| - 1])
    decreases |s|
  {
    if '\n' in s {
      var l, rest := SplitAtNewline(s);
      CrLfPastLine(l, rest);
      LinesAtNewline(l, rest);
      LastLineEndsInCr(rest);
    } else {
      LastLine(s);
    }
  }
}
