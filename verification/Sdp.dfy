/** Candidate lines of an SDP answer: parser, printer and the host-candidate rewrite. */
module Sdp {
  import opened Prelude
  import opened Text

  const CANDIDATE: string := "a=candidate:"
  const CONNECTION: string := "c=IN IP4 "
  const PLACEHOLDER: string := "0.0.0.0"

  // ---- Candidates ----

  /** An `a=candidate:` line; `rest` is everything after `typ <type>`. */
  datatype Candidate = Candidate(foundation: string, component: string, transport: string, priority: string,
                                 address: string, port: string, typ: string, rest: string)
  {
    /** The first eight words of the printed line. */
    function Head(): seq<string> {
      [foundation, component, transport, priority, address, port, "typ", typ]
    }

    ghost predicate WellFormed() {
      (forall i :: 0 <= i < 8 ==> IsWord(Head()[i])) && (rest != [] ==> !IsAsciiSpace(rest[0]))
    }

    function WithAddress(a: string): string {
      CANDIDATE + Join(this.(address := a).Head()) + if rest == [] then [] else " " + rest
    }
  }

  function FromWords(words: seq<string>, rest: string): Candidate
    requires |words| >= 8
  {
    Candidate(words[0], words[1], words[2], words[3], words[4], words[5], words[7], rest)
  }

  /** The stored extensions: where the joined words last occur in the line, up to its end. */
  function ParseRest(line: string, joined: string): Option<string> {
    if joined == [] then Some([])
    else
      match RFind(line, joined)
      case None => None
      case Some(i) => Some(line[i..])
  }

  function Parse(line: string): Option<Candidate> {
    if !(CANDIDATE <= line) then None
    else
      var words := Words(line[|CANDIDATE|..]);
      if |words| < 8 || words[6] != "typ" then None
      else
        match ParseRest(line, Join(words[8..]))
        case None => None
        case Some(rest) => Some(FromWords(words, rest))
  }

  /** What stands in a candidate line after its first eight words. */
  function Extensions(line: string): string
    requires CANDIDATE <= line
  {
    SkipBlank(AfterWords(line[|CANDIDATE|..], 8))
  }

  /** A line parses exactly when it has the prefix, eight words with `typ` for the seventh, and its further words
      occur in it joined by single spaces. */
  lemma ParsesExactly(line: string)
    ensures Parse(line).Some? <==>
            && "a=candidate:" <= line
            && var words := Words(line[12..]);
               && |words| >= 8 && words[6] == "typ"
               && (Join(words[8..]) == [] || exists i :: OccursAt(line, Join(words[8..]), i))
  {
    if CANDIDATE <= line {
      var words := Words(line[12..]);
      if |words| >= 8 {
        var i := RFind(line, Join(words[8..]));
        assert i.Some? ==> OccursAt(line, Join(words[8..]), i.value);
      }
    }
  }

  /** Which word is which field. */
  lemma ParsedFields(line: string)
    requires Parse(line).Some?
    ensures "a=candidate:" <= line && |Words(line[12..])| >= 8
    ensures var (c, words) := (Parse(line).value, Words(line[12..]));
            && c.foundation == words[0] && c.component == words[1] && c.transport == words[2] && c.priority == words[3]
            && c.address == words[4] && c.port == words[5] && c.typ == words[7]
  {
  }

  lemma {:induction false} SkippedOnce(s: string)
    ensures SkipBlank(SkipBlank(s)) == SkipBlank(s)
  {
    var t := SkipBlank(s);
    assert t != [] ==> !IsAsciiSpace(t[0]);
  }

  lemma ExtensionWords(line: string)
    requires CANDIDATE <= line && |Words(line[|CANDIDATE|..])| >= 8
    ensures Words(Extensions(line)) == Words(line[|CANDIDATE|..])[8..]
    ensures Suffix(Extensions(line), line)
  {
    var body := line[|CANDIDATE|..];
    var after := AfterWords(body, 8);
    WordsSplit(body, 8);
    SkippedOnce(after);
    AfterWordsIsSuffix(body, 8);
    SkippedIsSuffix(after);
  }

  lemma RestStartsWithJoined(line: string, j: string)
    ensures ParseRest(line, j).Some? ==> j <= ParseRest(line, j).value
  {
    if j != [] && RFind(line, j).Some? {
      var i := RFind(line, j).value;
      assert line[i..][..|j|] == line[i..i + |j|];
    }
  }

  lemma SuffixIsFound(line: string, t: string, j: string)
    requires Suffix(t, line) && j <= t && j != [] && !IsAsciiSpace(j[|j| - 1]) && Blank(t[|j|..])
    ensures ParseRest(line, j) == Some(t)
  {
    var at := |line| - |t|;
    assert line[at..at + |j|] == t[..|j|];
    assert line[at + |j|..] == t[|j|..];
    RFindBeforeBlank(line, j, at);
  }

  lemma RestExactly(line: string, t: string)
    requires Suffix(t, line) && SkipBlank(t) == t
    ensures ParseRest(line, Join(Words(t))) == Some(t) <==> SingleSpaced(t)
  {
    var j := Join(Words(t));
    SingleSpacedExactly(t);
    RestStartsWithJoined(line, j);
    if t != [] {
      JoinOfWordsEnds(t);
      if SingleSpaced(t) {
        SuffixIsFound(line, t, j);
      }
    }
  }

  /** A line with all eight words parses with its exact extensions exactly when they are single-spaced. */
  lemma ParsedExactly(line: string)
    requires CANDIDATE <= line
    requires |Words(line[|CANDIDATE|..])| >= 8 && Words(line[|CANDIDATE|..])[6] == "typ"
    ensures SingleSpaced(Extensions(line))
            <==> Parse(line) == Some(FromWords(Words(line[|CANDIDATE|..]), Extensions(line)))
  {
    ExtensionWords(line);
    SkippedOnce(AfterWords(line[|CANDIDATE|..], 8));
    RestExactly(line, Extensions(line));
  }

  lemma ParsedWellFormed(line: string)
    requires Parse(line).Some?
    ensures Parse(line).value.WellFormed() && Suffix(Parse(line).value.rest, line)
  {
    var words := Words(line[|CANDIDATE|..]);
    var c := Parse(line).value;
    forall i | 0 <= i < |words| ensures IsWord(words[i]) {
      WordsAreWords(line[|CANDIDATE|..], i);
    }
    assert c.Head() == words[..8];
    if c.rest != [] {
      var j := Join(words[8..]);
      assert forall i :: 0 <= i < |words[8..]| ==> words[8..][i] == words[i + 8];
      JoinEnds(words[8..]);
      var at := RFind(line, j).value;
      assert line[at..at + |j|][0] == line[at];
    }
  }

  lemma PrintedWords(c: Candidate)
    requires c.WellFormed()
    ensures var line := c.WithAddress(c.address);
            CANDIDATE <= line && Words(line[|CANDIDATE|..]) == c.Head() + Words(c.rest)
            && Extensions(line) == c.rest
  {
    var line := c.WithAddress(c.address);
    var tail := if c.rest == [] then [] else " " + c.rest;
    assert line[|CANDIDATE|..] == Join(c.Head()) + tail;
    WordsOfJoin(c.Head(), tail);
    SpaceFirst(c.rest);
  }

  /** Printing with another address changes the fifth word of a line and no other of the first eight. */
  lemma PrintedFields(line: string, a: string)
    requires Parse(line).Some? && IsWord(a)
    ensures var printed := Parse(line).value.WithAddress(a);
            && "a=candidate:" <= printed && |Words(printed[12..])| >= 8 && |Words(line[12..])| >= 8
            && Words(printed[12..])[..8] == Words(line[12..])[..8][4 := a]
  {
    ParsedWellFormed(line);
    HeadOfLine(line);
    var c := Parse(line).value;
    var d := c.(address := a);
    HeadWith(c, a);
    HeadOfPrinted(d);
    assert d.WithAddress(a) == c.WithAddress(a);
  }

  lemma HeadOfLine(line: string)
    requires Parse(line).Some?
    ensures CANDIDATE <= line && |Words(line[|CANDIDATE|..])| >= 8
    ensures Words(line[|CANDIDATE|..])[..8] == Parse(line).value.Head()
  {
  }

  lemma HeadWith(c: Candidate, a: string)
    requires c.WellFormed() && IsWord(a)
    ensures c.(address := a).WellFormed() && c.(address := a).Head() == c.Head()[4 := a]
  {
    var d := c.(address := a);
    assert forall i :: 0 <= i < 8 ==> d.Head()[i] == c.Head()[4 := a][i];
  }

  lemma HeadOfPrinted(c: Candidate)
    requires c.WellFormed()
    ensures var line := c.WithAddress(c.address);
            && CANDIDATE <= line && |Words(line[|CANDIDATE|..])| >= 8 && Words(line[|CANDIDATE|..])[..8] == c.Head()
  {
    PrintedWords(c);
  }

  /** A candidate survives being printed and parsed exactly when its extensions are single-spaced. */
  lemma PrintedParsesExactly(c: Candidate)
    requires c.WellFormed()
    ensures Parse(c.WithAddress(c.address)) == Some(c) <==> SingleSpaced(c.rest)
  {
    var line := c.WithAddress(c.address);
    PrintedWords(c);
    var words := Words(line[|CANDIDATE|..]);
    assert words[6] == c.Head()[6] && words[7] == c.Head()[7];
    assert FromWords(words, c.rest) == c;
    ParsedExactly(line);
  }

  /** Replacing the address of a parsed line and parsing again changes the address only, exactly when `rest` is single-spaced. */
  lemma RoundTripExactly(line: string, a: string)
    requires Parse(line).Some? && IsWord(a)
    ensures var c := Parse(line).value;
            Parse(c.WithAddress(a)) == Some(c.(address := a)) <==> SingleSpaced(c.rest)
  {
    ParsedWellFormed(line);
    var c := Parse(line).value;
    var d := c.(address := a);
    assert forall i :: 0 <= i < 8 && i != 4 ==> d.Head()[i] == c.Head()[i];
    PrintedParsesExactly(d);
    assert d.WithAddress(a) == c.WithAddress(a);
  }

  // ---- A carriage return at the end of a line ----

  lemma ParseRestCr(line: string, j: string)
    requires j != [] ==> j[|j| - 1] != '\r'
    ensures ParseRest(line + CR, j) ==
            match ParseRest(line, j)
            case None => None
            case Some(rest) => Some(if j == [] then [] else rest + CR)
  {
    if j != [] {
      RFindCr(line, j);
      if RFind(line, j).Some? {
        var i := RFind(line, j).value;
        assert (line + CR)[i..] == line[i..] + CR;
      }
    }
  }

  lemma PrefixCr(p: string, line: string)
    requires p != [] && p[|p| - 1] != '\r'
    ensures p <= line + CR <==> p <= line
    ensures p <= line ==> (line + CR)[|p|..] == line[|p|..] + CR
  {
    assert (line + CR)[|line|] == '\r';
    if p <= line {
      assert (line + CR)[|p|..] == line[|p|..] + CR;
    }
  }

  lemma JoinEndsInWord(t: string)
    requires |Words(t)| >= 8
    ensures var j := Join(Words(t)[8..]); j != [] ==> !IsAsciiSpace(j[|j| - 1])
  {
    var words := Words(t);
    forall i | 0 <= i < |words| ensures IsWord(words[i]) {
      WordsAreWords(t, i);
    }
    if words[8..] != [] {
      JoinEnds(words[8..]);
    }
  }

  /** A carriage return at the end of a line belongs to the extensions, if there are any. */
  lemma ParseCr(line: string)
    ensures Parse(line + CR) ==
            match Parse(line)
            case None => None
            case Some(c) => Some(if c.rest == [] then c else c.(rest := c.rest + CR))
  {
    PrefixCr(CANDIDATE, line);
    if CANDIDATE <= line {
      var body := line[|CANDIDATE|..];
      var words := Words(body);
      WordsCr(body);
      if |words| >= 8 {
        JoinEndsInWord(body);
        ParseRestCr(line, Join(words[8..]));
        RestStartsWithJoined(line, Join(words[8..]));
      }
    }
  }
}
