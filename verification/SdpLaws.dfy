/** What the host-candidate rewrite guarantees. */
module SdpLaws {
  import opened Prelude
  import opened Text
  import opened Dedup
  import opened Sdp
  import opened SdpRewrite

  /** A candidate of type host. */
  predicate IsHostCandidate(line: string) {
    Parse(line).Some? && Parse(line).value.typ == "host"
  }

  /** Every host candidate separates its extensions by single spaces. */
  ghost predicate SpacedHosts(lines: seq<string>) {
    forall i :: 0 <= i < |lines| && IsHostCandidate(lines[i]) ==> SingleSpaced(Parse(lines[i]).value.rest)
  }

  // ---- One line ----

  lemma HostImage(line: string, ip: string)
    requires IsWord(ip) && IsHost(line) && SingleSpaced(Parse(line).value.rest)
    ensures Key(Image(line, ip), ip) == Key(line, ip)
    ensures Parse(Image(line, ip)) == Some(Parse(line).value.(address := ip))
    ensures Image(Image(line, ip), ip) == Image(line, ip)
  {
    RoundTripExactly(line, ip);
  }

  lemma OtherImage(line: string, ip: string)
    requires !IsHost(line)
    ensures Key(Image(line, ip), ip).None? && Image(Image(line, ip), ip) == Image(line, ip)
  {
    if IsConnection(line) {
      assert Image(line, ip)[0] == 'c';
      assert Parse(Image(line, ip)).None?;
    }
  }

  lemma ImageIsCandidate(line: string, ip: string)
    ensures CANDIDATE <= Image(line, ip) <==> CANDIDATE <= line
  {
    if IsConnection(line) {
      assert Image(line, ip)[0] == 'c' && line[0] == 'c';
    }
  }

  lemma {:induction false} JoinHasNoNewline(words: seq<string>)
    requires forall i :: 0 <= i < |words| ==> IsWord(words[i])
    ensures '\n' !in Join(words)
  {
    if words != [] {
      assert '\n' !in words[0];
      JoinHasNoNewline(words[1..]);
    }
  }

  lemma PrintedSurvives(c: Candidate, eol: string)
    requires c.WellFormed() && '\n' !in c.rest && (eol == CRLF || !EndsInCr(c.rest))
    ensures Survives(c.WithAddress(c.address), eol)
  {
    JoinHasNoNewline(c.Head());
    JoinEnds(c.Head());
  }

  lemma ImageSurvives(line: string, ip: string, eol: string)
    requires IsWord(ip) && Survives(line, eol)
    ensures Survives(Image(line, ip), eol)
  {
    if IsHost(line) {
      ParsedWellFormed(line);
      var c := Parse(line).value;
      var d := c.(address := ip);
      assert forall i :: 0 <= i < 8 && i != 4 ==> d.Head()[i] == c.Head()[i];
      assert forall i :: 0 <= i < |c.rest| ==> c.rest[i] == line[|line| - |c.rest| + i];
      PrintedSurvives(d, eol);
    } else if IsConnection(line) {
      assert '\n' !in ip;
    }
  }

  // ---- Keys ----

  /** The comparison key stands for the pair of lower-cased transport and port, as long as ports hold no bar. */
  lemma KeyIsPair(a: string, b: string, ip: string)
    requires IsHost(a) && IsHost(b) && '|' !in Parse(a).value.port && '|' !in Parse(b).value.port
    ensures Key(a, ip) == Key(b, ip)
            <==> Lower(Parse(a).value.transport) == Lower(Parse(b).value.transport)
                 && Parse(a).value.port == Parse(b).value.port
  {
    var t, u := Lower(Parse(a).value.transport), Lower(Parse(b).value.transport);
    var p, q := Parse(a).value.port, Parse(b).value.port;
    if t + "|" + ip + "|" + p == u + "|" + ip + "|" + q {
      LastBarSplits(t + "|" + ip, p, u + "|" + ip, q);
      assert t == (t + ("|" + ip))[..|t|] && u == (u + ("|" + ip))[..|u|];
      assert t + ("|" + ip) == t + "|" + ip && u + ("|" + ip) == u + "|" + ip;
    }
  }

  lemma SharedStart(t: string, x: string, u: string, y: string)
    requires |t| <= |u|
    ensures t + x == u + y <==> t <= u && x == u[|t|..] + y
  {
    assert (t + x)[..|t|] == t && (t + x)[|t|..] == x;
    assert (u + y)[..|t|] == u[..|t|] && (u + y)[|t|..] == u[|t|..] + y;
    if t <= u {
      assert u == t + u[|t|..];
      assert u + y == t + (u[|t|..] + y);
    }
  }

  /** Whatever the ports hold: keys are equal exactly when the pairs are, or when the longer transport goes on
      in a way that the address and the port of the other key repeat. */
  lemma KeysAgreeExactly(a: string, b: string, ip: string)
    requires IsHost(a) && IsHost(b) && |Parse(a).value.transport| <= |Parse(b).value.transport|
    ensures var (t, u) := (Lower(Parse(a).value.transport), Lower(Parse(b).value.transport));
            var (p, q) := (Parse(a).value.port, Parse(b).value.port);
            Key(a, ip) == Key(b, ip) <==>
            (t == u && p == q) || (|t| < |u| && t <= u && "|" + ip + "|" + p == u[|t|..] + ("|" + ip + "|" + q))
  {
    var (t, u) := (Lower(Parse(a).value.transport), Lower(Parse(b).value.transport));
    var (p, q) := (Parse(a).value.port, Parse(b).value.port);
    KeyTexts(t, p, u, q, ip);
  }

  lemma KeyTexts(t: string, p: string, u: string, q: string, ip: string)
    requires |t| <= |u|
    ensures t + "|" + ip + "|" + p == u + "|" + ip + "|" + q <==>
            (t == u && p == q) || (|t| < |u| && t <= u && "|" + ip + "|" + p == u[|t|..] + ("|" + ip + "|" + q))
  {
    var bar := "|" + ip + "|";
    assert t + "|" + ip + "|" + p == t + (bar + p) && u + "|" + ip + "|" + q == u + (bar + q);
    SharedStart(t, bar + p, u, bar + q);
    SharedStart(bar, p, bar, q);
    if |t| == |u| {
      assert u[|t|..] + (bar + q) == bar + q;
      assert bar[|bar|..] + q == q;
    }
  }

  function PairOf(line: string): Option<(string, string)> {
    if IsHostCandidate(line) then Some((Lower(Parse(line).value.transport), Parse(line).value.port)) else None
  }

  ghost predicate NoBars(lines: seq<string>) {
    forall i :: 0 <= i < |lines| && IsHostCandidate(lines[i]) ==> '|' !in Parse(lines[i]).value.port
  }

  /** So the rewrite keeps the first host candidate of each distinct pair of lower-cased transport and port. */
  lemma KeptByPair(lines: seq<string>, ip: string)
    requires NoBars(lines)
    ensures Kept(lines, KeyOf(ip), ImageOf(ip)) == Kept(lines, PairOf, ImageOf(ip))
    ensures |Keys(lines, KeyOf(ip))| == |Keys(lines, PairOf)|
    ensures Duplicates(lines, KeyOf(ip)) == Duplicates(lines, PairOf)
  {
    forall i, j | 0 <= i < j < |lines|
      ensures Key(lines[i], ip) == Key(lines[j], ip) <==> PairOf(lines[i]) == PairOf(lines[j])
    {
      if IsHost(lines[i]) && IsHost(lines[j]) {
        KeyIsPair(lines[i], lines[j], ip);
      }
    }
    KeptAlike(lines, KeyOf(ip), PairOf, ImageOf(ip));
  }

  /** With a bar in the port two different pairs share a key, so the later candidate is lost: say `u` on `i|p` and `u|i` on `p`. */
  lemma BarInPortCollides(c: Candidate, d: Candidate, ip: string)
    requires c.WellFormed() && SingleSpaced(c.rest) && c.typ == "host"
    requires d.WellFormed() && SingleSpaced(d.rest) && d.typ == "host"
    requires Lower(d.transport) == Lower(c.transport) + "|" + ip && c.port == ip + "|" + d.port
    ensures var a, b := c.WithAddress(c.address), d.WithAddress(d.address);
            Key(a, ip).Some? && Key(a, ip) == Key(b, ip) && PairOf(a) != PairOf(b)
  {
    var t := Lower(c.transport);
    PrintedKey(c, ip, t);
    PrintedKey(d, ip, t + "|" + ip);
    assert t + "|" + ip + "|" + (ip + "|" + d.port) == t + "|" + ip + "|" + ip + "|" + d.port;
  }

  lemma PrintedKey(c: Candidate, ip: string, transport: string)
    requires c.WellFormed() && SingleSpaced(c.rest) && c.typ == "host" && Lower(c.transport) == transport
    ensures Key(c.WithAddress(c.address), ip) == Some(transport + "|" + ip + "|" + c.port)
    ensures PairOf(c.WithAddress(c.address)) == Some((transport, c.port))
  {
    PrintedParsesExactly(c);
  }

  lemma LastBarSplits(x: string, p: string, y: string, q: string)
    requires '|' !in p && '|' !in q && x + "|" + p == y + "|" + q
    ensures x == y && p == q
  {
    AtBar(x, p);
    AtBar(y, q);
    BarIsLast(x, p, |y|);
    BarIsLast(y, q, |x|);
  }

  lemma AtBar(x: string, p: string)
    ensures (x + "|" + p)[..|x|] == x && (x + "|" + p)[|x|] == '|' && (x + "|" + p)[|x| + 1..] == p
  {
  }

  lemma BarIsLast(x: string, p: string, i: nat)
    requires '|' !in p
    ensures |x| < i < |x + "|" + p| ==> (x + "|" + p)[i] != '|'
  {
    assert |x| < i < |x + "|" + p| ==> (x + "|" + p)[i] == p[i - |x| - 1];
  }

  // ---- All lines ----

  lemma LinesAreStable(lines: seq<string>, ip: string)
    requires IsWord(ip) && SpacedHosts(lines)
    ensures Stable(lines, KeyOf(ip), ImageOf(ip))
  {
    forall i | 0 <= i < |lines|
      ensures Key(Image(lines[i], ip), ip) == Key(lines[i], ip) && Image(Image(lines[i], ip), ip) == Image(lines[i], ip)
    {
      if IsHost(lines[i]) {
        HostImage(lines[i], ip);
      } else {
        OtherImage(lines[i], ip);
      }
    }
  }

  function HostAddress(line: string): Option<string> {
    if IsHostCandidate(line) then Some(Parse(line).value.address) else None
  }

  predicate IsCandidate(line: string) {
    CANDIDATE <= line
  }

  /** The addresses of all host candidates, in order. */
  function HostCandidateAddresses(sdp: string): seq<string> {
    Collect(Lines(sdp), HostAddress)
  }

  function CandidateCount(sdp: string): nat {
    Count(Lines(sdp), IsCandidate)
  }

  // ---- Whole texts ----

  function KeptLines(sdp: string, ip: string): seq<string> {
    Kept(Lines(sdp), KeyOf(ip), ImageOf(ip))
  }

  lemma KeptSurvives(sdp: string, ip: string, eol: string)
    requires IsWord(ip) && AllSurvive(Lines(sdp), eol)
    ensures AllSurvive(KeptLines(sdp, ip), eol)
  {
    var lines, kept := Lines(sdp), KeptLines(sdp, ip);
    forall k | 0 <= k < |kept| ensures Survives(kept[k], eol) {
      KeptAreImages(lines, KeyOf(ip), ImageOf(ip), k);
      var i :| 0 <= i < |lines| && kept[k] == ImageOf(ip)(lines[i]);
      ImageSurvives(lines[i], ip, eol);
    }
  }

  lemma SurvivorsResplit(sdp: string, ip: string)
    requires AllSurvive(KeptLines(sdp, ip), Eol(sdp))
    ensures Lines(Rewrite(sdp, ip)) == KeptLines(sdp, ip)
    ensures KeptLines(sdp, ip) != [] ==> Eol(Rewrite(sdp, ip)) == Eol(sdp)
  {
    LinesOfEmit(KeptLines(sdp, ip), Eol(sdp));
    EolOfEmit(KeptLines(sdp, ip), Eol(sdp));
  }

  /** Splitting the rewritten text gives back the kept lines and the same line ending. */
  lemma RewriteResplits(sdp: string, ip: string)
    requires IsWord(ip) && Resplits(sdp)
    ensures Lines(Rewrite(sdp, ip)) == KeptLines(sdp, ip)
    ensures KeptLines(sdp, ip) != [] ==> Eol(Rewrite(sdp, ip)) == Eol(sdp)
  {
    LinesSurviveExactly(sdp);
    KeptSurvives(sdp, ip, Eol(sdp));
    SurvivorsResplit(sdp, ip);
  }

  /** Rewriting twice is rewriting once. */
  lemma RewriteIsIdempotent(sdp: string, ip: string)
    requires IsWord(ip) && Resplits(sdp) && SpacedHosts(Lines(sdp))
    ensures Rewrite(Rewrite(sdp, ip), ip) == Rewrite(sdp, ip)
  {
    RewriteResplits(sdp, ip);
    LinesAreStable(Lines(sdp), ip);
    KeptTwice(Lines(sdp), KeyOf(ip), ImageOf(ip));
  }

  /** After the rewrite the host candidates advertise the public address, once per distinct key. */
  lemma OneAddressPerKey(sdp: string, ip: string)
    requires IsWord(ip) && Resplits(sdp) && SpacedHosts(Lines(sdp))
    ensures HostCandidateAddresses(Rewrite(sdp, ip)) == Copies(ip, |Keys(Lines(sdp), KeyOf(ip))|)
  {
    var lines := Lines(sdp);
    RewriteResplits(sdp, ip);
    forall i | 0 <= i < |lines|
      ensures HostAddress(Image(lines[i], ip)) == if Key(lines[i], ip).Some? then Some(ip) else None
    {
      if IsHost(lines[i]) {
        HostImage(lines[i], ip);
      } else {
        OtherImage(lines[i], ip);
      }
    }
    OnePerKey(lines, KeyOf(ip), ImageOf(ip), HostAddress, ip);
  }

  /** The rewrite removes exactly the duplicates, whatever the candidates look like. */
  lemma CountFallsByDuplicates(sdp: string, ip: string)
    requires IsWord(ip) && Resplits(sdp)
    ensures CandidateCount(Rewrite(sdp, ip)) == CandidateCount(sdp) - Duplicates(Lines(sdp), KeyOf(ip))
  {
    var lines := Lines(sdp);
    RewriteResplits(sdp, ip);
    forall i | 0 <= i < |lines| ensures IsCandidate(Image(lines[i], ip)) == IsCandidate(lines[i]) {
      ImageIsCandidate(lines[i], ip);
    }
    CountFalls(lines, KeyOf(ip), ImageOf(ip), IsCandidate);
  }

  /** All other lines come through in order, each as its image: unchanged unless it is a connection line. */
  lemma OtherLinesComeThrough(sdp: string, ip: string)
    requires IsWord(ip) && Resplits(sdp) && SpacedHosts(Lines(sdp))
    ensures Keyless(Lines(Rewrite(sdp, ip)), KeyOf(ip)) == Map(Keyless(Lines(sdp), KeyOf(ip)), ImageOf(ip))
  {
    RewriteResplits(sdp, ip);
    LinesAreStable(Lines(sdp), ip);
    KeylessComeThrough(Lines(sdp), KeyOf(ip), ImageOf(ip));
  }

  /** An image differs from its line only for host candidates and connection lines, and names the address then. */
  lemma ImageOfConnection(line: string, ip: string)
    ensures !IsHost(line) && !(CONNECTION <= line) ==> Image(line, ip) == line
    ensures var image := Image(line, ip);
            CONNECTION <= image ==> image == CONNECTION + ip || TrimEnd(image[|CONNECTION|..]) == PLACEHOLDER
  {
    if IsHost(line) {
      assert CANDIDATE <= Image(line, ip);
      assert Image(line, ip)[0] == 'a';
    } else if CONNECTION <= line {
      assert line[0] == 'c';
    }
  }

  /** After the rewrite every IPv4 connection line names the public address or the placeholder. */
  lemma ConnectionsNameAddress(sdp: string, ip: string, k: nat)
    requires IsWord(ip) && Resplits(sdp) && k < |Lines(Rewrite(sdp, ip))|
    ensures var line := Lines(Rewrite(sdp, ip))[k];
            CONNECTION <= line ==> line == CONNECTION + ip || TrimEnd(line[|CONNECTION|..]) == PLACEHOLDER
  {
    RewriteResplits(sdp, ip);
    KeptAreImages(Lines(sdp), KeyOf(ip), ImageOf(ip), k);
    var i :| 0 <= i < |Lines(sdp)| && KeptLines(sdp, ip)[k] == ImageOf(ip)(Lines(sdp)[i]);
    ImageOfConnection(Lines(sdp)[i], ip);
  }

  // ---- In terms of what a line is, not of how it is treated ----

  /** A candidate of another type than host: server reflexive, relayed and so on. */
  predicate IsOtherCandidate(line: string) {
    Parse(line).Some? && Parse(line).value.typ != "host"
  }

  /** Neither a host candidate nor an IPv4 connection line. */
  predicate IsPlain(line: string) {
    !(CONNECTION <= line) && !IsHostCandidate(line)
  }

  predicate IsConnectionLine(line: string) {
    "c=IN IP4 " <= line
  }

  /** The IPv4 connection line with the public address, unless it holds the placeholder. */
  function Redirected(ip: string): string -> string {
    line => if IsConnectionLine(line) && TrimEnd(line[9..]) != "0.0.0.0" then "c=IN IP4 " + ip else line
  }

  /** Exactly the candidates of type host have a key, and they are printed with the address. */
  lemma HostsHaveKeys(line: string, ip: string)
    ensures Key(line, ip).Some? <==> IsHostCandidate(line)
    ensures Key(line, ip).Some? ==> Image(line, ip) == Parse(line).value.WithAddress(ip)
  {
  }

  /** Candidates of other types and plain lines have no key and are their own images. */
  lemma OthersAreUntouched(line: string, ip: string)
    requires IsOtherCandidate(line) || IsPlain(line)
    ensures Key(line, ip).None? && Image(line, ip) == line
  {
    if IsOtherCandidate(line) {
      assert CANDIDATE <= line && line[0] == 'a';
    }
  }

  lemma ConnectionIsRedirected(line: string, ip: string)
    requires IsConnectionLine(line)
    ensures Key(line, ip).None? && Image(line, ip) == Redirected(ip)(line) && IsConnectionLine(Image(line, ip))
  {
    assert line[0] == 'c';
    assert Parse(line).None?;
  }

  /** A printed host candidate, however it parses, is no candidate of another type. */
  lemma HostImageType(line: string, ip: string)
    requires IsWord(ip) && Parse(line).Some? && Parse(line).value.typ == "host"
    ensures !IsOtherCandidate(Image(line, ip)) && !IsConnectionLine(Image(line, ip))
  {
    ParsedWellFormed(line);
    var c := Parse(line).value;
    var d := c.(address := ip);
    assert forall i :: 0 <= i < 8 && i != 4 ==> d.Head()[i] == c.Head()[i];
    PrintedWords(d);
    var image := d.WithAddress(ip);
    assert CANDIDATE <= image && image[0] == 'a';
    assert Words(image[|CANDIDATE|..])[7] == d.Head()[7];
  }

  lemma ImageKeepsOther(line: string, ip: string)
    requires IsWord(ip)
    ensures IsOtherCandidate(Image(line, ip)) == IsOtherCandidate(line)
    ensures IsConnectionLine(Image(line, ip)) == IsConnectionLine(line)
  {
    if Parse(line).Some? && Parse(line).value.typ == "host" {
      HostImageType(line, ip);
      assert line[0] == 'a';
    } else if IsConnectionLine(line) {
      ConnectionIsRedirected(line, ip);
      assert Image(line, ip)[0] == 'c' && line[0] == 'c';
    } else {
      OthersAreUntouched(line, ip);
    }
  }

  /** In every rewritten text the candidates of other types are those of the input, unchanged and in order. */
  lemma OtherCandidatesStay(sdp: string, ip: string)
    requires IsWord(ip) && Resplits(sdp)
    ensures Filter(Lines(Rewrite(sdp, ip)), IsOtherCandidate) == Filter(Lines(sdp), IsOtherCandidate)
  {
    var lines := Lines(sdp);
    RewriteResplits(sdp, ip);
    forall i | 0 <= i < |lines|
      ensures IsOtherCandidate(Image(lines[i], ip)) == IsOtherCandidate(lines[i])
      ensures IsOtherCandidate(lines[i]) ==> Key(lines[i], ip).None? && Image(lines[i], ip) == lines[i]
    {
      ImageKeepsOther(lines[i], ip);
      if IsOtherCandidate(lines[i]) { OthersAreUntouched(lines[i], ip); }
    }
    FilteredComeThrough(lines, KeyOf(ip), ImageOf(ip), IsOtherCandidate, (x: string) => x);
    MapOfSame(Filter(lines, IsOtherCandidate));
  }

  /** Its IPv4 connection lines are those of the input in order, with the public address in place of every
      address but the placeholder. */
  lemma ConnectionsAreRedirected(sdp: string, ip: string)
    requires IsWord(ip) && Resplits(sdp)
    ensures Filter(Lines(Rewrite(sdp, ip)), IsConnectionLine) == Map(Filter(Lines(sdp), IsConnectionLine), Redirected(ip))
  {
    var lines := Lines(sdp);
    RewriteResplits(sdp, ip);
    forall i | 0 <= i < |lines|
      ensures IsConnectionLine(Image(lines[i], ip)) == IsConnectionLine(lines[i])
      ensures IsConnectionLine(lines[i]) ==> Key(lines[i], ip).None? && Image(lines[i], ip) == Redirected(ip)(lines[i])
    {
      ImageKeepsOther(lines[i], ip);
      if IsConnectionLine(lines[i]) { ConnectionIsRedirected(lines[i], ip); }
    }
    FilteredComeThrough(lines, KeyOf(ip), ImageOf(ip), IsConnectionLine, Redirected(ip));
  }

  /** And all plain lines are those of the input, unchanged and in order. */
  lemma PlainLinesStay(sdp: string, ip: string)
    requires IsWord(ip) && Resplits(sdp) && SpacedHosts(Lines(sdp))
    ensures Filter(Lines(Rewrite(sdp, ip)), IsPlain) == Filter(Lines(sdp), IsPlain)
  {
    var lines := Lines(sdp);
    RewriteResplits(sdp, ip);
    forall i | 0 <= i < |lines|
      ensures IsPlain(Image(lines[i], ip)) == IsPlain(lines[i])
      ensures IsPlain(lines[i]) ==> Key(lines[i], ip).None? && Image(lines[i], ip) == lines[i]
    {
      if IsPlain(lines[i]) {
        OthersAreUntouched(lines[i], ip);
      } else if IsConnectionLine(lines[i]) {
        ConnectionIsRedirected(lines[i], ip);
      } else {
        HostsHaveKeys(lines[i], ip);
        HostImage(lines[i], ip);
      }
    }
    FilteredComeThrough(lines, KeyOf(ip), ImageOf(ip), IsPlain, (x: string) => x);
    MapOfSame(Filter(lines, IsPlain));
  }

  /**
   * In terms of pairs: exactly the first host candidate of each lower-cased transport and port stays,
   * the public address is advertised once per pair, and the candidate count falls by the repeats.
   */
  lemma RewriteByPair(sdp: string, ip: string)
    requires IsWord(ip) && Resplits(sdp) && SpacedHosts(Lines(sdp)) && NoBars(Lines(sdp))
    ensures Lines(Rewrite(sdp, ip)) == Kept(Lines(sdp), PairOf, ImageOf(ip))
    ensures HostCandidateAddresses(Rewrite(sdp, ip)) == Copies(ip, |Keys(Lines(sdp), PairOf)|)
    ensures CandidateCount(Rewrite(sdp, ip)) == CandidateCount(sdp) - Duplicates(Lines(sdp), PairOf)
  {
    KeptByPair(Lines(sdp), ip);
    RewriteResplits(sdp, ip);
    OneAddressPerKey(sdp, ip);
    CountFallsByDuplicates(sdp, ip);
  }

  // ---- When idempotence fails ----

  lemma StrayCrBecomesCrLf(lines: seq<string>, k: nat)
    requires k < |lines| && EndsInCr(lines[k])
    ensures HasCrLf(Emit(lines, LF))
    decreases k
  {
    var l, rest := lines[0], Emit(lines[1..], LF);
    var s := l + LF + rest;
    if k == 0 {
      assert CrLfAt(s, |l| - 1);
    } else {
      StrayCrBecomesCrLf(lines[1..], k - 1);
      var i :| 0 <= i < |rest| && CrLfAt(rest, i);
      assert rest == s[|l| + 1..];
      assert CrLfAt(s, |l| + 1 + i);
    }
  }

  lemma KeptAreLines(sdp: string, ip: string)
    requires IsWord(ip)
    ensures AllSurvive(KeptLines(sdp, ip), CRLF)
  {
    var lines := Lines(sdp);
    LinesAreLines(sdp);
    assert forall i :: 0 <= i < |lines| ==> lines[i] in lines;
    KeptSurvives(sdp, ip, CRLF);
  }

  lemma FirstKeptEndsClean(sdp: string, ip: string)
    requires IsWord(ip) && !HasCrLf(sdp) && |KeptLines(sdp, ip)| >= 2
    ensures !EndsInCr(KeptLines(sdp, ip)[0])
  {
    var lines := Lines(sdp);
    OnlyDuplicatesDrop(lines, KeyOf(ip), ImageOf(ip));
    OnlyLastEndsInCr(sdp, 0);
    LinesAreLines(sdp);
    assert lines[0] in lines;
    ImageSurvives(lines[0], ip, LF);
    FirstOfEachKeyIsKept(lines, KeyOf(ip), ImageOf(ip), 0);
  }

  lemma StrayCrBreaks(sdp: string, ip: string, k: nat)
    requires IsWord(ip) && !HasCrLf(sdp) && |KeptLines(sdp, ip)| >= 2
    requires k < |KeptLines(sdp, ip)| && EndsInCr(KeptLines(sdp, ip)[k])
    ensures Rewrite(Rewrite(sdp, ip), ip) != Rewrite(sdp, ip)
  {
    var kept, once := KeptLines(sdp, ip), Rewrite(sdp, ip);
    var twice := KeptLines(once, ip);
    StrayCrBecomesCrLf(kept, k);
    FirstKeptEndsClean(sdp, ip);
    KeptAreLines(sdp, ip);
    KeptAreLines(once, ip);
    var n := |kept[0]|;
    assert once == kept[0] + LF + Emit(kept[1..], LF);
    assert once[n] == '\n' && once[n - 1] == kept[0][n - 1];
    if Emit(twice, CRLF) == once {
      NewlinesFollowCr(twice, n);
      assert false;
    }
  }

  // ---- When it holds all the same ----

  /** The carriage return at the end of the last line goes with what is dropped or replaced: the line is a
      connection line, or a host candidate without extensions or with the key of an earlier one. */
  predicate LosesLastCr(lines: seq<string>, ip: string) {
    lines != [] &&
    var (front, last) := (lines[..|lines| - 1], lines[|lines| - 1]);
    IsConnection(last) || (IsHost(last) && (Parse(last).value.rest == [] || Repeats(front, last, KeyOf(ip))))
  }

  lemma PrintedEnds(c: Candidate)
    requires c.WellFormed()
    ensures EndsInCr(c.WithAddress(c.address)) <==> c.rest != [] && EndsInCr(c.rest)
  {
    JoinEnds(c.Head());
  }

  lemma ImageEnds(line: string, ip: string)
    requires IsWord(ip) && EndsInCr(line)
    ensures EndsInCr(Image(line, ip)) <==> !IsConnection(line) && (IsHost(line) ==> Parse(line).value.rest != [])
  {
    if IsHost(line) {
      ParsedWellFormed(line);
      var c := Parse(line).value;
      var d := c.(address := ip);
      assert forall i :: 0 <= i < 8 && i != 4 ==> d.Head()[i] == c.Head()[i];
      PrintedEnds(d);
    }
  }

  lemma FrontSurvives(sdp: string, ip: string, k: nat)
    requires IsWord(ip) && !HasCrLf(sdp) && Lines(sdp) != []
    requires k < |Kept(Lines(sdp)[..|Lines(sdp)| - 1], KeyOf(ip), ImageOf(ip))|
    ensures Survives(Kept(Lines(sdp)[..|Lines(sdp)| - 1], KeyOf(ip), ImageOf(ip))[k], LF)
  {
    var lines := Lines(sdp);
    var front := lines[..|lines| - 1];
    KeptAreImages(front, KeyOf(ip), ImageOf(ip), k);
    var i :| 0 <= i < |front| && Kept(front, KeyOf(ip), ImageOf(ip))[k] == ImageOf(ip)(front[i]);
    OnlyLastEndsInCr(sdp, i);
    LinesAreLines(sdp);
    assert front[i] == lines[i] && lines[i] in lines;
    ImageSurvives(front[i], ip, LF);
  }

  lemma LosingSurvives(sdp: string, ip: string)
    requires IsWord(ip) && !Resplits(sdp) && LosesLastCr(Lines(sdp), ip)
    ensures AllSurvive(KeptLines(sdp, ip), LF)
  {
    var (lines, kept) := (Lines(sdp), KeptLines(sdp, ip));
    var n := |lines| - 1;
    var (front, last) := (lines[..n], lines[n]);
    assert lines == front + [last];
    KeptStep(front, last, KeyOf(ip), ImageOf(ip));
    LastLineEndsInCr(sdp);
    ImageEnds(last, ip);
    KeptAreLines(sdp, ip);
    forall k | 0 <= k < |kept| ensures Survives(kept[k], LF) {
      if k < |Kept(front, KeyOf(ip), ImageOf(ip))| {
        FrontSurvives(sdp, ip, k);
      } else {
        assert Survives(kept[k], CRLF);
      }
    }
  }

  /** A line that is not dropped comes out last. */
  lemma LastIsKept(front: seq<string>, last: string, ip: string)
    requires !Repeats(front, last, KeyOf(ip))
    ensures var kept := Kept(front + [last], KeyOf(ip), ImageOf(ip));
            && |kept| == |Kept(front, KeyOf(ip), ImageOf(ip))| + 1 && kept[|kept| - 1] == Image(last, ip)
            && (front != [] ==> |kept| >= 2) && (front == [] ==> kept == [Image(last, ip)])
  {
    KeptStep(front, last, KeyOf(ip), ImageOf(ip));
    if front != [] {
      FirstOfEachKeyIsKept(front, KeyOf(ip), ImageOf(ip), 0);
    }
  }

  /** Unless it is lost, the carriage return ends the last kept line. */
  lemma KeepingEnds(sdp: string, ip: string)
    requires IsWord(ip) && !Resplits(sdp) && !LosesLastCr(Lines(sdp), ip)
    ensures var (lines, kept) := (Lines(sdp), KeptLines(sdp, ip));
            && lines != [] && |kept| > 0 && EndsInCr(kept[|kept| - 1]) && (|lines| > 1 ==> |kept| >= 2)
            && (|lines| == 1 ==> kept == [Image(lines[0], ip)])
  {
    var lines := Lines(sdp);
    LastLineEndsInCr(sdp);
    var n := |lines| - 1;
    assert lines == lines[..n] + [lines[n]];
    LastIsKept(lines[..n], lines[n], ip);
    ImageEnds(lines[n], ip);
  }

  /** A line that is its own image stays so without a carriage return at its end. */
  lemma ImageWithoutCr(line: string, ip: string)
    requires IsWord(ip) && Image(line + CR, ip) == line + CR
    ensures Image(line, ip) == line
  {
    var m := line + CR;
    ParseCr(line);
    ImageEnds(m, ip);
    if IsHost(m) {
      HostWithoutCr(line, ip);
    } else if CONNECTION <= line {
      PrefixCr(CONNECTION, line);
      TrimEndCr(line[|CONNECTION|..]);
    }
  }

  lemma HostWithoutCr(line: string, ip: string)
    requires IsWord(ip) && IsHost(line + CR) && Image(line + CR, ip) == line + CR
    ensures Image(line, ip) == line
  {
    ParseCr(line);
    ImageEnds(line + CR, ip);
    var d := Parse(line).value;
    PrintCr(d, ip);
    LastCrDrops(d.WithAddress(ip), line);
  }

  lemma PrintCr(d: Candidate, ip: string)
    ensures d.rest != [] ==> d.(rest := d.rest + CR).WithAddress(ip) == d.WithAddress(ip) + CR
  {
    assert d.(rest := d.rest + CR).(address := ip).Head() == d.(address := ip).Head();
  }

  lemma LastCrDrops(a: string, b: string)
    requires a + CR == b + CR
    ensures a == b
  {
    assert a == (a + CR)[..|a|] && b == (b + CR)[..|b|];
  }

  lemma ImageOfImage(line: string, ip: string)
    requires IsWord(ip) && (IsHost(line) ==> SingleSpaced(Parse(line).value.rest))
    ensures Image(Image(line, ip), ip) == Image(line, ip)
  {
    if IsHost(line) { HostImage(line, ip); } else { OtherImage(line, ip); }
  }

  lemma LinesOfOne(x: string)
    requires '\n' !in x
    ensures Lines(x + CR + LF) == NonEmpty(x) && Eol(x + CR + LF) == CRLF
  {
    LinesAtNewline(x + CR, []);
    LinesOfNothing();
    EndsInCrLf(x);
  }

  lemma LinesOfNothing()
    ensures Lines([]) == []
  {
  }

  lemma EndsInCrLf(x: string)
    ensures x + CR + LF + [] == x + CR + LF && HasCrLf(x + CR + LF) && StripCr(x + CR) == x
  {
    assert CrLfAt(x + CR + LF, |x|);
    assert (x + CR)[..|x|] == x;
  }

  lemma EmitKept(x: string, ip: string)
    requires Image(x, ip) == x
    ensures Emit(Kept([x], KeyOf(ip), ImageOf(ip)), CRLF) == x + CRLF
  {
    LastIsKept([], x, ip);
    assert [] + [x] == [x];
    assert Emit([x], CRLF) == x + CRLF + Emit([], CRLF);
  }

  lemma RewriteOneLine(x: string, ip: string)
    requires IsWord(ip) && '\n' !in x && Image(x + CR, ip) == x + CR
    ensures Rewrite(x + CR + LF, ip) == (if x == [] then [] else x + CRLF)
  {
    LinesOfOne(x);
    if x != [] {
      ImageWithoutCr(x, ip);
      EmitKept(x, ip);
    }
  }

  lemma RewrittenOneLine(sdp: string, ip: string) returns (x: string)
    requires IsWord(ip) && SpacedHosts(Lines(sdp)) && !Resplits(sdp) && !LosesLastCr(Lines(sdp), ip)
    requires |Lines(sdp)| == 1
    ensures '\n' !in x && Image(Lines(sdp)[0], ip) == x + CR && Image(x + CR, ip) == x + CR
    ensures Rewrite(sdp, ip) == x + CR + LF
  {
    KeepingEnds(sdp, ip);
    ImageOfImage(Lines(sdp)[0], ip);
    KeptAreLines(sdp, ip);
    x := OnlyKept(sdp, ip, Image(Lines(sdp)[0], ip));
  }

  lemma OnlyKept(sdp: string, ip: string, m: string) returns (x: string)
    requires KeptLines(sdp, ip) == [m] && EndsInCr(m) && AllSurvive([m], CRLF) && !HasCrLf(sdp)
    ensures '\n' !in x && m == x + CR && Rewrite(sdp, ip) == x + CR + LF
  {
    x := m[..|m| - 1];
    assert m == x + CR;
    assert Survives([m][0], CRLF);
    EmitOne(m);
  }

  lemma EmitOne(line: string)
    ensures Emit([line], LF) == line + LF
  {
    assert Emit([line], LF) == line + LF + Emit([], LF);
  }

  /** A single line with a stray carriage return keeps it, unless it is nothing else. */
  lemma OneLineExactly(sdp: string, ip: string)
    requires IsWord(ip) && SpacedHosts(Lines(sdp)) && !Resplits(sdp) && !LosesLastCr(Lines(sdp), ip)
    requires |Lines(sdp)| == 1
    ensures Rewrite(Rewrite(sdp, ip), ip) == Rewrite(sdp, ip) <==> Lines(sdp)[0] != CR
  {
    var x := RewrittenOneLine(sdp, ip);
    OnlyCr(Lines(sdp)[0], ip);
    RewriteOneLine(x, ip);
    AroundCr(x);
  }

  lemma AroundCr(x: string)
    ensures x + CRLF == x + CR + LF && (x + CR == CR <==> x == []) && x + CR + LF != []
  {
  }

  lemma OnlyCr(line: string, ip: string)
    ensures Image(line, ip) == CR <==> line == CR
  {
    if IsHost(line) {
      assert CANDIDATE <= Image(line, ip);
    }
    if line == CR {
      assert Parse(line).None?;
    }
  }

  /**
   * For every text: rewriting twice is rewriting once exactly when the text has CRLF or does not end in two
   * carriage returns, or the stray one is lost with the last line, or the text is one line that is more than it.
   */
  lemma IdempotentExactly(sdp: string, ip: string)
    requires IsWord(ip) && SpacedHosts(Lines(sdp))
    ensures Rewrite(Rewrite(sdp, ip), ip) == Rewrite(sdp, ip) <==>
            Resplits(sdp) || LosesLastCr(Lines(sdp), ip) || (|Lines(sdp)| == 1 && Lines(sdp)[0] != CR)
  {
    if Resplits(sdp) {
      RewriteIsIdempotent(sdp, ip);
    } else if LosesLastCr(Lines(sdp), ip) {
      LosingSurvives(sdp, ip);
      SurvivorsResplit(sdp, ip);
      LinesAreStable(Lines(sdp), ip);
      KeptTwice(Lines(sdp), KeyOf(ip), ImageOf(ip));
    } else if |Lines(sdp)| == 1 {
      OneLineExactly(sdp, ip);
    } else {
      LastLineEndsInCr(sdp);
      KeepingEnds(sdp, ip);
      StrayCrBreaks(sdp, ip, |KeptLines(sdp, ip)| - 1);
    }
  }
}
