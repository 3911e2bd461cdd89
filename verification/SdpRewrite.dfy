/** The host-candidate rewrite of an SDP answer, line by line and over whole texts. */
module SdpRewrite {
  import opened Prelude
  import opened Text
  import opened Dedup
  import opened Sdp

  // ---- One line ----

  predicate IsHost(line: string) {
    var c := Parse(line);
    c.Some? && c.value.typ == "host"
  }

  /** The text the rewrite compares host candidates by. */
  function Key(line: string, ip: string): Option<string> {
    if IsHost(line) then Some(Lower(Parse(line).value.transport) + "|" + ip + "|" + Parse(line).value.port) else None
  }

  /** A `c=` line whose address is replaced. */
  predicate IsConnection(line: string) {
    Parse(line).None? && CONNECTION <= line && TrimEnd(line[|CONNECTION|..]) != PLACEHOLDER
  }

  /** What a line that is not dropped becomes. */
  function Image(line: string, ip: string): string {
    if IsHost(line) then Parse(line).value.WithAddress(ip)
    else if IsConnection(line) then CONNECTION + ip
    else line
  }

  function KeyOf(ip: string): string -> Option<string> {
    line => Key(line, ip)
  }

  function ImageOf(ip: string): string -> string {
    line => Image(line, ip)
  }

  // ---- All lines ----

  function Rewrite(sdp: string, ip: string): string {
    Emit(Kept(Lines(sdp), KeyOf(ip), ImageOf(ip)), Eol(sdp))
  }

  lemma EmitStep(lines: seq<string>, line: string, ip: string, eol: string)
    ensures Emit(Kept(lines + [line], KeyOf(ip), ImageOf(ip)), eol)
         == if Key(line, ip).Some? && Key(line, ip).value in Keys(lines, KeyOf(ip)) then Emit(Kept(lines, KeyOf(ip), ImageOf(ip)), eol)
            else Emit(Kept(lines, KeyOf(ip), ImageOf(ip)), eol) + Image(line, ip) + eol
  {
    KeptStep(lines, line, KeyOf(ip), ImageOf(ip));
    RepeatsExactly(lines, line, KeyOf(ip));
    EmitAppend(Kept(lines, KeyOf(ip), ImageOf(ip)), Image(line, ip), eol);
  }

  /** What the loop has built after the lines `before`: the emitted text and the keys it remembers. */
  ghost predicate Rewritten(before: seq<string>, ip: string, eol: string, seen: seq<string>, out: string) {
    && out == Emit(Kept(before, KeyOf(ip), ImageOf(ip)), eol)
    && forall k :: k in seen <==> k in Keys(before, KeyOf(ip))
  }

  lemma LineRewritten(before: seq<string>, line: string, ip: string, eol: string,
                      seen: seq<string>, out: string, more: seq<string>, longer: string)
    requires Rewritten(before, ip, eol, seen, out)
    requires var key := Key(line, ip);
             if key.Some? && key.value in seen then more == seen && longer == out
             else more == (if key.Some? then seen + [key.value] else seen) && longer == out + Image(line, ip) + eol
    ensures Rewritten(before + [line], ip, eol, more, longer)
  {
    EmitStep(before, line, ip, eol);
    KeysStep(before, line, KeyOf(ip));
  }

  /** The body of the loop. */
  method RewriteLine(line: string, ip: string, eol: string, seen: seq<string>, out: string, ghost before: seq<string>)
    returns (seen': seq<string>, out': string)
    requires Rewritten(before, ip, eol, seen, out)
    ensures Rewritten(before + [line], ip, eol, seen', out')
  {
    seen', out' := seen, out;
    var parsed := Parse(line);
    if parsed.Some? && parsed.value.typ == "host" {
      var key := Lower(parsed.value.transport) + "|" + ip + "|" + parsed.value.port;
      if key !in seen {
        seen' := seen + [key];
        out' := out + parsed.value.WithAddress(ip) + eol;
      }
    } else if parsed.None? && CONNECTION <= line && TrimEnd(line[|CONNECTION|..]) != PLACEHOLDER {
      out' := out + (CONNECTION + ip) + eol;
    } else {
      out' := out + line + eol;
    }
    LineRewritten(before, line, ip, eol, seen, out, seen', out');
  }

  /** The source's loop: host lines are remembered by key, and only the first of each key is pushed. */
  method RewriteHostCandidates(sdp: string, ip: string) returns (out: string)
    ensures out == Rewrite(sdp, ip)
  {
    var eol := Eol(sdp);
    var lines := Lines(sdp);
    out := [];
    var seen: seq<string> := [];
    NothingRewritten(ip, eol);
    for n := 0 to |lines|
      invariant Rewritten(lines[..n], ip, eol, seen, out)
    {
      TakeOneMore(lines, n);
      seen, out := RewriteLine(lines[n], ip, eol, seen, out, lines[..n]);
    }
    assert lines[..|lines|] == lines;
  }

  lemma NothingRewritten(ip: string, eol: string)
    ensures Rewritten([], ip, eol, [], [])
  {
  }

  lemma TakeOneMore(lines: seq<string>, n: nat)
    requires n < |lines|
    ensures lines[..n + 1] == lines[..n] + [lines[n]]
  {
  }
}
