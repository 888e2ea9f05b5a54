/** Turning announced prefixes into the rule lines of one section. */
module Rules {
  import opened Wrappers
  import opened Networks
  import opened Sorting
  import opened Dedupe

  /** The rule line for network `n`, where `text` is the library's rendering
      of `n` in CIDR notation. The line can be read back into the version
      tag and the text. */
  function RuleLine(n: Net, text: string): (line: string)
    ensures ParseRule(line) == Some((if n.version == 4 then 4 else 6, text))
  {
    if n.version == 4 then
      TagRoundTrip(4, "IP-CIDR,", text);
      "IP-CIDR," + text + ",no-resolve"
    else
      TagRoundTrip(6, "IP-CIDR6,", text);
      "IP-CIDR6," + text + ",no-resolve"
  }

  /** Reads a rule line back: its version tag and the network text between
      the tag and the trailing option. */
  function ParseRule(line: string): Option<(nat, string)> {
    if |line| >= 19 && line[..8] == "IP-CIDR," && line[|line| - 11..] == ",no-resolve" then
      Some((4, line[8..|line| - 11]))
    else if |line| >= 20 && line[..9] == "IP-CIDR6," && line[|line| - 11..] == ",no-resolve" then
      Some((6, line[9..|line| - 11]))
    else
      None
  }

  lemma TagRoundTrip(v: nat, tag: string, text: string)
    requires (v == 4 && tag == "IP-CIDR,") || (v == 6 && tag == "IP-CIDR6,")
    ensures ParseRule(tag + text + ",no-resolve") == Some((v, text))
  {
    var line := tag + text + ",no-resolve";
    assert line[..|tag|] == tag;
    assert line[|line| - 11..] == ",no-resolve";
    assert line[|tag|..|line| - 11] == text;
    if v == 6 {
      assert line[..8] != "IP-CIDR," by {
        assert line[7] == '6';
      }
    }
  }

  /** `ip_network(p, strict=False)` for each prefix, in order. */
  function Parsed(prefixes: seq<string>, parse: string -> Net): (nets: seq<Net>)
    ensures |nets| == |prefixes|
    ensures (forall p :: p in prefixes ==> ValidNet(parse(p))) ==> AllValid(nets)
  {
    seq(|prefixes|, i requires 0 <= i < |prefixes| => parse(prefixes[i]))
  }

  /** `lines` holds one rule line per network of `nets`, in the same order. */
  predicate RendersAs(lines: seq<string>, nets: seq<Net>, render: Net -> string) {
    |lines| == |nets| && forall i :: 0 <= i < |lines| ==> lines[i] == RuleLine(nets[i], render(nets[i]))
  }

  /** `block` is what `build_lines` returns for `prefixes`: one rule line per
      network of the deduplicated list of the parsed prefixes. */
  ghost predicate BuiltFrom(block: seq<string>, prefixes: seq<string>, parse: string -> Net, render: Net -> string)
    requires forall p :: p in prefixes ==> ValidNet(parse(p))
  {
    exists kept :: DedupSpec(Parsed(prefixes, parse), kept) && RendersAs(block, kept, render)
  }

  /** The block is a function of the prefixes: two blocks built from the
      same prefixes are equal. */
  lemma BuiltUnique(b1: seq<string>, b2: seq<string>, prefixes: seq<string>, parse: string -> Net, render: Net -> string)
    requires forall p :: p in prefixes ==> ValidNet(parse(p))
    requires BuiltFrom(b1, prefixes, parse, render) && BuiltFrom(b2, prefixes, parse, render)
    ensures b1 == b2
  {
    var k1 :| DedupSpec(Parsed(prefixes, parse), k1) && RendersAs(b1, k1, render);
    var k2 :| DedupSpec(Parsed(prefixes, parse), k2) && RendersAs(b2, k2, render);
    DedupDeterministic(Parsed(prefixes, parse), k1, k2);
  }

  method BuildLines(prefixes: seq<string>, parse: string -> Net, render: Net -> string)
    returns (lines: seq<string>)
    requires forall p :: p in prefixes ==> ValidNet(parse(p))
    ensures AllValid(Parsed(prefixes, parse))
    ensures BuiltFrom(lines, prefixes, parse, render)
  {
    var nets := Parsed(prefixes, parse);
    var deduped := DedupeSubnets(nets);
    lines := [];
    for i := 0 to |deduped|
      invariant RendersAs(lines, deduped[..i], render)
    {
      var net := deduped[i];
      if net.version == 4 {
        lines := lines + ["IP-CIDR," + render(net) + ",no-resolve"];
      } else {
        lines := lines + ["IP-CIDR6," + render(net) + ",no-resolve"];
      }
    }
    assert deduped[..|deduped|] == deduped;
    assert DedupSpec(nets, deduped);
  }
}
