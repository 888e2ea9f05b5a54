/** The run over the section table: pool the announced prefixes of each
    section's ASNs, build its rule block and splice it into the file. The
    registry's responses are an input; reading and writing the file are not
    part of the model. */
module Update {
  import opened Wrappers
  import opened Networks
  import opened Dedupe
  import opened Rules
  import opened Sections

  /** The `prefix` fields of one registry response that are present and
      non-empty, in response order; `None` stands for a missing field. */
  function PresentPrefixes(fields: seq<Option<string>>): (r: seq<string>)
    ensures forall p :: p in r <==> p != "" && Some(p) in fields
    ensures |r| <= |fields|
  {
    if fields == [] then []
    else
      assert fields == [fields[0]] + fields[1..];
      var rest := PresentPrefixes(fields[1..]);
      match fields[0]
      case Some(p) => if p != "" then [p] + rest else rest
      case None => rest
  }

  /** The prefixes of all the given ASNs, pooled in ASN order: a prefix is
      pooled exactly when some ASN's response carries it. */
  function Pooled(announced: nat -> seq<Option<string>>, asns: seq<nat>): (r: seq<string>)
    ensures forall p :: p in r <==> p != "" && exists k :: 0 <= k < |asns| && Some(p) in announced(asns[k])
  {
    if asns == [] then []
    else
      var init, last := asns[..|asns| - 1], asns[|asns| - 1];
      var r := Pooled(announced, init) + PresentPrefixes(announced(last));
      assert forall k :: 0 <= k < |init| ==> init[k] == asns[k];
      r
  }

  /** One entry of the section table: the section's name and its ASNs. */
  datatype Section = Section(header: string, asns: seq<nat>)

  /** `body` is the rule block built from `prefixes` followed by one blank
      line. */
  ghost predicate IsRuleBlock(body: seq<string>, prefixes: seq<string>, parse: string -> Net, render: Net -> string)
    requires forall p :: p in prefixes ==> ValidNet(parse(p))
  {
    && |body| >= 1 && body[|body| - 1] == ""
    && BuiltFrom(body[..|body| - 1], prefixes, parse, render)
  }

  /** No later entry before position `n` of the table names the same
      section as entry `j`, so entry `j`'s block is the one that stays. */
  predicate LastFor(table: seq<Section>, j: nat, n: nat)
    requires j < n <= |table|
  {
    forall k :: j < k < n ==> table[k].header != table[j].header
  }

  /** No rule line opens a section. */
  lemma RuleLinesOpenNoSection(lines: seq<string>, nets: seq<Net>, render: Net -> string)
    requires RendersAs(lines, nets, render)
    ensures forall l :: l in lines ==> !IsHeader(l)
  {
    forall i | 0 <= i < |lines|
      ensures !IsHeader(lines[i])
    {
      var n := nets[i];
      assert lines[i][0] == 'I';
    }
  }

  /** Every section among the first `n` entries of the table holds the
      block built from its own ASNs' prefixes. */
  ghost predicate Filled(file: seq<string>, table: seq<Section>, n: nat, announced: nat -> seq<Option<string>>,
                         parse: string -> Net, render: Net -> string)
    requires n <= |table|
    requires forall p :: ValidNet(parse(p))
  {
    forall j {:trigger LastFor(table, j, n)} :: 0 <= j < n && LastFor(table, j, n) ==>
      && HeaderLine(table[j].header) in file
      && IsRuleBlock(Body(file, table[j].header), Pooled(announced, table[j].asns), parse, render)
  }

  method UpdateSections(lines: seq<string>, table: seq<Section>, announced: nat -> seq<Option<string>>,
                        parse: string -> Net, render: Net -> string)
    returns (r: Result<seq<string>, string>)
    requires forall p :: ValidNet(parse(p))
    ensures r.Failure? <==> exists i :: 0 <= i < |table| && HeaderLine(table[i].header) !in lines
    ensures r.Failure? ==>
      exists i :: && 0 <= i < |table| && HeaderLine(table[i].header) !in lines
                  && (forall j :: 0 <= j < i ==> HeaderLine(table[j].header) in lines)
                  && r.error == MissingHeader(table[i].header)
    ensures r.Success? ==> HeaderLines(r.value) == HeaderLines(lines)
    ensures r.Success? ==> Filled(r.value, table, |table|, announced, parse, render)
    ensures r.Success? ==> Untouched(r.value, lines, table, |table|)
    ensures r.Success? ==> Preamble(r.value) == Preamble(lines)
    ensures r.Success? ==> exists files :: FoldsTo(lines, table, |table|, announced, parse, render, files) && files[|table|] == r.value
  {
    var cur := lines;
    ghost var files := [lines];
    for i := 0 to |table|
      invariant Progress(lines, table, i, announced, parse, render, cur, files)
    {
      var next := RefreshSection(cur, table, i, announced, parse, render);
      if next.Failure? {
        ProgressStops(lines, table, i, announced, parse, render, cur, files);
        return next;
      }
      ProgressStep(lines, table, i, announced, parse, render, cur, files, next.value);
      files := files + [next.value];
      cur := next.value;
    }
    ProgressDone(lines, table, announced, parse, render, cur, files);
    return Success(cur);
  }

  /** The loop invariant after `i` passes: `files` records them, ending at
      `cur`; the entries so far all had their header, and `cur` has the
      headers, the filled entries, the untouched sections and the preamble
      the contract promises for them. */
  ghost predicate Progress(lines: seq<string>, table: seq<Section>, i: nat, announced: nat -> seq<Option<string>>,
                           parse: string -> Net, render: Net -> string, cur: seq<string>, files: seq<seq<string>>)
    requires i <= |table| && forall p :: ValidNet(parse(p))
  {
    && FoldsTo(lines, table, i, announced, parse, render, files) && files[i] == cur
    && HeaderLines(cur) == HeaderLines(lines)
    && (forall j :: 0 <= j < i ==> HeaderLine(table[j].header) in lines)
    && Filled(cur, table, i, announced, parse, render)
    && Untouched(cur, lines, table, i)
    && Preamble(cur) == Preamble(lines)
  }

  /** A successful pass keeps the loop invariant. */
  lemma ProgressStep(lines: seq<string>, table: seq<Section>, i: nat, announced: nat -> seq<Option<string>>,
                     parse: string -> Net, render: Net -> string, cur: seq<string>, files: seq<seq<string>>,
                     next: seq<string>)
    requires i < |table| && forall p :: ValidNet(parse(p))
    requires Progress(lines, table, i, announced, parse, render, cur, files)
    requires HeaderLine(table[i].header) in cur
    requires HeaderLines(next) == HeaderLines(cur)
    requires Filled(next, table, i + 1, announced, parse, render)
    requires KeepsOthers(cur, next, table[i].header)
    requires Preamble(next) == Preamble(cur)
    requires StepTo(cur, table[i], announced, parse, render, next)
    ensures Progress(lines, table, i + 1, announced, parse, render, next, files + [next])
  {
    assert HeaderLine(table[i].header) in lines by {
      HeaderPresence(cur, lines, table[i].header);
    }
    UntouchedStep(cur, next, lines, table, i);
    FoldsExtend(lines, table, i, announced, parse, render, files, next);
  }

  /** The run stops at the first entry whose header line is missing. */
  lemma ProgressStops(lines: seq<string>, table: seq<Section>, i: nat, announced: nat -> seq<Option<string>>,
                      parse: string -> Net, render: Net -> string, cur: seq<string>, files: seq<seq<string>>)
    requires i < |table| && forall p :: ValidNet(parse(p))
    requires Progress(lines, table, i, announced, parse, render, cur, files)
    requires HeaderLine(table[i].header) !in cur
    ensures exists i :: 0 <= i < |table| && HeaderLine(table[i].header) !in lines
    ensures exists i' :: && 0 <= i' < |table| && HeaderLine(table[i'].header) !in lines
                         && (forall j :: 0 <= j < i' ==> HeaderLine(table[j].header) in lines)
                         && MissingHeader(table[i].header) == MissingHeader(table[i'].header)
  {
    assert HeaderLine(table[i].header) !in lines by {
      HeaderPresence(cur, lines, table[i].header);
    }
  }

  /** After the last pass the invariant gives the contract's success case. */
  lemma ProgressDone(lines: seq<string>, table: seq<Section>, announced: nat -> seq<Option<string>>,
                     parse: string -> Net, render: Net -> string, cur: seq<string>, files: seq<seq<string>>)
    requires forall p :: ValidNet(parse(p))
    requires Progress(lines, table, |table|, announced, parse, render, cur, files)
    ensures !exists i :: 0 <= i < |table| && HeaderLine(table[i].header) !in lines
    ensures HeaderLines(cur) == HeaderLines(lines)
    ensures Filled(cur, table, |table|, announced, parse, render)
    ensures Untouched(cur, lines, table, |table|)
    ensures Preamble(cur) == Preamble(lines)
    ensures exists files :: FoldsTo(lines, table, |table|, announced, parse, render, files) && files[|table|] == cur
  {
    assert FoldsTo(lines, table, |table|, announced, parse, render, files) && files[|table|] == cur;
  }

  /** Pass `i` of the loop over the table: pool the prefixes of the entry's
      ASNs, build their rule block and splice it into the file. */
  method RefreshSection(cur: seq<string>, table: seq<Section>, i: nat, announced: nat -> seq<Option<string>>,
                        parse: string -> Net, render: Net -> string)
    returns (next: Result<seq<string>, string>)
    requires i < |table| && forall p :: ValidNet(parse(p))
    requires Filled(cur, table, i, announced, parse, render)
    ensures next.Failure? <==> HeaderLine(table[i].header) !in cur
    ensures next.Failure? ==> next.error == MissingHeader(table[i].header)
    ensures next.Success? ==> HeaderLines(next.value) == HeaderLines(cur)
    ensures next.Success? ==> Filled(next.value, table, i + 1, announced, parse, render)
    ensures next.Success? ==> KeepsOthers(cur, next.value, table[i].header)
    ensures next.Success? ==> Preamble(next.value) == Preamble(cur)
    ensures next.Success? ==> StepTo(cur, table[i], announced, parse, render, next.value)
  {
    var section := table[i];
    var asns := section.asns;
    var prefixes: seq<string> := [];
    for k := 0 to |asns|
      invariant prefixes == Pooled(announced, asns[..k])
    {
      assert asns[..k + 1][..k] == asns[..k];
      prefixes := prefixes + PresentPrefixes(announced(asns[k]));
    }
    assert asns[..|asns|] == asns;
    var block := BuildLines(prefixes, parse, render);
    next := ReplaceSection(cur, section.header, block);
    if next.Success? {
      SpliceStep(cur, section.header, block, prefixes, parse, render);
      assert Refreshed(cur, next.value, section, announced, parse, render);
      FilledStep(cur, next.value, table, i, announced, parse, render);
      assert Splice(cur, section.header, block) == Success(next.value);
    }
  }

  /** `next` is `cur` after the pass of the loop for `section`: `cur` with
      that section replaced by the block built from its ASNs' prefixes. */
  ghost predicate StepTo(cur: seq<string>, section: Section, announced: nat -> seq<Option<string>>,
                         parse: string -> Net, render: Net -> string, next: seq<string>)
    requires forall p :: ValidNet(parse(p))
  {
    exists block :: BuiltFrom(block, Pooled(announced, section.asns), parse, render)
                    && Splice(cur, section.header, block) == Success(next)
  }

  /** `files` holds the file before the loop and after each of its first `n`
      passes over the table. */
  ghost predicate FoldsTo(lines: seq<string>, table: seq<Section>, n: nat, announced: nat -> seq<Option<string>>,
                          parse: string -> Net, render: Net -> string, files: seq<seq<string>>)
    requires n <= |table| && forall p :: ValidNet(parse(p))
  {
    && |files| == n + 1 && files[0] == lines
    && forall k :: 0 <= k < n ==> StepTo(files[k], table[k], announced, parse, render, files[k + 1])
  }

  lemma FoldsExtend(lines: seq<string>, table: seq<Section>, n: nat, announced: nat -> seq<Option<string>>,
                    parse: string -> Net, render: Net -> string, files: seq<seq<string>>, next: seq<string>)
    requires n < |table| && forall p :: ValidNet(parse(p))
    requires FoldsTo(lines, table, n, announced, parse, render, files)
    requires StepTo(files[n], table[n], announced, parse, render, next)
    ensures FoldsTo(lines, table, n + 1, announced, parse, render, files + [next])
  {
    var files' := files + [next];
    forall k | 0 <= k < n + 1
      ensures StepTo(files'[k], table[k], announced, parse, render, files'[k + 1])
    {
      assert files'[k] == files[k];
      if k < n {
        assert files'[k + 1] == files[k + 1];
      }
    }
  }

  /** One pass has a single outcome: the block is a function of the
      prefixes and the splice a function of the block. */
  lemma StepUnique(cur: seq<string>, section: Section, announced: nat -> seq<Option<string>>,
                   parse: string -> Net, render: Net -> string, n1: seq<string>, n2: seq<string>)
    requires forall p :: ValidNet(parse(p))
    requires StepTo(cur, section, announced, parse, render, n1)
    requires StepTo(cur, section, announced, parse, render, n2)
    ensures n1 == n2
  {
    var prefixes := Pooled(announced, section.asns);
    var b1 :| BuiltFrom(b1, prefixes, parse, render) && Splice(cur, section.header, b1) == Success(n1);
    var b2 :| BuiltFrom(b2, prefixes, parse, render) && Splice(cur, section.header, b2) == Success(n2);
    BuiltUnique(b1, b2, prefixes, parse, render);
  }

  /** The run's result is determined: any two sequences of files that follow
      the loop over the whole table are equal, so the file the run writes is
      the last of them. */
  lemma FoldsUnique(lines: seq<string>, table: seq<Section>, announced: nat -> seq<Option<string>>,
                    parse: string -> Net, render: Net -> string, f1: seq<seq<string>>, f2: seq<seq<string>>)
    requires forall p :: ValidNet(parse(p))
    requires FoldsTo(lines, table, |table|, announced, parse, render, f1)
    requires FoldsTo(lines, table, |table|, announced, parse, render, f2)
    ensures f1 == f2
  {
    forall k | 0 <= k <= |table|
      ensures f1[k] == f2[k]
    {
      FoldsAgree(lines, table, announced, parse, render, f1, f2, k);
    }
  }

  lemma {:induction false} FoldsAgree(lines: seq<string>, table: seq<Section>, announced: nat -> seq<Option<string>>,
                                      parse: string -> Net, render: Net -> string,
                                      f1: seq<seq<string>>, f2: seq<seq<string>>, k: nat)
    requires forall p :: ValidNet(parse(p))
    requires FoldsTo(lines, table, |table|, announced, parse, render, f1)
    requires FoldsTo(lines, table, |table|, announced, parse, render, f2)
    requires k <= |table|
    ensures f1[k] == f2[k]
  {
    if k > 0 {
      FoldsAgree(lines, table, announced, parse, render, f1, f2, k - 1);
      StepUnique(f1[k - 1], table[k - 1], announced, parse, render, f1[k], f2[k]);
    }
  }

  /** `next` is `cur` with the section of `section` refilled: the same
      header lines, that section holding the block built from its ASNs'
      prefixes, and every other section as before. */
  ghost predicate Refreshed(cur: seq<string>, next: seq<string>, section: Section, announced: nat -> seq<Option<string>>,
                            parse: string -> Net, render: Net -> string)
    requires forall p :: ValidNet(parse(p))
  {
    && HeaderLines(next) == HeaderLines(cur)
    && HeaderLine(section.header) in next
    && IsRuleBlock(Body(next, section.header), Pooled(announced, section.asns), parse, render)
    && KeepsOthers(cur, next, section.header)
  }

  /** Every section of `cur` other than `header` is in `next` with the same
      body. */
  ghost predicate KeepsOthers(cur: seq<string>, next: seq<string>, header: string) {
    forall other {:trigger Body(cur, other)} :: other != header && HeaderLine(other) in cur ==>
      && HeaderLine(other) in next
      && Body(next, other) == Body(cur, other)
  }

  /** The section `h` of `lines`, if there is one, is in `file` with the
      same body. */
  ghost predicate SameBody(file: seq<string>, lines: seq<string>, h: string) {
    HeaderLine(h) in lines ==> HeaderLine(h) in file && Body(file, h) == Body(lines, h)
  }

  /** Every section of `lines` that no entry among the first `n` of the table
      names is in `file` with the body it had in `lines`. */
  ghost predicate Untouched(file: seq<string>, lines: seq<string>, table: seq<Section>, n: nat)
    requires n <= |table|
  {
    forall h :: (forall j :: 0 <= j < n ==> table[j].header != h) ==> SameBody(file, lines, h)
  }

  /** Refreshing entry `i` leaves alone the sections no entry up to `i`
      names. */
  lemma UntouchedStep(cur: seq<string>, next: seq<string>, lines: seq<string>, table: seq<Section>, i: nat)
    requires i < |table|
    requires Untouched(cur, lines, table, i) && KeepsOthers(cur, next, table[i].header)
    ensures Untouched(next, lines, table, i + 1)
  {
    forall h | forall j :: 0 <= j < i + 1 ==> table[j].header != h
      ensures SameBody(next, lines, h)
    {
      assert table[i].header != h && forall j :: 0 <= j < i ==> table[j].header != h;
      assert SameBody(cur, lines, h);
    }
  }

  /** Files with the same header lines contain the same section headers. */
  lemma HeaderPresence(cur: seq<string>, lines: seq<string>, header: string)
    requires HeaderLines(cur) == HeaderLines(lines)
    ensures HeaderLine(header) in cur <==> HeaderLine(header) in lines
  {
    HeaderLineFacts(header, header);
    HeaderLinesMembers(cur);
    HeaderLinesMembers(lines);
  }

  /** Splicing a rule block into a section fills that section and keeps the
      file's headers and every other section. */
  lemma SpliceStep(cur: seq<string>, header: string, block: seq<string>, prefixes: seq<string>,
                   parse: string -> Net, render: Net -> string)
    requires forall p :: ValidNet(parse(p))
    requires BuiltFrom(block, prefixes, parse, render)
    requires Splice(cur, header, block).Success?
    ensures HeaderLines(Splice(cur, header, block).value) == HeaderLines(cur)
    ensures HeaderLine(header) in Splice(cur, header, block).value
    ensures IsRuleBlock(Body(Splice(cur, header, block).value, header), prefixes, parse, render)
    ensures KeepsOthers(cur, Splice(cur, header, block).value, header)
    ensures Preamble(Splice(cur, header, block).value) == Preamble(cur)
  {
    var kept :| DedupSpec(Parsed(prefixes, parse), kept) && RendersAs(block, kept, render);
    RuleLinesOpenNoSection(block, kept, render);
    SpliceKeepsHeaders(cur, header, block);
    SpliceKeepsPreamble(cur, header, block);
    OwnSectionFilled(cur, header, block, prefixes, parse, render, kept);
    forall other | other != header && HeaderLine(other) in cur
      ensures HeaderLine(other) in Splice(cur, header, block).value
      ensures Body(Splice(cur, header, block).value, other) == Body(cur, other)
    {
      SpliceKeepsOtherBody(cur, header, block, other);
    }
  }

  lemma OwnSectionFilled(cur: seq<string>, header: string, block: seq<string>, prefixes: seq<string>,
                         parse: string -> Net, render: Net -> string, kept: seq<Net>)
    requires forall p :: ValidNet(parse(p))
    requires forall l :: l in block ==> !IsHeader(l)
    requires DedupSpec(Parsed(prefixes, parse), kept) && RendersAs(block, kept, render)
    requires Splice(cur, header, block).Success?
    ensures HeaderLine(header) in Splice(cur, header, block).value
    ensures IsRuleBlock(Body(Splice(cur, header, block).value, header), prefixes, parse, render)
  {
    SpliceSetsBody(cur, header, block);
    var body := block + [""];
    assert body[..|body| - 1] == block;
  }

  /** Refreshing entry `i` extends the filled part of the table by one. */
  lemma FilledStep(cur: seq<string>, next: seq<string>, table: seq<Section>, i: nat,
                   announced: nat -> seq<Option<string>>, parse: string -> Net, render: Net -> string)
    requires i < |table| && forall p :: ValidNet(parse(p))
    requires Filled(cur, table, i, announced, parse, render)
    requires Refreshed(cur, next, table[i], announced, parse, render)
    ensures HeaderLines(next) == HeaderLines(cur)
    ensures Filled(next, table, i + 1, announced, parse, render)
  {
    forall j | 0 <= j < i + 1 && LastFor(table, j, i + 1)
      ensures HeaderLine(table[j].header) in next
      ensures IsRuleBlock(Body(next, table[j].header), Pooled(announced, table[j].asns), parse, render)
    {
      if j < i {
        var h := table[j].header;
        assert table[i].header != h && LastFor(table, j, i);
        assert HeaderLine(h) in cur && IsRuleBlock(Body(cur, h), Pooled(announced, table[j].asns), parse, render);
        assert HeaderLine(h) in next && Body(next, h) == Body(cur, h);
      }
    }
  }
}
