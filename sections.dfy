/** Splicing a rule block into a named section of the configuration file,
    the file being a sequence of lines. */
module Sections {
  import opened Wrappers

  /** The literal line that opens the section named `header`. */
  function HeaderLine(header: string): string {
    "# " + header
  }

  /** `line.startswith("# ")`: the line opens some section. */
  function IsHeader(line: string): (r: bool)
    ensures r <==> |line| >= 2 && line[..2] == "# "
  {
    |line| >= 2 && line[0] == '#' && line[1] == ' '
  }

  /** The message the run aborts with when a section is missing. */
  function MissingHeader(header: string): string {
    "Missing section header: " + HeaderLine(header)
  }

  /** `lines.index(target)`: the position of the first line equal to
      `target`, or None where the library raises an error. */
  function FindLine(lines: seq<string>, target: string): (r: Option<nat>)
    ensures r.None? <==> target !in lines
    ensures r.Some? ==> r.value < |lines| && lines[r.value] == target
    ensures r.Some? ==> forall j :: 0 <= j < r.value ==> lines[j] != target
  {
    FindFromStart(lines, target);
    FindFrom(lines, target, 0)
  }

  /** `lines[j] == target`, named so that the facts the search records about
      the lines it skipped are used only where a proof mentions them. */
  predicate LineIs(lines: seq<string>, j: nat, target: string)
    requires j < |lines|
  {
    lines[j] == target
  }

  /** The first position at or after `from` holding `target`. */
  function FindFrom(lines: seq<string>, target: string, from: nat): (r: Option<nat>)
    requires from <= |lines|
    ensures r.None? ==> forall j :: from <= j < |lines| ==> !LineIs(lines, j, target)
    ensures r.Some? ==> from <= r.value < |lines| && lines[r.value] == target
    ensures r.Some? ==> forall j :: from <= j < r.value ==> !LineIs(lines, j, target)
    decreases |lines| - from
  {
    if from == |lines| then None
    else if lines[from] == target then Some(from)
    else FindFrom(lines, target, from + 1)
  }

  lemma FindFromStart(lines: seq<string>, target: string)
    ensures var r := FindFrom(lines, target, 0);
      && (r.None? <==> target !in lines)
      && (r.Some? ==> forall j :: 0 <= j < r.value ==> lines[j] != target)
  {
    var r := FindFrom(lines, target, 0);
    if r.None? {
      forall j | 0 <= j < |lines|
        ensures lines[j] != target
      {
        assert !LineIs(lines, j, target);
      }
    } else {
      forall j | 0 <= j < r.value
        ensures lines[j] != target
      {
        assert !LineIs(lines, j, target);
      }
    }
  }

  /** The first position at or after `from` holding a header line, or the
      end of the file when there is none. */
  function SectionEnd(lines: seq<string>, from: nat): (e: nat)
    requires from <= |lines|
    ensures from <= e <= |lines|
    ensures e < |lines| ==> IsHeader(lines[e])
    ensures from < e ==> !IsHeader(lines[from])
    decreases |lines| - from
  {
    if from == |lines| || IsHeader(lines[from]) then from else SectionEnd(lines, from + 1)
  }

  /** No line from `from` up to the section end opens a section; the line at
      the end, when there is one, does. */
  lemma {:induction false} SectionEndSpec(lines: seq<string>, from: nat)
    requires from <= |lines|
    ensures forall j :: from <= j < SectionEnd(lines, from) ==> !IsHeader(lines[j])
    ensures SectionEnd(lines, from) < |lines| ==> IsHeader(lines[SectionEnd(lines, from)])
    decreases |lines| - from
  {
    if from < |lines| && !IsHeader(lines[from]) {
      SectionEndSpec(lines, from + 1);
    }
  }

  /** What replacing the section `header` by `block` produces: the file up to
      and including the header line, the block, one blank line, and the file
      from the next header on. */
  function Splice(lines: seq<string>, header: string, block: seq<string>): (r: Result<seq<string>, string>)
    ensures r.Failure? <==> HeaderLine(header) !in lines
    ensures r.Failure? ==> r.error == MissingHeader(header)
  {
    match FindLine(lines, HeaderLine(header))
    case None => Failure(MissingHeader(header))
    case Some(s) => Success(lines[..s + 1] + block + [""] + lines[SectionEnd(lines, s + 1)..])
  }

  method ReplaceSection(lines: seq<string>, header: string, newBlock: seq<string>)
    returns (r: Result<seq<string>, string>)
    ensures r == Splice(lines, header, newBlock)
  {
    var headerLine := HeaderLine(header);
    var found := FindLine(lines, headerLine);
    if found.None? {
      return Failure(MissingHeader(header));
    }
    var startIdx := found.value;
    var endIdx := startIdx + 1;
    while endIdx < |lines| && !IsHeader(lines[endIdx])
      invariant startIdx + 1 <= endIdx <= |lines|
      invariant forall j :: startIdx + 1 <= j < endIdx ==> !IsHeader(lines[j])
    {
      endIdx := endIdx + 1;
    }
    SectionEndUnique(lines, startIdx + 1, endIdx);
    var block := newBlock + [""];
    r := Success(lines[..startIdx + 1] + block + lines[endIdx..]);
    assert lines[..startIdx + 1] + block + lines[endIdx..] == lines[..startIdx + 1] + newBlock + [""] + lines[endIdx..];
  }

  // ---------------------------------------------------------------------
  // Uniqueness of the two positions

  lemma SectionEndUnique(lines: seq<string>, from: nat, e: nat)
    requires from <= e <= |lines|
    requires forall j :: from <= j < e ==> !IsHeader(lines[j])
    requires e < |lines| ==> IsHeader(lines[e])
    ensures e == SectionEnd(lines, from)
    decreases e - from
  {
    if from < e {
      SectionEndUnique(lines, from + 1, e);
    }
  }

  lemma FindLineUnique(lines: seq<string>, target: string, s: nat)
    requires s < |lines| && lines[s] == target
    requires forall j :: 0 <= j < s ==> lines[j] != target
    ensures FindLine(lines, target) == Some(s)
  {
  }

  // ---------------------------------------------------------------------
  // Properties of the splice

  /** With `s` the first occurrence of the header line and `e` the next
      header after it (or the end), the result keeps `lines[..s+1]`, then
      holds exactly the block and one blank line, then `lines[e..]`. */
  lemma SpliceBoundaries(lines: seq<string>, header: string, block: seq<string>, s: nat, e: nat)
    requires s < |lines| && lines[s] == HeaderLine(header)
    requires forall j :: 0 <= j < s ==> lines[j] != HeaderLine(header)
    requires s < e <= |lines|
    requires forall j :: s < j < e ==> !IsHeader(lines[j])
    requires e < |lines| ==> IsHeader(lines[e])
    ensures Splice(lines, header, block).Success?
    ensures var r := Splice(lines, header, block).value;
      && |r| == s + 1 + |block| + 1 + (|lines| - e)
      && r[..s + 1] == lines[..s + 1]
      && r[s + 1..s + 1 + |block|] == block
      && r[s + 1 + |block|] == ""
      && r[s + 2 + |block|..] == lines[e..]
  {
    FindLineUnique(lines, HeaderLine(header), s);
    SectionEndUnique(lines, s + 1, e);
    var r := Splice(lines, header, block).value;
    var tail := [""] + lines[e..];
    assert r == lines[..s + 1] + block + tail;
    SplitThree(lines[..s + 1], block, tail, r);
    assert r[s + 1 + |block|..] == tail;
    assert r[s + 2 + |block|..] == tail[1..];
  }

  /** In the spliced file the section `header` starts where it did and
      ends right after the block and its blank line. */
  lemma SplicedSection(lines: seq<string>, header: string, block: seq<string>)
    requires forall l :: l in block ==> !IsHeader(l)
    requires Splice(lines, header, block).Success?
    ensures var s := FindLine(lines, HeaderLine(header)).value;
      var r := Splice(lines, header, block).value;
      && FindLine(r, HeaderLine(header)) == Some(s)
      && SectionEnd(r, s + 1) == s + 2 + |block|
      && r[..s + 1] == lines[..s + 1]
      && r[s + 1..s + 2 + |block|] == block + [""]
      && r[s + 2 + |block|..] == lines[SectionEnd(lines, s + 1)..]
  {
    var h := HeaderLine(header);
    var s := FindLine(lines, h).value;
    var e := SectionEnd(lines, s + 1);
    var r := Splice(lines, header, block).value;
    assert r == lines[..s + 1] + (block + [""]) + lines[e..];
    SplitThree(lines[..s + 1], block + [""], lines[e..], r);
    assert e < |lines| ==> IsHeader(lines[e]) by {
      SectionEndSpec(lines, s + 1);
    }
    FoundInSharedPrefix(lines, r, s + 1, s, h);
    SplicedEnd(lines, r, s, e, block);
  }

  lemma SplitThree<T>(p: seq<T>, m: seq<T>, q: seq<T>, r: seq<T>)
    requires r == p + m + q
    ensures r[..|p|] == p && r[|p|..|p| + |m|] == m && r[|p| + |m|..] == q
  {
  }

  /** Two files that agree up to position `n` agree on where a line first
      occurring before `n` first occurs. */
  lemma FoundInSharedPrefix(lines: seq<string>, r: seq<string>, n: nat, s: nat, o: string)
    requires n <= |lines| && n <= |r| && r[..n] == lines[..n]
    requires s < n && lines[s] == o && forall j :: 0 <= j < s ==> lines[j] != o
    ensures FindLine(r, o) == Some(s)
  {
    SharedPrefix(r, lines, n);
    FindLineUnique(r, o, s);
  }

  /** After the splice, the section that follows the header line ends right
      after the block and its blank line. */
  lemma SplicedEnd(lines: seq<string>, r: seq<string>, s: nat, e: nat, block: seq<string>)
    requires forall l :: l in block ==> !IsHeader(l)
    requires s < e <= |lines| && (e < |lines| ==> IsHeader(lines[e]))
    requires r == lines[..s + 1] + block + [""] + lines[e..]
    ensures SectionEnd(r, s + 1) == s + 2 + |block|
  {
    var e' := s + 2 + |block|;
    forall j | s + 1 <= j < e'
      ensures !IsHeader(r[j])
    {
      if j < s + 1 + |block| {
        assert r[j] == block[j - s - 1];
      } else {
        assert r[j] == "";
      }
    }
    if e' < |r| {
      assert r[e'] == lines[e];
    }
    SectionEndUnique(r, s + 1, e');
  }

  /** Replacing a section twice with the same block is the same as replacing
      it once, as long as the block opens no section itself. */
  lemma SpliceIdempotent(lines: seq<string>, header: string, block: seq<string>)
    requires forall l :: l in block ==> !IsHeader(l)
    requires Splice(lines, header, block).Success?
    ensures Splice(Splice(lines, header, block).value, header, block) == Splice(lines, header, block)
  {
    var s := FindLine(lines, HeaderLine(header)).value;
    var r := Splice(lines, header, block).value;
    SplicedSection(lines, header, block);
    assert r == lines[..s + 1] + block + [""] + lines[SectionEnd(lines, s + 1)..];
  }

  // ---------------------------------------------------------------------
  // Header lines survive every splice

  /** The header lines of a file, in file order. */
  function HeaderLines(lines: seq<string>): (r: seq<string>)
    ensures |r| <= |lines|
  {
    if lines == [] then []
    else
      assert lines == [lines[0]] + lines[1..];
      (if IsHeader(lines[0]) then [lines[0]] else []) + HeaderLines(lines[1..])
  }

  lemma {:induction false} HeaderLinesAppend(a: seq<string>, b: seq<string>)
    ensures HeaderLines(a + b) == HeaderLines(a) + HeaderLines(b)
  {
    if a != [] {
      assert (a + b)[1..] == a[1..] + b;
      HeaderLinesAppend(a[1..], b);
    } else {
      assert a + b == b;
    }
  }

  /** The header lines are exactly the lines of the file that open a
      section. */
  lemma {:induction false} HeaderLinesMembers(lines: seq<string>)
    ensures forall l :: l in HeaderLines(lines) <==> l in lines && IsHeader(l)
  {
    if lines != [] {
      assert lines == [lines[0]] + lines[1..];
      HeaderLinesMembers(lines[1..]);
    }
  }

  lemma {:induction false} NoHeaderLines(s: seq<string>)
    requires forall l :: l in s ==> !IsHeader(l)
    ensures HeaderLines(s) == []
  {
    if s != [] {
      assert s[0] in s && forall l :: l in s[1..] ==> l in s;
      NoHeaderLines(s[1..]);
    }
  }

  /** A block that opens no section leaves the file's header lines, and
      their order, as they were. */
  lemma SpliceKeepsHeaders(lines: seq<string>, header: string, block: seq<string>)
    requires forall l :: l in block ==> !IsHeader(l)
    requires Splice(lines, header, block).Success?
    ensures HeaderLines(Splice(lines, header, block).value) == HeaderLines(lines)
  {
    var s := FindLine(lines, HeaderLine(header)).value;
    var e := SectionEnd(lines, s + 1);
    var head, body, tail := lines[..s + 1], lines[s + 1..e], lines[e..];
    SectionEndSpec(lines, s + 1);
    assert lines == head + body + tail;
    assert Splice(lines, header, block).value == head + (block + [""]) + tail;
    NoHeaderLines(body);
    assert forall l :: l in block + [""] ==> !IsHeader(l);
    NoHeaderLines(block + [""]);
    HeaderLinesAppend(head, body);
    HeaderLinesAppend(head + body, tail);
    HeaderLinesAppend(head, block + [""]);
    HeaderLinesAppend(head + (block + [""]), tail);
  }

  /** The lines before the first section header. */
  function Preamble(lines: seq<string>): seq<string> {
    lines[..SectionEnd(lines, 0)]
  }

  /** A splice leaves the lines before the first header as they were. */
  lemma SpliceKeepsPreamble(lines: seq<string>, header: string, block: seq<string>)
    requires Splice(lines, header, block).Success?
    ensures Preamble(Splice(lines, header, block).value) == Preamble(lines)
  {
    var s := FindLine(lines, HeaderLine(header)).value;
    var r := Splice(lines, header, block).value;
    var f := SectionEnd(lines, 0);
    HeaderLineFacts(header, header);
    assert f <= s && forall j :: 0 <= j < f ==> !IsHeader(lines[j]) by {
      SectionEndSpec(lines, 0);
    }
    assert f < |lines| ==> IsHeader(lines[f]) by {
      SectionEndSpec(lines, 0);
    }
    assert r[..s + 1] == lines[..s + 1];
    assert forall k :: 0 <= k < s + 1 ==> r[k] == lines[k] by {
      SharedPrefix(r, lines, s + 1);
    }
    assert SectionEnd(r, 0) == f by {
      SectionEndUnique(r, 0, f);
    }
    SharedSlice(r, lines, s + 1, 0, f);
    assert r[..f] == r[0..f] && lines[..f] == lines[0..f];
  }

  // ---------------------------------------------------------------------
  // Section bodies

  /** The lines of the section `header`: those after its first header line,
      up to the next header line or the end of the file. */
  function Body(lines: seq<string>, header: string): seq<string>
    requires HeaderLine(header) in lines
  {
    var s := FindLine(lines, HeaderLine(header)).value;
    lines[s + 1..SectionEnd(lines, s + 1)]
  }

  /** The body of `header` seen from the position of its header line. */
  lemma BodyAt(lines: seq<string>, header: string, s: nat)
    requires FindLine(lines, HeaderLine(header)) == Some(s)
    ensures HeaderLine(header) in lines
    ensures Body(lines, header) == lines[s + 1..SectionEnd(lines, s + 1)]
  {
  }

  /** After the splice, the section holds exactly the block and a blank line. */
  lemma SpliceSetsBody(lines: seq<string>, header: string, block: seq<string>)
    requires forall l :: l in block ==> !IsHeader(l)
    requires Splice(lines, header, block).Success?
    ensures HeaderLine(header) in Splice(lines, header, block).value
    ensures Body(Splice(lines, header, block).value, header) == block + [""]
  {
    SplicedSection(lines, header, block);
  }

  /** Header lines open a section, and different names give different lines. */
  lemma HeaderLineFacts(header: string, other: string)
    ensures IsHeader(HeaderLine(header)) && HeaderLine(header) != ""
    ensures HeaderLine(header) == HeaderLine(other) ==> header == other
  {
    assert HeaderLine(header)[0] == '#' && HeaderLine(header)[1] == ' ';
    assert HeaderLine(header)[2..] == header && HeaderLine(other)[2..] == other;
  }

  /** Splicing one section leaves the body of every other section as it was. */
  lemma SpliceKeepsOtherBody(lines: seq<string>, header: string, block: seq<string>, other: string)
    requires forall l :: l in block ==> !IsHeader(l)
    requires Splice(lines, header, block).Success?
    requires other != header && HeaderLine(other) in lines
    ensures HeaderLine(other) in Splice(lines, header, block).value
    ensures Body(Splice(lines, header, block).value, other) == Body(lines, other)
  {
    HeaderLineFacts(header, other);
    var s := FindLine(lines, HeaderLine(header)).value;
    var s' := FindLine(lines, HeaderLine(other)).value;
    if s' < s {
      OtherBodyBefore(lines, header, block, other);
    } else {
      OtherBodyAfter(lines, header, block, other);
    }
  }

  lemma OtherBodyBefore(lines: seq<string>, header: string, block: seq<string>, other: string)
    requires Splice(lines, header, block).Success? && HeaderLine(other) in lines
    requires FindLine(lines, HeaderLine(other)).value < FindLine(lines, HeaderLine(header)).value
    ensures HeaderLine(other) in Splice(lines, header, block).value
    ensures Body(Splice(lines, header, block).value, other) == Body(lines, other)
  {
    var o := HeaderLine(other);
    HeaderLineFacts(header, other);
    var s := FindLine(lines, HeaderLine(header)).value;
    var e := SectionEnd(lines, s + 1);
    var r := Splice(lines, header, block).value;
    assert r == lines[..s + 1] + block + [""] + lines[e..];
    var s' := FindLine(lines, o).value;
    assert IsHeader(lines[s]) && r[..s + 1] == lines[..s + 1];
    BodyInSharedPrefix(lines, r, s + 1, s', o);
    assert Body(r, other) == r[s' + 1..SectionEnd(r, s' + 1)];
  }

  lemma OtherBodyAfter(lines: seq<string>, header: string, block: seq<string>, other: string)
    requires forall l :: l in block ==> !IsHeader(l)
    requires Splice(lines, header, block).Success?
    requires other != header && HeaderLine(other) in lines
    requires FindLine(lines, HeaderLine(other)).value >= FindLine(lines, HeaderLine(header)).value
    ensures HeaderLine(other) in Splice(lines, header, block).value
    ensures Body(Splice(lines, header, block).value, other) == Body(lines, other)
  {
    var o := HeaderLine(other);
    var s := FindLine(lines, HeaderLine(header)).value;
    var e := SectionEnd(lines, s + 1);
    var r := Splice(lines, header, block).value;
    var s' := FindLine(lines, o).value;
    var a := lines[..s + 1] + block + [""];
    var b := lines[e..];
    assert r == a + b;
    assert o !in block && o != "" && e <= s' by {
      HeaderLineFacts(other, header);
      SectionEndSpec(lines, s + 1);
    }
    BodyAfterCut(lines, block, s, e, s', other, a, b);
  }

  /** A section found after the cut at `e` keeps its body when the part
      before the cut is replaced by `a`. */
  lemma BodyAfterCut(lines: seq<string>, block: seq<string>, s: nat, e: nat, s': nat, other: string,
                     a: seq<string>, b: seq<string>)
    requires HeaderLine(other) !in block
    requires s < s' && e <= s' < |lines|
    requires lines[s'] == HeaderLine(other) && forall j :: 0 <= j < s' ==> lines[j] != HeaderLine(other)
    requires a == lines[..s + 1] + block + [""] && b == lines[e..]
    ensures HeaderLine(other) in a + b && HeaderLine(other) in lines
    ensures Body(a + b, other) == Body(lines, other)
  {
    var o := HeaderLine(other);
    assert o != "" by {
      HeaderLineFacts(other, other);
    }
    FoundAfterSplice(lines, block, s, e, s', o, a, b);
    SliceAfterSplice(lines, e, s', a, b);
    FindLineUnique(lines, o, s');
    BodyAt(a + b, other, |a| + s' - e);
    BodyAt(lines, other, s');
  }

  /** Two files that agree up to and including a header line agree on the
      body of every section opened before that header. */
  lemma BodyInSharedPrefix(lines: seq<string>, r: seq<string>, n: nat, s': nat, o: string)
    requires n <= |lines| && n <= |r| && r[..n] == lines[..n]
    requires s' + 1 < n && IsHeader(lines[n - 1])
    requires lines[s'] == o && forall j :: 0 <= j < s' ==> lines[j] != o
    ensures FindLine(r, o) == Some(s')
    ensures r[s' + 1..SectionEnd(r, s' + 1)] == lines[s' + 1..SectionEnd(lines, s' + 1)]
  {
    var e' := SectionEnd(lines, s' + 1);
    assert e' < n && forall j :: s' + 1 <= j < e' ==> !IsHeader(lines[j]) by {
      SectionEndSpec(lines, s' + 1);
      SectionEndBefore(lines, s' + 1, n - 1);
    }
    assert FindLine(r, o) == Some(s') by {
      SharedPrefix(r, lines, n);
      FindLineUnique(r, o, s');
    }
    assert SectionEnd(r, s' + 1) == e' by {
      SharedPrefix(r, lines, n);
      SectionEndUnique(r, s' + 1, e');
    }
    SharedSlice(r, lines, n, s' + 1, e');
  }

  /** A section starting before a header line ends no later than it. */
  lemma {:induction false} SectionEndBefore(lines: seq<string>, from: nat, h: nat)
    requires from <= h < |lines| && IsHeader(lines[h])
    ensures SectionEnd(lines, from) <= h
    decreases h - from
  {
    if from < h && !IsHeader(lines[from]) {
      SectionEndBefore(lines, from + 1, h);
    }
  }

  lemma FoundAfterSplice(lines: seq<string>, block: seq<string>, s: nat, e: nat, s': nat, o: string, a: seq<string>, b: seq<string>)
    requires o !in block && o != ""
    requires s < s' && e <= s' < |lines|
    requires lines[s'] == o && forall j :: 0 <= j < s' ==> lines[j] != o
    requires a == lines[..s + 1] + block + [""] && b == lines[e..]
    ensures FindLine(a + b, o) == Some(|a| + s' - e)
  {
    AbsentFromFront(lines, block, s, s', o, a);
    FoundInSuffix(lines, e, s', o);
    FindAfterPrefix(a, b, o, s' - e);
  }

  lemma SliceAfterSplice(lines: seq<string>, e: nat, s': nat, a: seq<string>, b: seq<string>)
    requires e <= s' < |lines| && b == lines[e..]
    ensures var u := |a| + s' - e;
      (a + b)[u + 1..SectionEnd(a + b, u + 1)] == lines[s' + 1..SectionEnd(lines, s' + 1)]
  {
    PrefixBody(a, b, s' - e + 1);
    SuffixBody(lines, e, s');
  }

  /** Putting lines in front of `b` does not change the section read from
      position `from` of `b`. */
  lemma PrefixBody(a: seq<string>, b: seq<string>, from: nat)
    requires from <= |b|
    ensures (a + b)[|a| + from..SectionEnd(a + b, |a| + from)] == b[from..SectionEnd(b, from)]
  {
    SectionEndAfterPrefix(a, b, from);
    SliceAfterPrefix(a, b, from, SectionEnd(b, from));
  }

  /** The section opened at `s'` reads the same in the file cut at `e`. */
  lemma SuffixBody(lines: seq<string>, e: nat, s': nat)
    requires e <= s' < |lines|
    ensures SectionEnd(lines[e..], s' - e + 1) == SectionEnd(lines, s' + 1) - e
    ensures lines[e..][s' - e + 1..SectionEnd(lines[e..], s' - e + 1)] == lines[s' + 1..SectionEnd(lines, s' + 1)]
  {
    SectionEndDrop(lines, e, s' + 1);
    SliceOfSuffix(lines, e, s' - e + 1, SectionEnd(lines, s' + 1) - e);
  }

  lemma AbsentFromFront(lines: seq<string>, block: seq<string>, s: nat, s': nat, o: string, a: seq<string>)
    requires o !in block && o != "" && s < s' <= |lines|
    requires forall j :: 0 <= j < s' ==> lines[j] != o
    requires a == lines[..s + 1] + block + [""]
    ensures forall j :: 0 <= j < |a| ==> a[j] != o
  {
  }

  lemma FoundInSuffix(lines: seq<string>, e: nat, s': nat, o: string)
    requires e <= s' < |lines| && lines[s'] == o
    requires forall j :: 0 <= j < s' ==> lines[j] != o
    ensures FindLine(lines[e..], o) == Some(s' - e)
  {
    FindLineUnique(lines[e..], o, s' - e);
  }

  lemma SliceAfterPrefix<T>(a: seq<T>, b: seq<T>, i: nat, j: nat)
    requires i <= j <= |b|
    ensures (a + b)[|a| + i..|a| + j] == b[i..j]
  {
  }

  lemma FindAfterPrefix(a: seq<string>, b: seq<string>, o: string, k: nat)
    requires forall j :: 0 <= j < |a| ==> a[j] != o
    requires k < |b| && FindLine(b, o) == Some(k)
    ensures FindLine(a + b, o) == Some(|a| + k)
  {
    FindLineUnique(a + b, o, |a| + k);
  }

  lemma SectionEndDrop(lines: seq<string>, e: nat, from: nat)
    requires e <= from <= |lines|
    ensures SectionEnd(lines[e..], from - e) == SectionEnd(lines, from) - e
  {
    var b := lines[e..];
    var f := SectionEnd(lines, from);
    SectionEndSpec(lines, from);
    assert forall j :: from - e <= j < f - e ==> b[j] == lines[j + e];
    SectionEndUnique(b, from - e, f - e);
  }

  lemma SectionEndAfterPrefix(a: seq<string>, b: seq<string>, from: nat)
    requires from <= |b|
    ensures SectionEnd(a + b, |a| + from) == |a| + SectionEnd(b, from)
  {
    var r := a + b;
    var f := SectionEnd(b, from);
    SectionEndSpec(b, from);
    assert forall j :: |a| + from <= j < |a| + f ==> r[j] == b[j - |a|];
    SectionEndUnique(r, |a| + from, |a| + f);
  }

  // ---------------------------------------------------------------------
  // Sequences agreeing on a prefix

  lemma SharedPrefix<T>(a: seq<T>, b: seq<T>, n: nat)
    requires n <= |a| && n <= |b| && a[..n] == b[..n]
    ensures forall k :: 0 <= k < n ==> a[k] == b[k]
  {
    forall k | 0 <= k < n
      ensures a[k] == b[k]
    {
      assert a[..n][k] == b[..n][k];
    }
  }

  lemma SharedSlice<T>(a: seq<T>, b: seq<T>, n: nat, i: nat, j: nat)
    requires i <= j <= n <= |a| && n <= |b| && a[..n] == b[..n]
    ensures a[i..j] == b[i..j]
  {
    SharedPrefix(a, b, n);
    assert |a[i..j]| == |b[i..j]|;
    forall k | 0 <= k < j - i
      ensures a[i..j][k] == b[i..j][k]
    {
      assert a[i..j][k] == a[i + k];
    }
  }

  lemma SliceOfSuffix<T>(s: seq<T>, e: nat, i: nat, j: nat)
    requires e <= |s| && i <= j <= |s| - e
    ensures s[e..][i..j] == s[e + i..e + j]
  {
  }
}
