# update_can_ips in Dafny

A model of `scripts/update_can_ips.py`, the script that refreshes the
Canadian Wi-Fi-calling rule list. For each section of the list it pools
the prefixes that the registry announces for the section's ASNs. It
parses them into networks and drops every network covered by another.
It renders the rest as `IP-CIDR,…,no-resolve` / `IP-CIDR6,…,no-resolve`
rule lines and splices that block into the section of the file.

Modules, one per concern:

- `Networks`: an IP network is `Net(version, addr, plen)` with its host bits cleared, as the `ipaddress` library builds it with `strict=False`. `subnet_of` is a comparison of prefixes. Its contract proves it equal to range containment, and lemmas prove it transitive and antisymmetric.
- `Sorting`: the two `sorted` keys of `dedupe_subnets`, and a sort that returns an ordered permutation of its input. Both keys contain all three fields, so the sorted order of a duplicate-free list is unique, and the sort's stability does not matter.
- `Dedupe`: `dedupe_subnets` as a method with the source's nested loop, `covered` flag and `break`. It is proved against `DedupSpec`: the result comes from the input, is an antichain, covers the input and is in address order. Lemmas show that this specification fixes the result uniquely. The result is exactly the input networks that no other input network contains, and deduplicating it again changes nothing.
- `Rules`: `build_lines`, and a parser for a rule line that inverts the formatting.
- `Sections`: `replace_section` as a method with the source's `while` loop, proved equal to the function `Splice`. Lemmas about `Splice` cover:
  - the exact boundaries of the result;
  - idempotence;
  - the header lines and the part before the first header, both kept;
  - the new body of the target section;
  - every other section's body, kept.
- `Update`: the loop in `main` over the section table. It pools prefixes per ASN, builds the block and replaces the section. It fails at the first missing header. Otherwise:
  - every section named in the table holds the block built from its own ASNs' prefixes (for a name repeated in the table, the last entry's block);
  - every other section is unchanged;
  - the header lines are unchanged;
  - the part before the first header is unchanged.

  These facts describe each section through its first header line. The
  result itself is also given exactly: it is the last file of the fold that
  splices each entry's block in turn, and lemmas show the fold has one
  outcome. That settles a file with a repeated header line too.

The registry's responses, the prefix parser and the network renderer are
parameters: `announced` maps an ASN to the `prefix` fields of its
response (`None` for a missing field), `parse` stands for
`ipaddress.ip_network(p, strict=False)` and `render` for `str(net)`.

The code finds each section by its header text, so the table's order need
not follow the file's; `UpdateSections` holds for a table in any order.

## Model

| member | source | states |
|---|---|---|
| Networks.SubnetOf | scripts/update_can_ips.py:36 | for networks of one version, the prefix test `a.subnet_of(b)` holds exactly when `b` starts no later than `a` and ends no earlier than `a` (both directions) |
| Networks.SubnetOfTransitive | scripts/update_can_ips.py:36 | containment is transitive |
| Networks.SubnetOfAntisymmetric | scripts/update_can_ips.py:36 | two networks that contain each other are equal; this needs the host bits to be cleared |
| Networks.SubnetOfHolds | scripts/update_can_ips.py:36 | every address of a subnet is an address of its supernet |
| Sorting.Key | scripts/update_can_ips.py:31 | each sort key holds all three fields of the network, which can be read back from the key; the order is therefore between whole networks |
| Sorting.NetLeTotalOrder | scripts/update_can_ips.py:31 | each sort key gives a total, antisymmetric and transitive order on networks |
| Sorting.Sort | scripts/update_can_ips.py:31 | `sorted(...)` returns an ordered permutation of its input |
| Sorting.SortedDistinctUnique | scripts/update_can_ips.py:42 | two sorted duplicate-free lists with the same elements are equal, so the final order does not depend on the sort's stability |
| Dedupe.DedupeSubnets | scripts/update_can_ips.py:29-42 | the result is a sub-multiset of the input, no kept network contains another of its version, every input network lies in a kept one, and the result is sorted by (version, address, prefix length) |
| Dedupe.ScanCovered | scripts/update_can_ips.py:34-38 | skipping a network that a kept network contains keeps the loop invariant (antichain, covering the scanned part, drawn from it) |
| Dedupe.ScanKept | scripts/update_can_ips.py:39-40 | appending a network no kept network contains keeps the loop invariant, because the length order puts supernets first |
| Dedupe.DedupIsMaximal | scripts/update_can_ips.py:30 | a network is kept exactly when it is in the input and no other input network of its version contains it (both directions) |
| Dedupe.DedupDeterministic | scripts/update_can_ips.py:42 | any two lists meeting the deduplication contract for one input are equal |
| Dedupe.DedupIdempotent | scripts/update_can_ips.py:29-42 | deduplicating a deduplicated list returns it unchanged |
| Dedupe.DedupKeepsAddresses | scripts/update_can_ips.py:30 | an address lies in some kept network exactly when it lies in some input network |
| Rules.Parsed | scripts/update_can_ips.py:46 | one network per prefix, all well-formed when the parser returns well-formed networks |
| Rules.RuleLine | scripts/update_can_ips.py:50-53 | a rule line reads back into its version tag (4 for a version-4 network, 6 otherwise) and the network's rendered text |
| Rules.BuildLines | scripts/update_can_ips.py:45-54 | the lines are one rule line per network of the deduplicated list of the parsed prefixes, in that list's order |
| Rules.BuiltUnique | scripts/update_can_ips.py:45-54 | two blocks that both meet that description for the same prefixes are equal, so it fixes the block |
| Sections.FindLine | scripts/update_can_ips.py:60-62 | `lines.index`: none exactly when the header line is absent, else the position of its first occurrence |
| Sections.IsHeader | scripts/update_can_ips.py:65 | a line opens a section exactly when its first two characters are `# ` |
| Sections.SectionEnd | scripts/update_can_ips.py:64-66 | the scan stops between its start and the end of the file, on a header line when it stops inside the file, and moves past its start only when the start is no header |
| Sections.SectionEndSpec | scripts/update_can_ips.py:64-66 | no line between the start and the section end begins with `# `, and the line at the end, if any, does |
| Sections.SectionEndUnique | scripts/update_can_ips.py:64-66 | any position with that property is the section end |
| Sections.Splice | scripts/update_can_ips.py:57-70 | the splice fails exactly when the header line is absent, with the message `Missing section header: # <header>` |
| Sections.ReplaceSection | scripts/update_can_ips.py:57-70 | the loop-based replacement returns what `Splice` specifies |
| Sections.SpliceBoundaries | scripts/update_can_ips.py:60-70 | given the header's first position and the next header, the result keeps the file up to the header, then holds the block and one blank line, then the file from the next header on; its length follows |
| Sections.SpliceIdempotent | scripts/update_can_ips.py:64-70 | with a block that opens no section, replacing twice equals replacing once |
| Sections.SpliceKeepsHeaders | scripts/update_can_ips.py:64-70 | a block that opens no section leaves the list of header lines, in order, unchanged |
| Sections.SpliceKeepsPreamble | scripts/update_can_ips.py:70 | the lines before the first header are unchanged |
| Sections.SpliceSetsBody | scripts/update_can_ips.py:69-70 | after the splice the section's body is exactly the block and one blank line |
| Sections.SpliceKeepsOtherBody | scripts/update_can_ips.py:64-70 | every other section is still present with the same body |
| Update.PresentPrefixes | scripts/update_can_ips.py:25-26 | the kept prefixes are exactly the present, non-empty `prefix` fields |
| Update.Pooled | scripts/update_can_ips.py:80-82 | a prefix is pooled exactly when it is non-empty and the response of one of the section's ASNs carries it |
| Update.RuleLinesOpenNoSection | scripts/update_can_ips.py:50-53 | no rule line starts with `# `, so a rule block never opens a section |
| Update.SpliceStep | scripts/update_can_ips.py:83-84 | splicing a built block keeps the headers and the part before the first header, fills the target section with that block, and keeps every other section |
| Update.RefreshSection | scripts/update_can_ips.py:80-84 | one pass of the loop fails exactly when the entry's header is missing; otherwise its result is the splice of the block built from the entry's pooled prefixes, it extends the filled part of the table by one entry and keeps the other sections, the headers and the part before the first header |
| Update.StepUnique | scripts/update_can_ips.py:80-84 | a pass has a single possible outcome |
| Update.FoldsUnique | scripts/update_can_ips.py:79-84 | two sequences of files that both follow the loop over the whole table are equal, so the fold fixes the result |
| Update.ProgressStep | scripts/update_can_ips.py:79-84 | a successful pass keeps the loop invariant: the record of passes, the headers that were found, the filled entries, the untouched sections and the part before the first header |
| Update.ProgressStops | scripts/update_can_ips.py:79-84 | a pass that misses its header is the first entry whose header is missing from the original file |
| Update.ProgressDone | scripts/update_can_ips.py:79-84 | after the last pass no header was missing and the success case of the run's contract holds |
| Update.FilledStep | scripts/update_can_ips.py:79-84 | a refreshed entry is added to the filled part of the table, and earlier entries with other names stay filled |
| Update.UntouchedStep | scripts/update_can_ips.py:79-84 | sections that no entry so far names keep their original bodies |
| Update.UpdateSections | scripts/update_can_ips.py:79-84 | with every registry response given, the run fails exactly when some header in the table is missing, with the message of the first missing one. Otherwise the result is the last file of the fold that splices, entry by entry, the block built from the entry's prefixes; each named section holds its own block, and other sections, the header lines and the part before the first header are unchanged |

## Left out

- `fetch_prefixes`' HTTP request, timeout and JSON decoding (scripts/update_can_ips.py:21-24) are network I/O. Their result is the parameter `announced`, which always answers. An HTTP error, the 30-second timeout or a malformed JSON body aborts the script, and the model has no such failure. A `prefix` field that is present but non-string is not modelled.
- Update.UpdateSections: "fails exactly when some header is missing" holds because `announced` never fails; a failing fetch would also abort the run.
- The file existence check, reading, `splitlines`, `join` and writing in `main` (scripts/update_can_ips.py:74-77, 86) are file I/O. The model takes and returns the list of lines.
- `ipaddress.ip_network` parsing and `str(net)` are library calls. They are the parameters `parse` and `render`.
- Update.UpdateSections: requires `parse` to return a well-formed network for every string. The model does not have the library's `ValueError` for a malformed prefix.
- Update.RefreshSection: requires `parse` to return a well-formed network for every string, for the same reason.
- Rules.BuildLines: requires every prefix to parse into a well-formed network, for the same reason.
- The exception handler that prints the failure (scripts/update_can_ips.py:89-94) is process plumbing. A missing header is a `Failure` carrying the `SystemExit` message.
- The constants `RIPESTAT`, `SECTION_ASNS` and `FILE_PATH` (scripts/update_can_ips.py:9-18) are not modelled. The section table is the parameter `table`, and it may repeat a name, which the dictionary cannot.
- Addresses are unbounded naturals limited by `ValidNet` to 32 or 128 bits. Versions other than 4 and 6 do not occur.
- Update.PresentPrefixes: its contract states which prefixes are kept, not that they keep the response's order and repetitions; the definition keeps both.
