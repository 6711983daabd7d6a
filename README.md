# Domain-name preparation for certificate requests

This project models `server/domains_list.go` in Dafny. The Go file turns a list of
domain names supplied by a user into the hostnames to put on a TLS
certificate request. It:

- trims every entry and drops blank entries and repeats;
- classifies each entry as a *deep* sub-domain or not, by counting its dots
  and looking up a small table of two-label public suffixes (`co.jp`, `co.uk`,
  `or.us`, `k12.or.us`);
- adds the `www.` variant of every entry that is not deep, unless the entry
  was already listed as another entry's `www.` variant;
- records the tail of every deep wildcard entry (`*.example.com` records
  `.example.com`);
- removes every listed name that ends with a recorded tail and is not the
  wildcard itself.

The project has five modules:

- `GoStrings` (`go_strings.dfy`): the parts of Go's `strings` package that
  the routine calls: `HasSuffix`, `Count` with a one-character separator, and
  `TrimSpace` with the `unicode.IsSpace` set, which is the Unicode
  White_Space characters.
- `Sequences` (`sequences.dfy`): "no duplicates" and "comes before" on
  sequences, with small lemmas about them.
- `DomainNames` (`domain_names.dfy`): what the routine computes, as functions
  on values, and lemmas stating what it promises.
  - `Step` is one iteration of the main loop.
  - `Gather` is the whole first pass.
  - `WithoutSuffixed` and `PruneAll` are the pruning.
  - `Prepared` is the result.
  - The lemmas are proved from the invariant `GatherInvariant`, which every
    step keeps.
- `DomainsList` (`domains_list.dfy`): the four Go functions as imperative
  methods. They use the same loops, early returns and `continue`s, and the
  same splice `r := r[..i] + r[i + 1..]` with its index stepping back.
  - `HasLongTLD` and `StringSliceContains` are proved to answer exactly
    their predicate: ends with a long TLD, and `str in slice`.
  - `RemoveStringsSuffixed` and `PrepareDomainNames` are proved to compute
    the `DomainNames` functions `WithoutSuffixed` and `Prepared`.
- `DomainScenarios` (`scenarios.dfy`): scenarios the tests exercise, stated
  for every domain of the required shape. They are then instantiated on the
  test vectors of `server/domains_list_test.go`.

Where the routine's doc-comment and the code disagree, the model follows the
code. The comment at `server/domains_list.go:22` speaks of adding a "wildcard
sub-domain variant", but the code adds the `www.` variant (lines 59-63).

A wildcard is not always retained. A later, shorter wildcard prunes an
earlier, longer one: after `["*.a.abc.com", "*.abc.com"]` only `*.abc.com`
remains. So the model states wildcard precedence as "no name in the result
other than the wildcard itself ends with its tail" (`PreparedWildcard`). It
does not state "the wildcard is always kept".

The routine is not idempotent, and the model proves it
(`LongerWildcardNotIdempotent`). A longer wildcard can prune a shorter one:
`"**.abc.com"` records the tail `"*.abc.com"`, which prunes `"*.abc.com"`. So
`["abc.com", "*.abc.com", "**.abc.com"]` gives `["abc.com"]`, and a second run
on that gives `["abc.com", "www.abc.com"]`.

## Model

| member | source | states |
|---|---|---|
| `DomainsList.HasLongTLD` | server/domains_list.go:12-20 | The search loop answers true exactly when the domain ends with "." followed by one of the long-TLD entries. |
| `DomainNames.LongTLDs` | server/domains_list.go:5-10 | The table of long TLDs: "co.jp", "co.uk", "or.us", "k12.or.us", in this order. |
| `DomainNames.LongTLDTable` | server/domains_list.go:5-10 | Ending with a long TLD means ending with ".co.jp", ".co.uk", ".or.us" or ".k12.or.us", in table order. |
| `DomainNames.LongTLDCases` | server/domains_list.go:5-20 | The last table entry adds nothing. A domain has a long TLD exactly when it ends with ".co.jp", ".co.uk" or ".or.us". |
| `DomainsList.StringSliceContains` | server/domains_list.go:74-82 | The search loop answers true exactly when some element equals the string. This covers the empty slice and the empty string. |
| `DomainsList.RemoveStringsSuffixed` | server/domains_list.go:84-94 | The splice loop with its index stepping back returns exactly the order-preserving filter `WithoutSuffixed` of its input. |
| `DomainNames.WithoutSuffixedAt` | server/domains_list.go:87-92 | Filtering from index i examines element i, then filters the rest. |
| `DomainNames.WithoutSuffixedDrop` | server/domains_list.go:88-90 | Splicing out a doomed element leaves the finished prefix and the part still to filter unchanged. This is why the index steps back. |
| `DomainNames.WithoutSuffixedKeep` | server/domains_list.go:87-88 | A surviving element moves from the part still to filter to the finished prefix. |
| `DomainNames.WithoutSuffixedMembers` | server/domains_list.go:84-86 | A name is in the pruned list exactly when it was in the list and either does not end with the suffix or equals "*" + suffix. |
| `DomainNames.WithoutSuffixedOrder` | server/domains_list.go:84-94 | Pruning keeps the relative order of the names it keeps and creates no new order. |
| `DomainNames.WithoutSuffixedNoDuplicates` | server/domains_list.go:84-94 | Pruning a list without duplicates gives a list without duplicates. |
| `DomainNames.WithoutSuffixedUnchanged` | server/domains_list.go:87-93 | When no element qualifies for removal, the list comes back unchanged. |
| `DomainNames.PruneAllMembers` | server/domains_list.go:68-70 | After pruning by every recorded tail, a name remains exactly when it was listed and survives every tail. |
| `DomainNames.PruneAllOrder` | server/domains_list.go:68-70 | Pruning by every tail keeps the relative order of what remains. |
| `DomainNames.PruneAllNoDuplicates` | server/domains_list.go:68-70 | Pruning by every tail introduces no duplicates. |
| `DomainNames.WithoutSuffixedAdjacent` | server/domains_list.go:84-94 | Two neighbours that both survive the suffix are still neighbours after pruning. |
| `DomainNames.PruneAllAdjacent` | server/domains_list.go:68-70 | Two neighbours that survive every recorded tail are still neighbours after all the pruning. |
| `DomainsList.PrepareDomainNames` | server/domains_list.go:25-72 | The two loops compute exactly `Prepared` of the input, and the result has no duplicates. |
| `GoStrings.IsSpace` | server/domains_list.go:31 | Defines the white space `strings.TrimSpace` trims: the Unicode White_Space characters that `unicode.IsSpace` accepts. |
| `GoStrings.TrimSpace` | server/domains_list.go:31 | A trimmed entry is empty or starts and ends with a non-space character. |
| `GoStrings.TrimSpaceSlice` | server/domains_list.go:31-34 | Trimming keeps a contiguous run with only white space around it. The result is empty exactly when the entry is all white space. |
| `GoStrings.CountMultiplicity` | server/domains_list.go:46 | The dot count is the number of occurrences of '.' in the entry. |
| `DomainNames.GatherSnoc` | server/domains_list.go:30-64 | The pass over one more entry is one more loop iteration. The entries grow by that entry when it is non-blank. |
| `DomainNames.EntriesInclude` | server/domains_list.go:30-34 | Every input string that is non-blank after trimming is an entry. |
| `DomainNames.EntriesOrigin` | server/domains_list.go:30-34 | Every entry is a non-empty trimmed input string. |
| `DomainNames.EntriesPush` | server/domains_list.go:30-34 | Appending an input string appends its trimmed form, if non-blank, to the entries and keeps everything already derived from the input. |
| `DomainNames.StepPreservesInvariant` | server/domains_list.go:30-64 | One iteration keeps the pass invariant. The invariant says: no duplicates; every name comes from an entry; every entry is listed; every non-deep entry has its "www." variant unless it is itself the "www." variant of another non-deep entry; every deep wildcard's tail is recorded; every recorded tail comes from a deep wildcard entry. |
| `DomainNames.StepDeepPreserves` | server/domains_list.go:45-57 | A new deep entry keeps the invariant, including the tail it records when it is a wildcard. |
| `DomainNames.StepBarePreserves` | server/domains_list.go:59-63 | A new non-deep entry and its "www." variant keep the invariant. |
| `DomainNames.GatherKeepsInvariant` | server/domains_list.go:30-64 | The pass over the whole input establishes the invariant. |
| `DomainNames.StepExtends` | server/domains_list.go:40-63 | An iteration only appends to the list and to the recorded tails. |
| `DomainNames.GatherExtends` | server/domains_list.go:30-64 | The list and the tails after the first k entries are prefixes of the final ones. |
| `DomainNames.GatherEntry` | server/domains_list.go:36-63 | A blank or listed entry changes nothing. A new entry lands at the end of the list so far. A new deep entry brings nothing else. A new non-deep entry is followed immediately by its "www." variant unless that variant is already listed. |
| `DomainNames.PreparedNoDuplicates` | server/domains_list.go:36-63 | The result never lists a name twice. |
| `DomainNames.PreparedBlank` | server/domains_list.go:30-34 | Input that is empty, or blank in every entry after trimming, gives an empty result. |
| `DomainNames.PreparedFromInput` | server/domains_list.go:30-63 | Every name in the result is a trimmed non-blank entry, or "www." followed by a non-deep entry. It is non-empty and has no white space at either end. |
| `DomainNames.PreparedMembers` | server/domains_list.go:53-70 | A name is in the result exactly when the pass listed it and it survives the tail of every deep wildcard entry. |
| `DomainNames.PreparedKeeps` | server/domains_list.go:36-70 | An entry is in the result unless a wildcard tail prunes it. The same holds for the "www." variant of a non-deep entry that is not itself the "www." variant of another entry. |
| `DomainNames.PreparedWildcard` | server/domains_list.go:53-70 | For a deep wildcard entry, the only name in the result that ends with its tail is the wildcard itself. |
| `DomainNames.PreparedFirstSeenOrder` | server/domains_list.go:30-70 | An entry stays before any later entry the pass had not listed yet, when both are in the result. |
| `DomainNames.PreparedWwwAdjacent` | server/domains_list.go:36-70 | The "www." variant that a new non-deep entry brings, when not yet listed, stays immediately after that entry in the result, when pruning keeps both. |
| `GoStrings.HasSuffix` | server/domains_list.go:88 | Defines `strings.HasSuffix`: the suffix is the tail of the string. The same test is used at line 15. |
| `GoStrings.Count` | server/domains_list.go:46 | Defines `strings.Count` with a one-character separator, counting from the end. |
| `GoStrings.CountAppend` | server/domains_list.go:46 | The count of a character in a concatenation is the sum of its counts in the parts. |
| `DomainNames.EndsWithLongTLD` | server/domains_list.go:12-20 | Defines having a long TLD: ending with "." followed by some table entry. |
| `DomainNames.IsDeepWildcard` | server/domains_list.go:45-54 | Defines a deep wildcard entry: deep by the depth rule and starting with '*'. |
| `DomainNames.Tail` | server/domains_list.go:54 | Defines the recorded tail `d[1:]`: the wildcard entry without its first character. |
| `DomainNames.Survives` | server/domains_list.go:88 | Defines the keep test of pruning: the name does not end with the suffix, or it is "*" followed by the suffix. |
| `DomainNames.IsDeep` | server/domains_list.go:45-48 | Defines the depth rule: more than two dots under a long TLD, or more than one dot otherwise. |
| `DomainNames.Step` | server/domains_list.go:30-63 | Defines one iteration of the first loop: trim, skip blanks and listed names, append, then record a wildcard tail or add the "www." variant. |
| `DomainNames.Gather` | server/domains_list.go:30-64 | Defines the first loop as the iteration applied to every input string in order. |
| `DomainNames.WithoutSuffixed` | server/domains_list.go:84-94 | Defines the result of one pruning call: the survivors of the suffix, in order, never more than the input. |
| `DomainNames.PruneAll` | server/domains_list.go:68-70 | Defines the second loop: pruning by each recorded tail, first to last. |
| `DomainNames.Prepared` | server/domains_list.go:25-72 | Defines the routine's result: the first loop, then pruning by every recorded tail. |
| `DomainScenarios.LongTLDPrefixed` | server/domains_list.go:13-20 | A domain with a long TLD keeps it when labels are put in front. |
| `DomainScenarios.BareDomain` | server/domains_list.go:59-63 | A single non-deep domain gives the domain followed by its "www." variant. |
| `DomainScenarios.DeepDomain` | server/domains_list.go:45-57 | A single deep domain that is not a wildcard comes back alone. |
| `DomainScenarios.TwoBareDomains` | server/domains_list.go:30-64 | Two unrelated non-deep domains each come back followed by their "www." variant. |
| `DomainScenarios.DomainThenWww` | server/domains_list.go:60-62 | A domain listed before its "www." variant leaves the variant listed only once. |
| `DomainScenarios.WwwThenDomain` | server/domains_list.go:36-63 | The "www." variant listed before its domain keeps that order, with nothing added, when the variant is itself deep. |
| `DomainScenarios.DomainThenWildcard` | server/domains_list.go:53-70 | A domain followed by its wildcard gives the two, with the "www." variant pruned. |
| `DomainScenarios.DomainWildcardWww` | server/domains_list.go:53-70 | With a domain, its wildcard and its "www." variant, the variant is pruned. |
| `DomainScenarios.DomainWildcardWwwOther` | server/domains_list.go:30-70 | The same as the previous row, followed by an unrelated domain, which keeps its own "www." variant. |
| `DomainScenarios.WildcardGathered` | server/domains_list.go:30-64 | The pass over a domain and its wildcard lists the domain, its "www." variant and the wildcard, and records the tail. |
| `DomainScenarios.WildcardPrunes` | server/domains_list.go:68-70 | Pruning that list by the tail drops only the "www." variant. |
| `DomainScenarios.LongerWildcardNotIdempotent` | server/domains_list.go:25-72 | A domain, its wildcard and a longer wildcard give the domain alone, and running the routine again on that gives the domain and its "www." variant, so the routine is not idempotent. |
| `DomainScenarios.LongerWildcardGathered` | server/domains_list.go:30-64 | The pass over a domain, its wildcard and the longer wildcard lists the domain, its "www." variant and both wildcards, and records the tails "." + d and "*." + d. |
| `DomainScenarios.LongerWildcardPrunes` | server/domains_list.go:68-70 | Pruning that list by the two tails leaves only the domain: the tail "*." + d removes the shorter wildcard. |
| `DomainScenarios.HasLongTLDCasesFalse` | server/domains_list_test.go:13-16 | "", "abc.com", "sub.abc.com" and "*.abc.com" have no long TLD. |
| `DomainScenarios.HasLongTLDCasesTrue` | server/domains_list_test.go:17-20 | "abc.co.uk", "sub.abc.co.uk", "*.abc.co.uk" and "abc-more.or.us" have a long TLD. |
| `DomainScenarios.RemoveStringsSuffixedCase1` | server/domains_list_test.go:110-111 | The empty list stays empty. `{"s.abc","*.abc","def"}` pruned by ".abc" gives `{"*.abc","def"}`. |
| `DomainScenarios.RemoveStringsSuffixedCase2` | server/domains_list_test.go:112 | "abc.com" is kept under the suffix ".abc.com". |
| `DomainScenarios.RemoveStringsSuffixedCase3` | server/domains_list_test.go:113 | "www.gh.ca.us" is dropped and "*.gh.ca.us" kept under ".gh.ca.us". |
| `DomainScenarios.RemoveStringsSuffixedCase4` | server/domains_list_test.go:114 | The suffix "-" leaves `{"abc","def","ghi"}` as is. |
| `DomainScenarios.PreparedCase37` | server/domains_list_test.go:37-38 | The empty input gives the empty result. |
| `DomainScenarios.PreparedCase41` | server/domains_list_test.go:41 | `["abc.com"]` gives `["abc.com","www.abc.com"]`. |
| `DomainScenarios.PreparedCase42` | server/domains_list_test.go:42 | `["abc.com","abc-de.co"]` gives both, each followed by its "www." variant. |
| `DomainScenarios.PreparedCase45` | server/domains_list_test.go:45 | `["abc.com","www.abc.com"]` comes back unchanged. |
| `DomainScenarios.PreparedCase46` | server/domains_list_test.go:46 | `["abc.co.jp","www.abc.co.jp"]` comes back unchanged. |
| `DomainScenarios.PreparedCase49` | server/domains_list_test.go:49 | `["www.abc.com","abc.com"]` comes back unchanged, in that order. |
| `DomainScenarios.PreparedCase50` | server/domains_list_test.go:50 | `["www.abc.co.jp","abc.co.jp"]` comes back unchanged, in that order. |
| `DomainScenarios.PreparedCase53` | server/domains_list_test.go:53 | `["abc.co.uk"]` gains "www.abc.co.uk". |
| `DomainScenarios.PreparedCase54` | server/domains_list_test.go:54 | `["domain.k12.or.us"]` comes back alone. |
| `DomainScenarios.PreparedCase55` | server/domains_list_test.go:55 | `["sub-domain.domain.k12.or.us"]` comes back alone. |
| `DomainScenarios.PreparedCase58` | server/domains_list_test.go:58 | `["abc.com","*.abc.com"]` comes back unchanged. |
| `DomainScenarios.PreparedCase59` | server/domains_list_test.go:59 | `["abc.com","*.abc.com","www.abc.com"]` gives `["abc.com","*.abc.com"]`. |
| `DomainScenarios.PreparedCase60` | server/domains_list_test.go:60 | `["abc.co.jp","*.abc.co.jp"]` comes back unchanged. |
| `DomainScenarios.PreparedCase61` | server/domains_list_test.go:61 | `["abc.io","*.abc.io","www.abc.io","no_dot"]` gives `["abc.io","*.abc.io","no_dot","www.no_dot"]`. |

## Left out

- Go strings are byte strings. Here a string is a sequence of Unicode scalar values.
  - For valid UTF-8 input the two agree. A suffix of the bytes that is itself
    valid UTF-8 is a suffix of the characters; this covers the user-supplied
    tails `d[1:]` as well as the table suffixes. The dot and the `*` are single
    ASCII bytes, so dot counts, the `d[0] == '*'` test and the `d[1:]` slice
    agree, and White_Space is decoded the same way, so trimming agrees.
  - Invalid UTF-8 input is not modelled.
- `RemoveStringsSuffixed` returns a new sequence. The Go function compacts the
  caller's backing array in place through `append(slice[:i], slice[i+1:]...)`.
  That aliasing is not part of the model.
- The capacity hint `make(..., len(domains)*2)` has no counterpart, because
  capacity does not affect the result.
- A nil slice and an empty slice are both the empty sequence. The tests compare
  only lengths and elements.
- `PreparedBlank`: proves only that blank input gives an empty result. The
  converse is false: `["*.a.b.com", "**.a.b.com"]` has non-blank entries
  whose wildcards prune each other.
- `PreparedFirstSeenOrder`: speaks only of a later entry the pass had not
  listed yet. A later entry already listed keeps the position it was given
  earlier, as a "www." variant, as tests `server/domains_list_test.go:45-46`
  show.
- The `stringSliceContains` test table (`server/domains_list_test.go:80-101`)
  is not instantiated. Each of its rows follows directly from
  `StringSliceContains`'s postcondition.
- The test scaffolding (`t.Run`, `strconv`, logging) has no
  counterpart.
