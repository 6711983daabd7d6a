/**
 * server/domains_list.go as it is written: early-return search loops, the
 * splice `r := r[..i] + r[i + 1..]` that steps its index back, and the
 * accumulate-then-prune main routine. HasLongTLD and StringSliceContains are
 * proved to answer exactly their predicate (a long TLD, `str in slice`);
 * RemoveStringsSuffixed and PrepareDomainNames are proved to compute the
 * DomainNames functions WithoutSuffixed and Prepared.
 */
module DomainsList {
  import opened GoStrings
  import opened Sequences
  import opened DomainNames

  /** hasLongTLD: scans the long-TLD table for a matching ".tld" suffix. */
  method HasLongTLD(domain: string) returns (long: bool)
    ensures long <==> EndsWithLongTLD(domain)
  {
    for i := 0 to |LongTLDs|
      invariant forall k :: 0 <= k < i ==> !HasSuffix(domain, "." + LongTLDs[k])
    {
      if HasSuffix(domain, "." + LongTLDs[i]) {
        return true;
      }
    }
    return false;
  }

  /** stringSliceContains: linear search for an element equal to `str`. */
  method StringSliceContains(slice: seq<string>, str: string) returns (found: bool)
    ensures found <==> str in slice
  {
    for i := 0 to |slice|
      invariant str !in slice[..i]
    {
      if slice[i] == str {
        return true;
      }
    }
    return false;
  }

  /**
   * removeStringsSuffixed: deletes, in order, every element that ends with
   * `suffix` and is not "*" + suffix. After a deletion the index steps back so
   * that the element moved into the gap is examined next.
   */
  method RemoveStringsSuffixed(slice: seq<string>, suffix: string) returns (r: seq<string>)
    ensures r == WithoutSuffixed(slice, suffix)
  {
    r := slice;
    var i: int := 0;
    while i < |r|
      invariant 0 <= i <= |r|
      invariant WithoutSuffixed(slice, suffix) == r[..i] + WithoutSuffixed(r[i..], suffix)
      decreases |r| - i
    {
      if HasSuffix(r[i], suffix) && r[i] != "*" + suffix {
        WithoutSuffixedDrop(r, suffix, i);
        r := r[..i] + r[i + 1..];
        i := i - 1;
      } else {
        WithoutSuffixedKeep(r, suffix, i);
      }
      i := i + 1;
    }
    assert r[i..] == [];
  }

  /**
   * prepareDomainNames: one pass that trims, skips blanks and repeats, adds
   * "www." variants of entries that are not sub-domains and records the tails
   * of deep wildcard entries; then each recorded tail prunes the list.
   */
  method PrepareDomainNames(domains: seq<string>) returns (made: seq<string>)
    ensures made == Prepared(domains)
    ensures NoDuplicates(made)
  {
    made := [];
    var remove: seq<string> := [];
    for i := 0 to |domains|
      invariant Gathered(made, remove) == Gather(domains[..i])
    {
      GatherSnoc(domains, i);
      var d := TrimSpace(domains[i]);
      if d == "" {
        continue;
      }
      var seen := StringSliceContains(made, d);
      if seen {
        continue;
      }
      made := made + [d];
      var longTLD := HasLongTLD(d);
      var dots := Count(d, '.');
      if (longTLD && dots > 2) || (!longTLD && dots > 1) {
        if d[0] == '*' {
          remove := remove + [d[1..]];
        }
        continue;
      }
      var www := "www." + d;
      seen := StringSliceContains(made, www);
      if !seen {
        made := made + [www];
      }
    }
    assert domains[..|domains|] == domains;
    ghost var gathered := made;
    for j := 0 to |remove|
      invariant PruneAll(gathered, remove) == PruneAll(made, remove[j..])
    {
      assert remove[j..][1..] == remove[j + 1..];
      made := RemoveStringsSuffixed(made, remove[j]);
    }
    assert remove[|remove|..] == [];
    PreparedNoDuplicates(domains);
  }
}
