/**
 * The meaning of server/domains_list.go as functions on values: which
 * domains have a long TLD, which entries are deep sub-domains, what the
 * left-to-right pass collects, and what the wildcard pruning keeps. The
 * lemmas state what the routine promises its callers.
 */
module DomainNames {
  import opened GoStrings
  import opened Sequences

  /** The two-label public suffixes the routine knows about, in table order. */
  const LongTLDs: seq<string> := ["co.jp", "co.uk", "or.us", "k12.or.us"]

  /** `domain` ends with a dot followed by one of the long TLDs. */
  predicate EndsWithLongTLD(domain: string) {
    exists t :: t in LongTLDs && HasSuffix(domain, "." + t)
  }

  /**
   * The entry already names a sub-domain: more than two dots under a long
   * TLD, or more than one dot otherwise. Such an entry gets no "www." variant.
   */
  predicate IsDeep(d: string) {
    var long := EndsWithLongTLD(d);
    var dots := Count(d, '.');
    (long && dots > 2) || (!long && dots > 1)
  }

  /** A deep entry whose first character is the wildcard marker. */
  predicate IsDeepWildcard(d: string) {
    d != [] && d[0] == '*' && IsDeep(d)
  }

  /** The tail a deep wildcard entry records for pruning: the entry without its '*'. */
  function Tail(w: string): string
    requires w != []
  {
    w[1..]
  }

  // ---------------------------------------------------------------------
  // Pruning by a suffix

  /** `x` is kept when pruning by `suffix`: it does not end with it, or it is the wildcard for it. */
  predicate Survives(x: string, suffix: string) {
    !HasSuffix(x, suffix) || x == "*" + suffix
  }

  /** `s` with every element that does not survive `suffix` left out, in order. */
  function WithoutSuffixed(s: seq<string>, suffix: string): (r: seq<string>)
    ensures |r| <= |s|
  {
    if s == [] then []
    else (if Survives(s[0], suffix) then [s[0]] else []) + WithoutSuffixed(s[1..], suffix)
  }

  /** Prunes by every suffix of `remove`, first to last. */
  function PruneAll(made: seq<string>, remove: seq<string>): seq<string>
    decreases |remove|
  {
    if remove == [] then made else PruneAll(WithoutSuffixed(made, remove[0]), remove[1..])
  }

  // ---------------------------------------------------------------------
  // The left-to-right pass

  /** What the pass has built so far: the output list and the recorded wildcard tails. */
  datatype Gathered = Gathered(made: seq<string>, remove: seq<string>)

  /** One iteration of the pass, for the raw entry `raw`. */
  function Step(g: Gathered, raw: string): Gathered {
    var d := TrimSpace(raw);
    if d == [] || d in g.made then g
    else if IsDeep(d) then
      Gathered(g.made + [d], if d[0] == '*' then g.remove + [d[1..]] else g.remove)
    else
      var www := "www." + d;
      Gathered(g.made + [d] + (if www in g.made + [d] then [] else [www]), g.remove)
  }

  /** The state after the pass over all of `domains`. */
  function Gather(domains: seq<string>): Gathered {
    if domains == [] then Gathered([], [])
    else Step(Gather(domains[..|domains| - 1]), domains[|domains| - 1])
  }

  /** The result of prepareDomainNames: the pass, then pruning by every recorded tail. */
  function Prepared(domains: seq<string>): seq<string> {
    var g := Gather(domains);
    PruneAll(g.made, g.remove)
  }

  // ---------------------------------------------------------------------
  // Describing the result in terms of the input

  /** The trimmed, non-blank entries of `domains`, in input order, repeats included. */
  function Entries(domains: seq<string>): seq<string> {
    if domains == [] then []
    else
      var d := TrimSpace(domains[|domains| - 1]);
      Entries(domains[..|domains| - 1]) + (if d == [] then [] else [d])
  }

  /** `x` is "www." followed by an entry that is not deep. */
  predicate IsWwwOfEntry(domains: seq<string>, x: string) {
    |x| > 4 && x[..4] == "www." && x[4..] in Entries(domains) && !IsDeep(x[4..])
  }

  /** `x` is an entry, or the "www." variant of a non-deep entry. */
  predicate FromInput(domains: seq<string>, x: string) {
    x in Entries(domains) || IsWwwOfEntry(domains, x)
  }

  /** The facts the pass keeps after every entry. */
  ghost predicate GatherInvariant(domains: seq<string>, g: Gathered) {
    && NoDuplicates(g.made)
    && (forall x :: x in g.made ==> FromInput(domains, x))
    && (forall x :: x in Entries(domains) ==> x in g.made)
    && (forall d :: d in Entries(domains) && !IsDeep(d) ==> "www." + d in g.made || IsWwwOfEntry(domains, d))
    && (forall x :: x in g.made && IsDeepWildcard(x) ==> Tail(x) in g.remove)
    && (forall t :: t in g.remove ==> "*" + t in Entries(domains) && IsDeepWildcard("*" + t))
  }

  // ---------------------------------------------------------------------
  // The long-TLD table

  /** The table's last entry adds nothing: every ".k12.or.us" domain also ends with ".or.us". */
  lemma LongTLDCases(domain: string)
    ensures EndsWithLongTLD(domain) <==>
      HasSuffix(domain, ".co.jp") || HasSuffix(domain, ".co.uk") || HasSuffix(domain, ".or.us")
  {
    LongTLDTable(domain);
    if HasSuffix(domain, ".k12.or.us") {
      assert domain[|domain| - 6..] == (".k12.or.us")[4..];
    }
  }

  /** The table, entry by entry. */
  lemma LongTLDTable(domain: string)
    ensures EndsWithLongTLD(domain) <==>
      || HasSuffix(domain, ".co.jp") || HasSuffix(domain, ".co.uk")
      || HasSuffix(domain, ".or.us") || HasSuffix(domain, ".k12.or.us")
  {
    assert "." + LongTLDs[0] == ".co.jp" && "." + LongTLDs[1] == ".co.uk";
    assert "." + LongTLDs[2] == ".or.us" && "." + LongTLDs[3] == ".k12.or.us";
  }

  // ---------------------------------------------------------------------
  // Pruning by one suffix

  /** An element is in the pruned list exactly when it is in the list and survives the suffix. */
  lemma {:induction false} WithoutSuffixedMembers(s: seq<string>, suffix: string, x: string)
    ensures x in WithoutSuffixed(s, suffix) <==> x in s && Survives(x, suffix)
  {
    if s != [] {
      assert s == [s[0]] + s[1..];
      WithoutSuffixedMembers(s[1..], suffix, x);
    }
  }

  /** Pruning the tail of `s` from index i: element i is kept or dropped, then the rest is pruned. */
  lemma WithoutSuffixedAt(s: seq<string>, suffix: string, i: nat)
    requires i < |s|
    ensures WithoutSuffixed(s[i..], suffix) ==
      (if Survives(s[i], suffix) then [s[i]] else []) + WithoutSuffixed(s[i + 1..], suffix)
  {
    assert s[i..][1..] == s[i + 1..];
  }

  /** Deleting a non-surviving element i leaves what is still to be pruned from i unchanged. */
  lemma WithoutSuffixedDrop(s: seq<string>, suffix: string, i: nat)
    requires i < |s| && !Survives(s[i], suffix)
    ensures var s' := s[..i] + s[i + 1..];
      s'[..i] == s[..i] && WithoutSuffixed(s'[i..], suffix) == WithoutSuffixed(s[i..], suffix)
  {
    WithoutSuffixedAt(s, suffix, i);
    var s' := s[..i] + s[i + 1..];
    assert s'[..i] == s[..i] && s'[i..] == s[i + 1..];
  }

  /** Keeping a surviving element i moves it from the part still to be pruned to the part done. */
  lemma WithoutSuffixedKeep(s: seq<string>, suffix: string, i: nat)
    requires i < |s| && Survives(s[i], suffix)
    ensures s[..i] + WithoutSuffixed(s[i..], suffix) == s[..i + 1] + WithoutSuffixed(s[i + 1..], suffix)
  {
    WithoutSuffixedAt(s, suffix, i);
    assert s[..i + 1] == s[..i] + [s[i]];
  }

  /** Pruning keeps the relative order of what it keeps, and invents no order. */
  lemma {:induction false} WithoutSuffixedOrder(s: seq<string>, suffix: string, x: string, y: string)
    ensures Before(WithoutSuffixed(s, suffix), x, y) <==>
      Before(s, x, y) && Survives(x, suffix) && Survives(y, suffix)
  {
    if s == [] {
    } else {
      var h, t := s[0], s[1..];
      assert s == [h] + t;
      WithoutSuffixedOrder(t, suffix, x, y);
      WithoutSuffixedMembers(t, suffix, y);
      BeforeCons(h, t, x, y);
      if Survives(h, suffix) {
        assert WithoutSuffixed(s, suffix) == [h] + WithoutSuffixed(t, suffix);
        BeforeCons(h, WithoutSuffixed(t, suffix), x, y);
      } else {
        assert WithoutSuffixed(s, suffix) == WithoutSuffixed(t, suffix);
      }
    }
  }

  /** Pruning a list without repeats gives a list without repeats. */
  lemma {:induction false} WithoutSuffixedNoDuplicates(s: seq<string>, suffix: string)
    requires NoDuplicates(s)
    ensures NoDuplicates(WithoutSuffixed(s, suffix))
  {
    if s != [] {
      var h, t := s[0], s[1..];
      assert s == [h] + t;
      NoDuplicatesCons(h, t);
      WithoutSuffixedNoDuplicates(t, suffix);
      WithoutSuffixedMembers(t, suffix, h);
      NoDuplicatesCons(h, WithoutSuffixed(t, suffix));
    }
  }

  /** When every element survives, pruning returns the list unchanged. */
  lemma {:induction false} WithoutSuffixedUnchanged(s: seq<string>, suffix: string)
    requires forall x :: x in s ==> Survives(x, suffix)
    ensures WithoutSuffixed(s, suffix) == s
  {
    if s != [] {
      assert s == [s[0]] + s[1..];
      WithoutSuffixedUnchanged(s[1..], suffix);
    }
  }

  /** Two neighbours that both survive stay neighbours. */
  lemma {:induction false} WithoutSuffixedAdjacent(s: seq<string>, suffix: string, x: string, y: string)
    requires Adjacent(s, x, y) && Survives(x, suffix) && Survives(y, suffix)
    ensures Adjacent(WithoutSuffixed(s, suffix), x, y)
  {
    var h, t := s[0], s[1..];
    assert s == [h] + t;
    AdjacentCons(h, t, x, y);
    var r := WithoutSuffixed(t, suffix);
    if h == x && t != [] && t[0] == y {
      assert t == [y] + t[1..];
      assert r == [y] + WithoutSuffixed(t[1..], suffix);
      assert WithoutSuffixed(s, suffix) == [x] + r;
      AdjacentCons(x, r, x, y);
    } else {
      WithoutSuffixedAdjacent(t, suffix, x, y);
      if Survives(h, suffix) {
        assert WithoutSuffixed(s, suffix) == [h] + r;
        AdjacentCons(h, r, x, y);
      } else {
        assert WithoutSuffixed(s, suffix) == r;
      }
    }
  }

  // ---------------------------------------------------------------------
  // Pruning by every recorded tail

  lemma {:induction false} PruneAllMembers(made: seq<string>, remove: seq<string>, x: string)
    ensures x in PruneAll(made, remove) <==>
      x in made && forall t :: t in remove ==> Survives(x, t)
    decreases |remove|
  {
    if remove != [] {
      WithoutSuffixedMembers(made, remove[0], x);
      PruneAllMembers(WithoutSuffixed(made, remove[0]), remove[1..], x);
      assert remove == [remove[0]] + remove[1..];
    }
  }

  lemma {:induction false} PruneAllOrder(made: seq<string>, remove: seq<string>, x: string, y: string)
    ensures Before(PruneAll(made, remove), x, y) <==>
      Before(made, x, y) && forall t :: t in remove ==> Survives(x, t) && Survives(y, t)
    decreases |remove|
  {
    if remove != [] {
      WithoutSuffixedOrder(made, remove[0], x, y);
      PruneAllOrder(WithoutSuffixed(made, remove[0]), remove[1..], x, y);
      assert remove == [remove[0]] + remove[1..];
    }
  }

  lemma {:induction false} PruneAllAdjacent(made: seq<string>, remove: seq<string>, x: string, y: string)
    requires Adjacent(made, x, y) && forall t :: t in remove ==> Survives(x, t) && Survives(y, t)
    ensures Adjacent(PruneAll(made, remove), x, y)
    decreases |remove|
  {
    if remove != [] {
      WithoutSuffixedAdjacent(made, remove[0], x, y);
      assert forall t :: t in remove[1..] ==> t in remove;
      PruneAllAdjacent(WithoutSuffixed(made, remove[0]), remove[1..], x, y);
    }
  }

  lemma {:induction false} PruneAllNoDuplicates(made: seq<string>, remove: seq<string>)
    requires NoDuplicates(made)
    ensures NoDuplicates(PruneAll(made, remove))
    decreases |remove|
  {
    if remove != [] {
      WithoutSuffixedNoDuplicates(made, remove[0]);
      PruneAllNoDuplicates(WithoutSuffixed(made, remove[0]), remove[1..]);
    }
  }

  // ---------------------------------------------------------------------
  // The pass, entry by entry

  /** The pass over the first k + 1 entries is one more step after the first k. */
  lemma GatherSnoc(domains: seq<string>, k: nat)
    requires k < |domains|
    ensures Gather(domains[..k + 1]) == Step(Gather(domains[..k]), domains[k])
    ensures Entries(domains[..k + 1]) ==
      Entries(domains[..k]) + (if TrimSpace(domains[k]) == [] then [] else [TrimSpace(domains[k])])
  {
    assert domains[..k + 1][..k] == domains[..k];
  }

  /** Every non-blank trimmed input string is an entry. */
  lemma {:induction false} EntriesInclude(domains: seq<string>, k: nat)
    requires k < |domains| && TrimSpace(domains[k]) != []
    ensures TrimSpace(domains[k]) in Entries(domains)
  {
    var n := |domains| - 1;
    var p := domains[..n];
    var d := TrimSpace(domains[n]);
    assert Entries(domains) == Entries(p) + (if d == [] then [] else [d]);
    if k < n {
      assert p[k] == domains[k];
      EntriesInclude(p, k);
    } else {
      assert Entries(domains)[|Entries(p)|] == d;
    }
  }

  /** Every entry is a non-blank trimmed input string. */
  lemma {:induction false} EntriesOrigin(domains: seq<string>, x: string) returns (k: nat)
    requires x in Entries(domains)
    ensures k < |domains| && x != [] && TrimSpace(domains[k]) == x
  {
    var n := |domains| - 1;
    var p := domains[..n];
    if x in Entries(p) {
      k := EntriesOrigin(p, x);
      assert p[k] == domains[k];
    } else {
      k := n;
    }
  }

  /** Extending the input by one string adds its trimmed form, if non-blank, to the entries. */
  lemma EntriesPush(domains: seq<string>, raw: string)
    ensures var d := TrimSpace(raw);
      Entries(domains + [raw]) == Entries(domains) + (if d == [] then [] else [d])
    ensures forall x :: FromInput(domains, x) ==> FromInput(domains + [raw], x)
  {
    assert (domains + [raw])[..|domains|] == domains;
  }

  /** One step keeps the invariant, over the input extended by that step's entry. */
  lemma StepPreservesInvariant(domains: seq<string>, g: Gathered, raw: string)
    requires GatherInvariant(domains, g)
    ensures GatherInvariant(domains + [raw], Step(g, raw))
  {
    var d := TrimSpace(raw);
    EntriesPush(domains, raw);
    if d == [] {
    } else if d in g.made {
      assert FromInput(domains, d);
    } else if IsDeep(d) {
      StepDeepPreserves(domains, g, raw);
    } else {
      StepBarePreserves(domains, g, raw);
    }
  }

  lemma StepDeepPreserves(domains: seq<string>, g: Gathered, raw: string)
    requires GatherInvariant(domains, g)
    requires var d := TrimSpace(raw); d != [] && d !in g.made && IsDeep(d)
    ensures GatherInvariant(domains + [raw], Step(g, raw))
  {
    var d := TrimSpace(raw);
    EntriesPush(domains, raw);
    NoDuplicatesSnoc(g.made, d);
    if d[0] == '*' {
      assert "*" + Tail(d) == d;
    }
  }

  lemma StepBarePreserves(domains: seq<string>, g: Gathered, raw: string)
    requires GatherInvariant(domains, g)
    requires var d := TrimSpace(raw); d != [] && d !in g.made && !IsDeep(d)
    ensures GatherInvariant(domains + [raw], Step(g, raw))
  {
    var d := TrimSpace(raw);
    var ds := domains + [raw];
    EntriesPush(domains, raw);
    var www := "www." + d;
    NoDuplicatesSnoc(g.made, d);
    if www !in g.made + [d] {
      NoDuplicatesSnoc(g.made + [d], www);
    }
    assert www[..4] == "www." && www[4..] == d && www[0] == 'w';
    assert IsWwwOfEntry(ds, www);
  }

  /** The pass establishes its invariant over the whole input. */
  lemma {:induction false} GatherKeepsInvariant(domains: seq<string>)
    ensures GatherInvariant(domains, Gather(domains))
  {
    if domains != [] {
      var n := |domains| - 1;
      GatherKeepsInvariant(domains[..n]);
      StepPreservesInvariant(domains[..n], Gather(domains[..n]), domains[n]);
      assert domains[..n] + [domains[n]] == domains;
    }
  }

  /** A step only appends to what the pass has built. */
  lemma StepExtends(g: Gathered, raw: string)
    ensures g.made <= Step(g, raw).made && g.remove <= Step(g, raw).remove
  {
  }

  /** Later entries only append: the list after k entries is a prefix of the final one. */
  lemma {:induction false} GatherExtends(domains: seq<string>, k: nat)
    requires k <= |domains|
    ensures Gather(domains[..k]).made <= Gather(domains).made
    ensures Gather(domains[..k]).remove <= Gather(domains).remove
    decreases |domains|
  {
    if k == |domains| {
      assert domains[..k] == domains;
    } else {
      var n := |domains| - 1;
      var p := domains[..n];
      GatherExtends(p, k);
      assert p[..k] == domains[..k];
      var a, b, c := Gather(domains[..k]), Gather(p), Gather(domains);
      assert c == Step(b, domains[n]) by {
        GatherSnoc(domains, n);
        assert domains[..n + 1] == domains;
      }
      StepExtends(b, domains[n]);
      PrefixTransitive(a.made, b.made, c.made);
      PrefixTransitive(a.remove, b.remove, c.remove);
    }
  }

  /**
   * What entry k does to the list: a blank or already listed entry changes
   * nothing; a new entry is appended at the end of the list so far; a new deep
   * entry brings nothing else; a new entry that is not deep is followed
   * immediately by its "www." variant unless that variant is already listed.
   */
  lemma GatherEntry(domains: seq<string>, k: nat)
    requires k < |domains|
    ensures var d, m := TrimSpace(domains[k]), Gather(domains[..k]).made;
      && (d == [] || d in m ==> Gather(domains[..k + 1]) == Gather(domains[..k]))
      && (d != [] && d !in m ==> |m| < |Gather(domains).made| && Gather(domains).made[|m|] == d)
      && (d != [] && d !in m && IsDeep(d) ==> Gather(domains[..k + 1]).made == m + [d])
      && (d != [] && d !in m && !IsDeep(d) && "www." + d !in m ==>
            |m| + 1 < |Gather(domains).made| && Gather(domains).made[|m| + 1] == "www." + d)
  {
    var d, m := TrimSpace(domains[k]), Gather(domains[..k]).made;
    GatherSnoc(domains, k);
    GatherExtends(domains, k + 1);
    var next, all := Gather(domains[..k + 1]).made, Gather(domains).made;
    if d != [] && d !in m {
      assert next[|m|] == d;
      assert all[..|next|] == next;
      if !IsDeep(d) && "www." + d !in m {
        assert "www." + d != d;
        assert next == m + [d] + ["www." + d];
        assert next[|m| + 1] == "www." + d;
      }
    }
  }

  // ---------------------------------------------------------------------
  // What prepareDomainNames returns

  /** The result never lists a name twice. */
  lemma PreparedNoDuplicates(domains: seq<string>)
    ensures NoDuplicates(Prepared(domains))
  {
    GatherKeepsInvariant(domains);
    PruneAllNoDuplicates(Gather(domains).made, Gather(domains).remove);
  }

  /** Empty input, or input whose every string is blank after trimming, gives an empty result. */
  lemma {:induction false} PreparedBlank(domains: seq<string>)
    requires forall k :: 0 <= k < |domains| ==> TrimSpace(domains[k]) == []
    ensures Prepared(domains) == []
  {
    GatherKeepsInvariant(domains);
    var made := Gather(domains).made;
    if made != [] {
      assert FromInput(domains, made[0]);
      var x := if made[0] in Entries(domains) then made[0] else made[0][4..];
      var k := EntriesOrigin(domains, x);
      assert false;
    }
    assert Gather(domains).remove == [] by {
      if Gather(domains).remove != [] {
        var t := Gather(domains).remove[0];
        var k := EntriesOrigin(domains, "*" + t);
        assert false;
      }
    }
  }

  /** Everything in the result is a trimmed entry or the "www." variant of a non-deep one. */
  lemma PreparedFromInput(domains: seq<string>, x: string)
    requires x in Prepared(domains)
    ensures FromInput(domains, x)
    ensures x != [] && !IsSpace(x[0]) && !IsSpace(x[|x| - 1])
  {
    GatherKeepsInvariant(domains);
    PruneAllMembers(Gather(domains).made, Gather(domains).remove, x);
    if x in Entries(domains) {
      var k := EntriesOrigin(domains, x);
    } else {
      var k := EntriesOrigin(domains, x[4..]);
      assert x[..4] + x[4..] == x;
    }
  }

  /**
   * A name is in the result exactly when the pass listed it and it survives
   * the tail of every deep wildcard entry.
   */
  lemma PreparedMembers(domains: seq<string>, x: string)
    ensures x in Prepared(domains) <==>
      x in Gather(domains).made &&
      forall w :: w in Entries(domains) && IsDeepWildcard(w) ==> Survives(x, Tail(w))
  {
    var g := Gather(domains);
    GatherKeepsInvariant(domains);
    PruneAllMembers(g.made, g.remove, x);
    forall t | t in g.remove
      ensures "*" + t in Entries(domains) && IsDeepWildcard("*" + t) && Tail("*" + t) == t
    {
      assert ("*" + t)[1..] == t;
    }
  }

  /**
   * Every trimmed entry is in the result unless some deep wildcard entry's
   * tail removes it; the same holds for the "www." variant of a non-deep entry
   * that is not itself the variant of another entry.
   */
  lemma PreparedKeeps(domains: seq<string>, d: string)
    requires d in Entries(domains)
    ensures (forall w :: w in Entries(domains) && IsDeepWildcard(w) ==> Survives(d, Tail(w))) ==>
      d in Prepared(domains)
    ensures (&& !IsDeep(d) && !IsWwwOfEntry(domains, d)
             && forall w :: w in Entries(domains) && IsDeepWildcard(w) ==> Survives("www." + d, Tail(w)))
      ==> "www." + d in Prepared(domains)
  {
    GatherKeepsInvariant(domains);
    PreparedMembers(domains, d);
    PreparedMembers(domains, "www." + d);
  }

  /**
   * Wildcard precedence: for a deep wildcard entry "*" + t, no name in the
   * result other than that wildcard itself ends with t.
   */
  lemma PreparedWildcard(domains: seq<string>, w: string, x: string)
    requires w in Entries(domains) && IsDeepWildcard(w)
    requires x in Prepared(domains) && HasSuffix(x, Tail(w))
    ensures x == w
  {
    PreparedMembers(domains, x);
    assert "*" + Tail(w) == w;
  }

  /**
   * First-seen order: an entry keeps its place before any later entry that
   * the pass had not listed yet, when both are in the result.
   */
  lemma PreparedFirstSeenOrder(domains: seq<string>, i: nat, j: nat)
    requires i < j < |domains|
    requires TrimSpace(domains[i]) != [] && TrimSpace(domains[j]) != []
    requires TrimSpace(domains[j]) !in Gather(domains[..j]).made
    requires TrimSpace(domains[i]) in Prepared(domains) && TrimSpace(domains[j]) in Prepared(domains)
    ensures Before(Prepared(domains), TrimSpace(domains[i]), TrimSpace(domains[j]))
  {
    var x, y := TrimSpace(domains[i]), TrimSpace(domains[j]);
    var g := Gather(domains);
    var m := Gather(domains[..j]).made;
    GatherKeepsInvariant(domains[..j]);
    GatherKeepsInvariant(domains);
    GatherExtends(domains, j);
    assert domains[..j][i] == domains[i];
    EntriesInclude(domains[..j], i);
    EntriesInclude(domains, j);
    assert x in m && y !in m && y in g.made;
    var p :| 0 <= p < |m| && m[p] == x;
    var q :| 0 <= q < |g.made| && g.made[q] == y;
    assert g.made[p] == x;
    assert Before(g.made, x, y);
    PruneAllOrder(g.made, g.remove, x, y);
    PruneAllMembers(g.made, g.remove, x);
    PruneAllMembers(g.made, g.remove, y);
  }

  /**
   * The "www." variant that a new, non-deep entry brings stays immediately
   * after it in the result, when pruning keeps both.
   */
  lemma PreparedWwwAdjacent(domains: seq<string>, k: nat)
    requires k < |domains|
    requires var d, m := TrimSpace(domains[k]), Gather(domains[..k]).made;
      d != [] && d !in m && !IsDeep(d) && "www." + d !in m
    requires TrimSpace(domains[k]) in Prepared(domains) && "www." + TrimSpace(domains[k]) in Prepared(domains)
    ensures Adjacent(Prepared(domains), TrimSpace(domains[k]), "www." + TrimSpace(domains[k]))
  {
    var d, m, g := TrimSpace(domains[k]), Gather(domains[..k]).made, Gather(domains);
    GatherEntry(domains, k);
    assert g.made[|m|] == d && g.made[|m| + 1] == "www." + d;
    PruneAllMembers(g.made, g.remove, d);
    PruneAllMembers(g.made, g.remove, "www." + d);
    PruneAllAdjacent(g.made, g.remove, d, "www." + d);
  }
}
