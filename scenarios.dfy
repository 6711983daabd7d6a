/**
 * The behaviour the routine's tests pin down, stated for every domain of the
 * right shape and then instantiated on the strings the tests use.
 */
module DomainScenarios {
  import opened GoStrings
  import opened DomainNames

  // ---------------------------------------------------------------------
  // Helpers for running the pass by hand

  /** A string that starts and ends with a non-space character is left alone by trimming. */
  lemma TrimSpaceClean(s: string)
    requires s != [] && !IsSpace(s[0]) && !IsSpace(s[|s| - 1])
    ensures TrimSpace(s) == s
  {
  }

  lemma GatherPush(ds: seq<string>, raw: string)
    ensures Gather(ds + [raw]) == Step(Gather(ds), raw)
  {
    assert (ds + [raw])[..|ds|] == ds;
  }

  /** A clean entry that is already listed changes nothing. */
  lemma StepSeen(g: Gathered, d: string)
    requires TrimSpace(d) == d && d in g.made
    ensures Step(g, d) == g
  {
  }

  /** A new clean entry that is not deep is appended with its "www." variant. */
  lemma StepBare(g: Gathered, d: string)
    requires TrimSpace(d) == d && d != [] && d !in g.made && !IsDeep(d) && "www." + d !in g.made
    ensures Step(g, d) == Gathered(g.made + [d, "www." + d], g.remove)
  {
    assert "www." + d != d;
  }

  /** A new clean deep entry is appended alone; a wildcard one also records its tail. */
  lemma StepDeep(g: Gathered, d: string)
    requires TrimSpace(d) == d && d != [] && d !in g.made && IsDeep(d)
    ensures Step(g, d) == Gathered(g.made + [d], if d[0] == '*' then g.remove + [Tail(d)] else g.remove)
  {
  }

  /** The "www." variant of a domain ends with "." followed by that domain. */
  lemma WwwEndsWithDotDomain(d: string)
    ensures HasSuffix("www." + d, "." + d) && !HasSuffix(d, "." + d)
  {
    assert ("www." + d)[3..] == "." + d;
  }

  /** The pass over a single new clean entry that is not deep. */
  lemma GatherOne(d: string)
    requires TrimSpace(d) == d && d != [] && !IsDeep(d)
    ensures Gather([d]) == Gathered([d, "www." + d], [])
  {
    GatherPush([], d);
    assert [] + [d] == [d];
    StepBare(Gathered([], []), d);
  }

  // ---------------------------------------------------------------------
  // Scenarios

  /** A domain that is not a sub-domain comes back followed by its "www." variant. */
  lemma BareDomain(d: string)
    requires TrimSpace(d) == d && d != [] && !IsDeep(d)
    ensures Prepared([d]) == [d, "www." + d]
  {
    GatherPush([], d);
    assert [] + [d] == [d];
    StepBare(Gathered([], []), d);
  }

  /** A sub-domain that is not a wildcard comes back alone. */
  lemma DeepDomain(d: string)
    requires TrimSpace(d) == d && d != [] && IsDeep(d) && d[0] != '*'
    ensures Prepared([d]) == [d]
  {
    GatherPush([], d);
    assert [] + [d] == [d];
    StepDeep(Gathered([], []), d);
  }

  /** Two unrelated domains each come back followed by their "www." variant. */
  lemma TwoBareDomains(a: string, b: string)
    requires TrimSpace(a) == a && a != [] && !IsDeep(a)
    requires TrimSpace(b) == b && b != [] && !IsDeep(b)
    requires b !in [a, "www." + a] && "www." + b !in [a, "www." + a]
    ensures Prepared([a, b]) == [a, "www." + a, b, "www." + b]
  {
    var g1 := Gathered([a, "www." + a], []);
    assert Gather([a]) == g1 by {
      GatherPush([], a);
      assert [] + [a] == [a];
      StepBare(Gathered([], []), a);
    }
    assert Gather([a, b]) == Gathered([a, "www." + a, b, "www." + b], []) by {
      GatherPush([a], b);
      assert [a] + [b] == [a, b];
      StepBare(g1, b);
      assert g1.made + [b, "www." + b] == [a, "www." + a, b, "www." + b];
    }
  }

  /** A domain followed by its "www." variant gives the two names once each. */
  lemma DomainThenWww(d: string)
    requires TrimSpace(d) == d && d != [] && !IsDeep(d)
    requires TrimSpace("www." + d) == "www." + d
    ensures Prepared([d, "www." + d]) == [d, "www." + d]
  {
    var w := "www." + d;
    var g1 := Gathered([d, w], []);
    assert Gather([d]) == g1 by {
      GatherPush([], d);
      assert [] + [d] == [d];
      StepBare(Gathered([], []), d);
    }
    assert Gather([d, w]) == g1 by {
      GatherPush([d], w);
      assert [d] + [w] == [d, w];
      StepSeen(g1, w);
    }
  }

  /**
   * The "www." variant listed before its domain keeps its place; the domain
   * follows and brings no second copy of the variant.
   */
  lemma WwwThenDomain(d: string)
    requires TrimSpace(d) == d && d != [] && !IsDeep(d)
    requires TrimSpace("www." + d) == "www." + d && IsDeep("www." + d)
    ensures Prepared(["www." + d, d]) == ["www." + d, d]
  {
    var w := "www." + d;
    assert w != d && w[0] == 'w';
    assert Gather([w]) == Gathered([w], []) by {
      GatherPush([], w);
      assert [] + [w] == [w];
      StepDeep(Gathered([], []), w);
    }
    assert Gather([w, d]) == Gathered([w, d], []) by {
      GatherPush([w], d);
      assert [w] + [d] == [w, d];
    }
  }

  /** A domain with its wildcard: the "www." variant the domain brings is pruned by the wildcard's tail. */
  lemma DomainThenWildcard(d: string)
    requires TrimSpace(d) == d && d != [] && !IsDeep(d)
    requires TrimSpace("*." + d) == "*." + d && IsDeep("*." + d)
    ensures Prepared([d, "*." + d]) == [d, "*." + d]
  {
    WildcardGathered(d);
    WildcardPrunes(d);
  }

  /** As DomainThenWildcard, when the input also lists the "www." variant after the wildcard. */
  lemma DomainWildcardWww(d: string)
    requires TrimSpace(d) == d && d != [] && !IsDeep(d)
    requires TrimSpace("*." + d) == "*." + d && IsDeep("*." + d)
    requires TrimSpace("www." + d) == "www." + d
    ensures Prepared([d, "*." + d, "www." + d]) == [d, "*." + d]
  {
    var w, star := "www." + d, "*." + d;
    WildcardGathered(d);
    var g := Gathered([d, w, star], ["." + d]);
    assert Gather([d, star, w]) == g by {
      GatherPush([d, star], w);
      assert [d, star] + [w] == [d, star, w];
      StepSeen(g, w);
    }
    WildcardPrunes(d);
  }

  lemma WildcardGathered(d: string)
    requires TrimSpace(d) == d && d != [] && !IsDeep(d)
    requires TrimSpace("*." + d) == "*." + d && IsDeep("*." + d)
    ensures Gather([d, "*." + d]) == Gathered([d, "www." + d, "*." + d], ["." + d])
  {
    var w, star := "www." + d, "*." + d;
    var g1 := Gathered([d, w], []);
    assert Gather([d, star]) == Step(g1, star) by {
      GatherOne(d);
      GatherPush([d], star);
      assert [d] + [star] == [d, star];
    }
    WildcardStep(d);
  }

  /** The deep wildcard entry after the bare domain's pair is appended and records its tail. */
  lemma WildcardStep(d: string)
    requires TrimSpace("*." + d) == "*." + d && IsDeep("*." + d)
    ensures Step(Gathered([d, "www." + d], []), "*." + d) == Gathered([d, "www." + d, "*." + d], ["." + d])
  {
    var w, star := "www." + d, "*." + d;
    assert star !in [d, w] by {
      assert star[0] == '*' && w[0] == 'w' && |star| != |d|;
    }
    assert Tail(star) == "." + d;
    StepDeep(Gathered([d, w], []), star);
  }

  /** As DomainWildcardWww, followed by an unrelated domain that is not a sub-domain. */
  lemma DomainWildcardWwwOther(d: string, e: string)
    requires TrimSpace(d) == d && d != [] && !IsDeep(d)
    requires TrimSpace("*." + d) == "*." + d && IsDeep("*." + d)
    requires TrimSpace("www." + d) == "www." + d
    requires TrimSpace(e) == e && e != [] && !IsDeep(e)
    requires e !in [d, "www." + d, "*." + d] && "www." + e !in [d, "www." + d, "*." + d]
    requires !HasSuffix(e, "." + d) && !HasSuffix("www." + e, "." + d)
    ensures Prepared([d, "*." + d, "www." + d, e]) == [d, "*." + d, e, "www." + e]
  {
    WildcardWwwOtherGathered(d, e);
    WildcardPrunesOther(d, e);
  }

  lemma WildcardWwwOtherGathered(d: string, e: string)
    requires TrimSpace(d) == d && d != [] && !IsDeep(d)
    requires TrimSpace("*." + d) == "*." + d && IsDeep("*." + d)
    requires TrimSpace("www." + d) == "www." + d
    requires TrimSpace(e) == e && e != [] && !IsDeep(e)
    requires e !in [d, "www." + d, "*." + d] && "www." + e !in [d, "www." + d, "*." + d]
    ensures Gather([d, "*." + d, "www." + d, e]) ==
      Gathered([d, "www." + d, "*." + d, e, "www." + e], ["." + d])
  {
    var w, star := "www." + d, "*." + d;
    var g := Gathered([d, w, star], ["." + d]);
    assert Gather([d, star, w]) == g by {
      WildcardGathered(d);
      GatherPush([d, star], w);
      assert [d, star] + [w] == [d, star, w];
      StepSeen(g, w);
    }
    GatherPush([d, star, w], e);
    assert [d, star, w] + [e] == [d, star, w, e];
    StepBare(g, e);
    assert g.made + [e, "www." + e] == [d, w, star, e, "www." + e];
  }

  lemma WildcardPrunesOther(d: string, e: string)
    requires !HasSuffix(e, "." + d) && !HasSuffix("www." + e, "." + d)
    ensures PruneAll([d, "www." + d, "*." + d, e, "www." + e], ["." + d]) == [d, "*." + d, e, "www." + e]
  {
    var w, star := "www." + d, "*." + d;
    WwwEndsWithDotDomain(d);
    assert star == "*" + ("." + d);
    assert WithoutSuffixed([e, "www." + e], "." + d) == [e, "www." + e];
    assert WithoutSuffixed([star, e, "www." + e], "." + d) == [star, e, "www." + e];
    assert WithoutSuffixed([w, star, e, "www." + e], "." + d) == [star, e, "www." + e];
    assert WithoutSuffixed([d, w, star, e, "www." + e], "." + d) == [d, star, e, "www." + e];
  }

  lemma WildcardPrunes(d: string)
    ensures PruneAll([d, "www." + d, "*." + d], ["." + d]) == [d, "*." + d]
  {
    var w, star := "www." + d, "*." + d;
    WwwEndsWithDotDomain(d);
    assert star == "*" + ("." + d);
    assert WithoutSuffixed([star], "." + d) == [star];
    assert WithoutSuffixed([w, star], "." + d) == [star];
    assert WithoutSuffixed([d, w, star], "." + d) == [d, star];
  }

  /**
   * The routine is not idempotent: a longer wildcard "**." + d records the
   * tail "*." + d, which prunes the wildcard "*." + d, so the result is [d];
   * running the routine on that result brings the "www." variant back.
   */
  lemma LongerWildcardNotIdempotent(d: string)
    requires TrimSpace(d) == d && d != [] && !IsDeep(d)
    requires TrimSpace("*." + d) == "*." + d && IsDeep("*." + d)
    requires TrimSpace("**." + d) == "**." + d && IsDeep("**." + d)
    ensures Prepared([d, "*." + d, "**." + d]) == [d]
    ensures Prepared(Prepared([d, "*." + d, "**." + d])) == [d, "www." + d]
  {
    LongerWildcardGathered(d);
    LongerWildcardPrunes(d);
    BareDomain(d);
  }

  lemma LongerWildcardGathered(d: string)
    requires TrimSpace(d) == d && d != [] && !IsDeep(d)
    requires TrimSpace("*." + d) == "*." + d && IsDeep("*." + d)
    requires TrimSpace("**." + d) == "**." + d && IsDeep("**." + d)
    ensures Gather([d, "*." + d, "**." + d]) == Gathered([d, "www." + d, "*." + d, "**." + d], ["." + d, "*." + d])
  {
    var star, star2 := "*." + d, "**." + d;
    assert Gather([d, star, star2]) == Step(Gather([d, star]), star2) by {
      GatherPush([d, star], star2);
      assert [d, star] + [star2] == [d, star, star2];
    }
    WildcardGathered(d);
    LongerWildcardStep(d);
  }

  /** The longer deep wildcard entry is new: it is appended and records the tail "*." + d. */
  lemma LongerWildcardStep(d: string)
    requires TrimSpace("**." + d) == "**." + d && IsDeep("**." + d)
    ensures Step(Gathered([d, "www." + d, "*." + d], ["." + d]), "**." + d) ==
      Gathered([d, "www." + d, "*." + d, "**." + d], ["." + d, "*." + d])
  {
    var w, star, star2 := "www." + d, "*." + d, "**." + d;
    var g := Gathered([d, w, star], ["." + d]);
    assert star2 !in g.made by {
      assert star2[1] == '*' && star[1] == '.' && w[0] == 'w' && |star2| != |d|;
    }
    assert Tail(star2) == star;
    StepDeep(g, star2);
  }

  lemma LongerWildcardPrunes(d: string)
    ensures PruneAll([d, "www." + d, "*." + d, "**." + d], ["." + d, "*." + d]) == [d]
  {
    var w, star, star2 := "www." + d, "*." + d, "**." + d;
    WwwEndsWithDotDomain(d);
    assert star == "*" + ("." + d);
    assert HasSuffix(star2, "." + d) && star2 != star by {
      assert star2[|star2| - |"." + d|..] == "." + d;
      assert star2[1] != star[1];
    }
    assert WithoutSuffixed([star2], "." + d) == [];
    assert WithoutSuffixed([star, star2], "." + d) == [star];
    assert WithoutSuffixed([w, star, star2], "." + d) == [star];
    assert WithoutSuffixed([d, w, star, star2], "." + d) == [d, star];
    assert HasSuffix(star, star) && star != "*" + star && !HasSuffix(d, star);
    assert WithoutSuffixed([star], star) == [];
    assert WithoutSuffixed([d, star], star) == [d];
    assert PruneAll([d, star], [star]) == PruneAll([d], []);
  }

  // ---------------------------------------------------------------------
  // The test cases of server/domains_list_test.go

  lemma HasLongTLDCasesFalse()
    ensures !EndsWithLongTLD("") && !EndsWithLongTLD("abc.com") && !EndsWithLongTLD("sub.abc.com")
    ensures !EndsWithLongTLD("*.abc.com")
  {
    LongTLDCases("");
    LongTLDCases("abc.com");
    LongTLDCases("sub.abc.com");
    LongTLDCases("*.abc.com");
  }

  lemma HasLongTLDCasesTrue(a: string, b: string, c: string, e: string)
    requires a == "abc.co.uk" && b == "sub.abc.co.uk" && c == "*.abc.co.uk" && e == "abc-more.or.us"
    ensures EndsWithLongTLD(a) && EndsWithLongTLD(b) && EndsWithLongTLD(c) && EndsWithLongTLD(e)
  {
    CoUkSuffixed(a);
    CoUkSuffixed(b);
    CoUkSuffixed(c);
    OrUsSuffixed(e);
  }

  lemma OrUsSuffixed(d: string)
    requires HasSuffix(d, ".or.us")
    ensures EndsWithLongTLD(d)
  {
    assert LongTLDs[2] == "or.us" && "." + LongTLDs[2] == ".or.us";
  }

  lemma CoUkSuffixed(d: string)
    requires HasSuffix(d, ".co.uk")
    ensures EndsWithLongTLD(d)
  {
    assert LongTLDs[1] == "co.uk" && "." + LongTLDs[1] == ".co.uk";
  }

  lemma RemoveStringsSuffixedCase1()
    ensures WithoutSuffixed([], "anything") == []
    ensures WithoutSuffixed(["s.abc", "*.abc", "def"], ".abc") == ["*.abc", "def"]
  {
  }

  lemma RemoveStringsSuffixedCase2()
    ensures WithoutSuffixed(["abc.com", "*.abc.com", "d.co"], ".abc.com") == ["abc.com", "*.abc.com", "d.co"]
  {
  }

  lemma RemoveStringsSuffixedCase3()
    ensures WithoutSuffixed(["abc.io", "*.gh.ca.us", "www.gh.ca.us"], ".gh.ca.us") == ["abc.io", "*.gh.ca.us"]
  {
    assert !HasSuffix("abc.io", ".gh.ca.us") && "*.gh.ca.us" == "*" + ".gh.ca.us";
    assert HasSuffix("www.gh.ca.us", ".gh.ca.us") && "www.gh.ca.us" != "*" + ".gh.ca.us";
    assert WithoutSuffixed(["www.gh.ca.us"], ".gh.ca.us") == [];
  }

  lemma RemoveStringsSuffixedCase4()
    ensures WithoutSuffixed(["abc", "def", "ghi"], "-") == ["abc", "def", "ghi"]
  {
  }

  // Dot counts: general rules for labels joined by dots, then the test
  // domains grouped by count, then their "www." and wildcard forms.

  /** A string without a dot has dot count zero. */
  lemma NoDot(s: string)
    requires '.' !in s
    ensures Count(s, '.') == 0
  {
    CountMultiplicity(s, '.');
  }

  /** Joining two strings with a dot adds their dot counts and one. */
  lemma DotJoin(a: string, b: string)
    ensures Count(a + "." + b, '.') == Count(a, '.') + Count(b, '.') + 1
  {
    CountAppend(a + ".", b, '.');
    CountAppend(a, ".", '.');
    CountMultiplicity(".", '.');
  }

  /** Labels without dots, joined by single dots. */
  lemma TwoLabels(d: string, a: string, b: string)
    requires '.' !in a && '.' !in b && d == a + "." + b
    ensures Count(d, '.') == 1
  {
    NoDot(a);
    NoDot(b);
    DotJoin(a, b);
  }

  lemma ThreeLabels(d: string, a: string, b: string, c: string)
    requires '.' !in a && '.' !in b && '.' !in c && d == a + "." + b + "." + c
    ensures Count(d, '.') == 2
  {
    TwoLabels(a + "." + b, a, b);
    NoDot(c);
    DotJoin(a + "." + b, c);
  }

  lemma FourLabels(d: string, a: string, b: string, c: string, e: string)
    requires '.' !in a && '.' !in b && '.' !in c && '.' !in e
    requires d == a + "." + b + "." + c + "." + e
    ensures Count(d, '.') == 3
  {
    ThreeLabels(a + "." + b + "." + c, a, b, c);
    NoDot(e);
    DotJoin(a + "." + b + "." + c, e);
  }

  // The dot counts of the test domains, grouped by count.

  lemma NoDots(d: string)
    requires d == "no_dot"
    ensures Count(d, '.') == 0
  {
    NoDot(d);
  }

  lemma OneDot(d: string)
    requires d == "abc.com" || d == "abc-de.co" || d == "abc.io"
    ensures Count(d, '.') == 1
  {
    if d == "abc.com" {
      TwoLabels(d, "abc", "com");
    } else if d == "abc-de.co" {
      TwoLabels(d, "abc-de", "co");
    } else {
      TwoLabels(d, "abc", "io");
    }
  }

  lemma TwoDots(d: string)
    requires d == "abc.co.jp" || d == "abc.co.uk"
    ensures Count(d, '.') == 2
  {
    if d == "abc.co.jp" {
      ThreeLabels(d, "abc", "co", "jp");
    } else {
      ThreeLabels(d, "abc", "co", "uk");
    }
  }

  lemma ThreeDots(d: string)
    requires d == "domain.k12.or.us"
    ensures Count(d, '.') == 3
  {
    FourLabels(d, "domain", "k12", "or", "us");
  }

  /** Prefixing "www." or the wildcard label "*." adds one dot. */
  lemma PrefixDots(p: string, d: string)
    requires p == "www." || p == "*."
    ensures Count(p + d, '.') == Count(d, '.') + 1
  {
    CountAppend(p, d, '.');
    CountMultiplicity(p, '.');
  }

  // The facts about each test string that the scenarios above require: it is
  // already trimmed, and its dot count and long-TLD flag decide its depth.

  /** The test domains without a long TLD, which are not sub-domains. */
  lemma ShortTLDFacts(d: string)
    requires d == "abc.com" || d == "abc-de.co" || d == "abc.io" || d == "no_dot"
    ensures TrimSpace(d) == d && d != [] && !EndsWithLongTLD(d)
    ensures !IsDeep(d)
  {
    TrimSpaceClean(d);
    LongTLDCases(d);
    if d == "no_dot" {
      NoDots(d);
    } else {
      OneDot(d);
    }
  }

  /** Their "www." and wildcard forms, which are sub-domains. */
  lemma ShortTLDVariantFacts(p: string, d: string)
    requires p == "www." || p == "*."
    requires d == "abc.com" || d == "abc.io"
    ensures TrimSpace(p + d) == p + d && p + d != [] && !EndsWithLongTLD(p + d)
    ensures IsDeep(p + d)
  {
    TrimSpaceClean(p + d);
    OneDot(d);
    PrefixDots(p, d);
    LongTLDCases(p + d);
  }

  /** The test domains under a long TLD with no further label, which are not sub-domains. */
  lemma LongTLDFacts(d: string)
    requires d == "abc.co.jp" || d == "abc.co.uk"
    ensures TrimSpace(d) == d && d != [] && EndsWithLongTLD(d)
    ensures !IsDeep(d)
  {
    TrimSpaceClean(d);
    TwoDots(d);
    LongTLDCases(d);
  }

  /** The "www." and wildcard forms of "abc.co.jp", which are sub-domains. */
  lemma CoJpVariantFacts(p: string, d: string)
    requires p == "www." || p == "*."
    requires d == "abc.co.jp"
    ensures TrimSpace(p + d) == p + d && p + d != [] && EndsWithLongTLD(p + d)
    ensures IsDeep(p + d)
  {
    TrimSpaceClean(p + d);
    TwoDots(d);
    PrefixDots(p, d);
    LongTLDFacts(d);
    LongTLDPrefixed(p, d);
  }

  lemma DomainK12OrUsFacts(d: string)
    requires d == "domain.k12.or.us"
    ensures TrimSpace(d) == d && d != [] && EndsWithLongTLD(d)
    ensures IsDeep(d)
  {
    TrimSpaceClean(d);
    ThreeDots(d);
    assert LongTLDs[2] == "or.us" && HasSuffix(d, "." + LongTLDs[2]);
  }

  lemma AbcDeCoApart(a: string, b: string)
    requires a == "abc.com" && b == "abc-de.co"
    ensures b !in [a, "www." + a] && "www." + b !in [a, "www." + a]
  {
    assert b[3] != a[3] && |b| != |"www." + a|;
    assert |"www." + b| != |a| && ("www." + b)[7] != ("www." + a)[7];
  }

  lemma NoDotApart(d: string, e: string)
    requires d == "abc.io" && e == "no_dot"
    ensures e !in [d, "www." + d, "*." + d] && "www." + e !in [d, "www." + d, "*." + d]
    ensures !HasSuffix(e, "." + d) && !HasSuffix("www." + e, "." + d)
  {
    assert e[0] != d[0] && e[0] != ("www." + d)[0] && e[0] != ("*." + d)[0];
    assert |"www." + e| != |d| && ("www." + e)[4] != ("www." + d)[4] && |"www." + e| != |"*." + d|;
    assert ("www." + e)[9] != ("." + d)[6];
  }

  lemma PreparedCase37()
    ensures Prepared([]) == []
  {
  }

  lemma PreparedCase41(d: string)
    requires d == "abc.com"
    ensures Prepared([d]) == [d, "www." + d]
  {
    ShortTLDFacts(d);
    BareDomain(d);
  }

  lemma PreparedCase42(a: string, b: string)
    requires a == "abc.com" && b == "abc-de.co"
    ensures Prepared([a, b]) == [a, "www." + a, b, "www." + b]
  {
    ShortTLDFacts(a);
    ShortTLDFacts(b);
    AbcDeCoApart(a, b);
    TwoBareDomains(a, b);
  }

  lemma PreparedCase45(d: string)
    requires d == "abc.com"
    ensures Prepared([d, "www." + d]) == [d, "www." + d]
  {
    ShortTLDFacts(d);
    ShortTLDVariantFacts("www.", d);
    DomainThenWww(d);
  }

  lemma PreparedCase46(d: string)
    requires d == "abc.co.jp"
    ensures Prepared([d, "www." + d]) == [d, "www." + d]
  {
    LongTLDFacts(d);
    CoJpVariantFacts("www.", d);
    DomainThenWww(d);
  }

  lemma PreparedCase49(d: string)
    requires d == "abc.com"
    ensures Prepared(["www." + d, d]) == ["www." + d, d]
  {
    ShortTLDFacts(d);
    ShortTLDVariantFacts("www.", d);
    WwwThenDomain(d);
  }

  lemma PreparedCase50(d: string)
    requires d == "abc.co.jp"
    ensures Prepared(["www." + d, d]) == ["www." + d, d]
  {
    LongTLDFacts(d);
    CoJpVariantFacts("www.", d);
    WwwThenDomain(d);
  }

  lemma PreparedCase53(d: string)
    requires d == "abc.co.uk"
    ensures Prepared([d]) == [d, "www." + d]
  {
    LongTLDFacts(d);
    BareDomain(d);
  }

  lemma PreparedCase54(d: string)
    requires d == "domain.k12.or.us"
    ensures Prepared([d]) == [d]
  {
    DomainK12OrUsFacts(d);
    DeepDomain(d);
  }

  /** A domain that ends with a long TLD keeps ending with it when labels are put in front. */
  lemma LongTLDPrefixed(p: string, q: string)
    requires EndsWithLongTLD(q)
    ensures EndsWithLongTLD(p + q)
  {
    var t :| t in LongTLDs && HasSuffix(q, "." + t);
    assert (p + q)[|p + q| - |"." + t|..] == q[|q| - |"." + t|..];
  }

  lemma SubDomainK12OrUsFacts(p: string, q: string)
    requires p == "sub-domain." && q == "domain.k12.or.us"
    ensures TrimSpace(p + q) == p + q && p + q != [] && (p + q)[0] != '*' && IsDeep(p + q)
  {
    DomainK12OrUsFacts(q);
    SubDomainDots(p, q);
    LongTLDPrefixed(p, q);
    var d := p + q;
    assert d[0] == 's' && d[|d| - 1] == 's';
    TrimSpaceClean(d);
  }

  lemma SubDomainDots(p: string, q: string)
    requires p == "sub-domain." && q == "domain.k12.or.us"
    ensures Count(p + q, '.') == 4
  {
    var a := "sub-domain";
    assert p + q == a + "." + q;
    ThreeDots(q);
    NoDot(a);
    DotJoin(a, q);
  }

  lemma PreparedCase55(p: string, q: string)
    requires p == "sub-domain." && q == "domain.k12.or.us"
    ensures Prepared([p + q]) == [p + q]
  {
    SubDomainK12OrUsFacts(p, q);
    DeepDomain(p + q);
  }

  lemma PreparedCase58(d: string)
    requires d == "abc.com"
    ensures Prepared([d, "*." + d]) == [d, "*." + d]
  {
    ShortTLDFacts(d);
    ShortTLDVariantFacts("*.", d);
    DomainThenWildcard(d);
  }

  lemma PreparedCase59(d: string)
    requires d == "abc.com"
    ensures Prepared([d, "*." + d, "www." + d]) == [d, "*." + d]
  {
    ShortTLDFacts(d);
    ShortTLDVariantFacts("*.", d);
    ShortTLDVariantFacts("www.", d);
    DomainWildcardWww(d);
  }

  lemma PreparedCase60(d: string)
    requires d == "abc.co.jp"
    ensures Prepared([d, "*." + d]) == [d, "*." + d]
  {
    LongTLDFacts(d);
    CoJpVariantFacts("*.", d);
    DomainThenWildcard(d);
  }

  lemma PreparedCase61(d: string, e: string)
    requires d == "abc.io" && e == "no_dot"
    ensures Prepared([d, "*." + d, "www." + d, e]) == [d, "*." + d, e, "www." + e]
  {
    ShortTLDFacts(d);
    ShortTLDVariantFacts("*.", d);
    ShortTLDVariantFacts("www.", d);
    ShortTLDFacts(e);
    NoDotApart(d, e);
    DomainWildcardWwwOther(d, e);
  }
}
