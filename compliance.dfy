/**
 * `check_compliance` in processor.py: how much of a parent rule's vocabulary
 * turns up in a child document, reported as one of four statuses.
 */
module Compliance {
  import opened Text
  import opened Lexicon

  datatype Status = Match | Partial | Missing | Unknown

  /** The order MISSING < PARTIAL < MATCH in which a status counts as better. */
  function Rank(s: Status): nat {
    match s
    case Unknown => 0
    case Missing => 0
    case Partial => 1
    case Match => 2
  }

  /** The rule's keywords: its distinct lower-cased whitespace-separated words, minus the stop words. */
  function Keywords(ruleText: string): set<string> {
    set w | w in SplitWhitespace(Lower(ruleText)) && w !in STOP_WORDS
  }

  /** The keywords that occur, as substrings, in the lower-cased child text. */
  function Hits(keywords: set<string>, childLower: string): (r: set<string>)
    ensures r <= keywords
    ensures forall k :: k in r <==> k in keywords && Contains(childLower, k)
  {
    set k | k in keywords && Contains(childLower, k)
  }

  /** Testing one more keyword adds one hit exactly when the child contains it. */
  lemma HitsAdd(done: set<string>, kw: string, childLower: string)
    requires kw !in done
    ensures |Hits(done + {kw}, childLower)| == |Hits(done, childLower)| + (if Contains(childLower, kw) then 1 else 0)
  {
    if Contains(childLower, kw) {
      assert Hits(done + {kw}, childLower) == Hits(done, childLower) + {kw};
    } else {
      assert Hits(done + {kw}, childLower) == Hits(done, childLower);
    }
  }

  /** `hits / len(keywords)` as an exact fraction. */
  function Ratio(hits: nat, total: nat): real
    requires total > 0
  {
    hits as real / total as real
  }

  /** The status of a rule against a child document. */
  function ComplianceStatus(childContent: string, ruleText: string): (r: Status)
    ensures r == Unknown <==> Keywords(ruleText) == {}
  {
    var keywords := Keywords(ruleText);
    if keywords == {} then Unknown
    else
      var ratio := Ratio(|Hits(keywords, Lower(childContent))|, |keywords|);
      if ratio > 0.6 then Match else if ratio > 0.3 then Partial else Missing
  }

  /** Dividing by a positive number keeps a comparison once both sides are scaled back. */
  lemma DivAbove(a: real, t: real, c: real)
    requires t > 0.0
    ensures a / t > c <==> a > c * t
  {
    var r := a / t;
    assert r * t == a;
    if r > c {
      assert (r - c) * t > 0.0;
    } else {
      assert (c - r) * t >= 0.0;
    }
  }

  /** The two thresholds, stated on whole numbers. */
  lemma RatioThresholds(hits: nat, total: nat)
    requires total > 0
    ensures Ratio(hits, total) > 0.6 <==> 10 * hits > 6 * total
    ensures Ratio(hits, total) > 0.3 <==> 10 * hits > 3 * total
  {
    DivAbove(hits as real, total as real, 0.6);
    DivAbove(hits as real, total as real, 0.3);
  }

  /**
   * The bands in integer terms: with `h` keywords found out of `n`, MATCH
   * exactly when 10h > 6n, PARTIAL exactly when 3n < 10h <= 6n, and MISSING
   * otherwise; never more hits than keywords.
   */
  lemma ComplianceBands(childContent: string, ruleText: string)
    requires Keywords(ruleText) != {}
    ensures var n := |Keywords(ruleText)|;
            var h := |Hits(Keywords(ruleText), Lower(childContent))|;
            && h <= n
            && (ComplianceStatus(childContent, ruleText) == Match <==> 10 * h > 6 * n)
            && (ComplianceStatus(childContent, ruleText) == Partial <==> 3 * n < 10 * h <= 6 * n)
            && (ComplianceStatus(childContent, ruleText) == Missing <==> 10 * h <= 3 * n)
  {
    var keywords := Keywords(ruleText);
    var hits := Hits(keywords, Lower(childContent));
    SubsetCard(hits, keywords);
    RatioThresholds(|hits|, |keywords|);
  }

  lemma SubsetCard<T>(a: set<T>, b: set<T>)
    requires a <= b
    ensures |a| <= |b|
  {
    assert b == a + (b - a);
  }

  /**
   * The status only depends on which keywords the child contains: a child
   * that contains every keyword another one contains rates at least as well.
   */
  lemma ComplianceMonotone(childA: string, childB: string, ruleText: string)
    requires forall k :: k in Keywords(ruleText) && Contains(Lower(childA), k) ==> Contains(Lower(childB), k)
    ensures Rank(ComplianceStatus(childA, ruleText)) <= Rank(ComplianceStatus(childB, ruleText))
  {
    var keywords := Keywords(ruleText);
    if keywords != {} {
      var hitsA, hitsB := Hits(keywords, Lower(childA)), Hits(keywords, Lower(childB));
      SubsetCard(hitsA, hitsB);
      ComplianceBands(childA, ruleText);
      ComplianceBands(childB, ruleText);
    }
  }

  /** Adding text to the child, before or after, never lowers the status. */
  lemma ComplianceGrowsWithText(pre: string, child: string, post: string, ruleText: string)
    ensures Rank(ComplianceStatus(child, ruleText)) <= Rank(ComplianceStatus(pre + child + post, ruleText))
  {
    LowerAppend(pre, child);
    LowerAppend(pre + child, post);
    forall k | k in Keywords(ruleText) && Contains(Lower(child), k)
      ensures Contains(Lower(pre + child + post), k)
    {
      ContainsExtend(Lower(child), Lower(pre), Lower(post), k);
    }
    ComplianceMonotone(child, pre + child + post, ruleText);
  }

  /** A child that contains none of a rule's keywords is MISSING. */
  lemma NoHitIsMissing(childContent: string, ruleText: string)
    requires Keywords(ruleText) != {}
    requires forall k :: k in Keywords(ruleText) ==> !Contains(Lower(childContent), k)
    ensures ComplianceStatus(childContent, ruleText) == Missing
  {
    assert Hits(Keywords(ruleText), Lower(childContent)) == {};
    ComplianceBands(childContent, ruleText);
  }

  /** The keyword loop of `check_compliance`: one keyword at a time, counting those the child contains. */
  method CountHits(keywords: set<string>, childLower: string) returns (hits: nat)
    ensures hits == |Hits(keywords, childLower)|
  {
    hits := 0;
    var remaining := keywords;
    while remaining != {}
      invariant remaining <= keywords
      invariant hits == |Hits(keywords - remaining, childLower)|
      decreases |remaining|
    {
      var kw :| kw in remaining;
      HitsAdd(keywords - remaining, kw, childLower);
      assert keywords - (remaining - {kw}) == (keywords - remaining) + {kw};
      if Contains(childLower, kw) {
        hits := hits + 1;
      }
      remaining := remaining - {kw};
    }
    assert keywords - remaining == keywords;
  }

  /** `check_compliance`: UNKNOWN without keywords, otherwise the band of the fraction of keywords found. */
  method CheckCompliance(childContent: string, parentRuleText: string) returns (status: Status)
    ensures status == ComplianceStatus(childContent, parentRuleText)
  {
    var keywords := Keywords(parentRuleText);
    if keywords == {} {
      return Unknown;
    }
    var hits := CountHits(keywords, Lower(childContent));
    var ratio := hits as real / |keywords| as real;
    if ratio > 0.6 {
      status := Match;
    } else if ratio > 0.3 {
      status := Partial;
    } else {
      status := Missing;
    }
  }
}
