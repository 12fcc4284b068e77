/**
 * The keyword fallback that re-categorises an extracted row whose model
 * confidence is below 0.6: five keyword lists tried in a fixed priority order
 * against the lower-cased description and canonical merchant; no hit gives "Other".
 */
module Fallback {
  import opened Basics
  import opened Text
  import opened Models

  const ConfidenceThreshold: real := 0.6

  const IncomeKeywords: seq<string> := ["salary", "gaji", "transfer masuk", "refund", "cashback", "interest"]
  const FoodKeywords: seq<string> := ["restaurant", "cafe", "starbucks", "mcdonald", "kfc", "pizza", "food", "gofood", "grabfood", "supermarket"]
  const TransportKeywords: seq<string> := ["fuel", "bensin", "pertamina", "shell", "gojek", "grab", "taxi", "parking", "toll", "tol"]
  const BillsKeywords: seq<string> := ["pln", "listrik", "telkom", "indihome", "insurance", "asuransi", "water", "air", "phone", "telp"]
  const ShoppingKeywords: seq<string> := ["shop", "mall", "store", "tokopedia", "shopee", "lazada", "netflix", "spotify", "subscription"]

  /** A keyword list and the category it assigns. */
  datatype Rule = Rule(keywords: seq<string>, category: Category)

  /** The rules in the order they are tried. */
  const Rules: seq<Rule> := [
    Rule(IncomeKeywords, Income),
    Rule(FoodKeywords, FoodDining),
    Rule(TransportKeywords, TransportMobility),
    Rule(BillsKeywords, BillsUtilities),
    Rule(ShoppingKeywords, ShoppingEntertainment)
  ]

  /** Some keyword of the list occurs in the description or in the merchant. */
  function AnyKeyword(keywords: seq<string>, description: string, merchant: string): (r: bool)
    ensures r <==> exists i :: 0 <= i < |keywords| && (Contains(description, keywords[i]) || Contains(merchant, keywords[i]))
  {
    if keywords == [] then false
    else
      var rest := AnyKeyword(keywords[1..], description, merchant);
      assert forall i :: 1 <= i < |keywords| ==> keywords[i] == keywords[1..][i - 1];
      Contains(description, keywords[0]) || Contains(merchant, keywords[0]) || rest
  }

  predicate Hits(rule: Rule, description: string, merchant: string)
  {
    AnyKeyword(rule.keywords, description, merchant)
  }

  /** The index of the first rule with a hit, or `|rules|` when none hits. */
  function FirstHit(rules: seq<Rule>, description: string, merchant: string): (k: nat)
    ensures k <= |rules|
    ensures forall j :: 0 <= j < k ==> !Hits(rules[j], description, merchant)
    ensures k < |rules| ==> Hits(rules[k], description, merchant)
  {
    if rules == [] then 0
    else if Hits(rules[0], description, merchant) then 0
    else
      var k := 1 + FirstHit(rules[1..], description, merchant);
      assert forall j :: 1 <= j < k ==> rules[j] == rules[1..][j - 1];
      k
  }

  /** The category string a row ends up with. */
  function ApplyFallbackRules(t: ExtractedTxn): (r: string)
    ensures t.confidence >= ConfidenceThreshold ==> r == t.category
    ensures t.confidence < ConfidenceThreshold ==> ParseCategory(r).Some?
  {
    if t.confidence >= ConfidenceThreshold then t.category
    else
      var description, merchant := Lower(t.description), Lower(t.merchantCanonical);
      var k := FirstHit(Rules, description, merchant);
      ParseCategoryExact(CategoryValue(Other));
      if k < |Rules| then
        ParseCategoryExact(CategoryValue(Rules[k].category));
        CategoryValue(Rules[k].category)
      else
        CategoryValue(Other)
  }

  /** The category string of the first rule with a hit, "Other" when none hits. */
  function FirstHitCategory(rules: seq<Rule>, description: string, merchant: string): string
  {
    var k := FirstHit(rules, description, merchant);
    if k < |rules| then CategoryValue(rules[k].category) else CategoryValue(Other)
  }

  /**
   * For rules with pairwise distinct categories other than "Other", the first-hit
   * category is that of rule `k` exactly when rule `k` is the first to hit, and
   * "Other" exactly when none hits.
   */
  lemma FirstHitPriority(rules: seq<Rule>, description: string, merchant: string)
    requires forall i :: 0 <= i < |rules| ==> rules[i].category != Other
    requires forall i, j :: 0 <= i < j < |rules| ==> rules[i].category != rules[j].category
    ensures var r := FirstHitCategory(rules, description, merchant);
      && (forall k :: 0 <= k < |rules| ==>
            (r == CategoryValue(rules[k].category)
             <==> Hits(rules[k], description, merchant) && forall j :: 0 <= j < k ==> !Hits(rules[j], description, merchant)))
      && (r == "Other" <==> forall k :: 0 <= k < |rules| ==> !Hits(rules[k], description, merchant))
  {
    var first := FirstHit(rules, description, merchant);
    var r := FirstHitCategory(rules, description, merchant);
    forall k | 0 <= k < |rules|
      ensures r == CategoryValue(rules[k].category)
              <==> Hits(rules[k], description, merchant) && forall j :: 0 <= j < k ==> !Hits(rules[j], description, merchant)
    {
      if r == CategoryValue(rules[k].category) {
        if first < |rules| {
          CategoryValueInjective(rules[first].category, rules[k].category);
        } else {
          CategoryValueInjective(Other, rules[k].category);
        }
      }
    }
    if r == "Other" && first < |rules| {
      CategoryValueInjective(rules[first].category, Other);
    }
  }

  /** The five rules assign five different categories, none of them "Other". */
  lemma RulesCategoriesDistinct()
    ensures forall i :: 0 <= i < |Rules| ==> Rules[i].category != Other
    ensures forall i, j :: 0 <= i < j < |Rules| ==> Rules[i].category != Rules[j].category
  {
    var cats := [Income, FoodDining, TransportMobility, BillsUtilities, ShoppingEntertainment];
    assert forall i :: 0 <= i < |Rules| ==> Rules[i].category == cats[i];
  }

  /**
   * Below the threshold, the result is the category of rule `k` exactly when rule `k`
   * hits and no earlier rule does, and it is "Other" exactly when no rule hits.
   */
  lemma FallbackPriority(t: ExtractedTxn)
    requires t.confidence < ConfidenceThreshold
    ensures var description, merchant := Lower(t.description), Lower(t.merchantCanonical);
      && (forall k :: 0 <= k < |Rules| ==>
            (ApplyFallbackRules(t) == CategoryValue(Rules[k].category)
             <==> Hits(Rules[k], description, merchant) && forall j :: 0 <= j < k ==> !Hits(Rules[j], description, merchant)))
      && (ApplyFallbackRules(t) == "Other" <==> forall k :: 0 <= k < |Rules| ==> !Hits(Rules[k], description, merchant))
  {
    var description, merchant := Lower(t.description), Lower(t.merchantCanonical);
    assert ApplyFallbackRules(t) == FirstHitCategory(Rules, description, merchant);
    RulesCategoriesDistinct();
    FirstHitPriority(Rules, description, merchant);
  }

  /** Only the lower-cased text matters: rows whose fields agree up to ASCII case get the same category. */
  lemma FallbackIgnoresCase(t: ExtractedTxn, u: ExtractedTxn)
    requires t.confidence == u.confidence && t.category == u.category
    requires Lower(t.description) == Lower(u.description) && Lower(t.merchantCanonical) == Lower(u.merchantCanonical)
    ensures ApplyFallbackRules(t) == ApplyFallbackRules(u)
  {
  }

  /** A food-delivery row is Food & Dining although "grab" is also a transport keyword: food is tried first. */
  lemma GrabFoodIsFood()
    ensures ApplyFallbackRules(ExtractedTxn("2024-03-02", "GrabFood Order", -45000, "GrabFood", "Other", 0.3)) == "Food & Dining"
  {
    var t := ExtractedTxn("2024-03-02", "GrabFood Order", -45000, "GrabFood", "Other", 0.3);
    var description, merchant := "grabfood order", "grabfood";
    LowerGrabFood();
    GrabFoodMissesIncome();
    GrabFoodHitsFood();
    assert FirstHit(Rules, description, merchant) == 1;
  }

  lemma LowerGrabFood()
    ensures Lower("GrabFood Order") == "grabfood order" && Lower("GrabFood") == "grabfood"
  {
  }

  lemma GrabFoodHitsFood()
    ensures Hits(Rules[1], "grabfood order", "grabfood")
  {
    assert OccursAt("grabfood", "food", 4);
    assert FoodKeywords[6] == "food";
  }

  lemma GrabFoodMissesIncome()
    ensures !Hits(Rules[0], "grabfood order", "grabfood")
  {
    NoIncomeKeyword("grabfood order");
    NoIncomeKeyword("grabfood");
  }

  lemma NoIncomeKeyword(s: string)
    requires s == "grabfood order" || s == "grabfood"
    ensures forall i :: 0 <= i < |IncomeKeywords| ==> !Contains(s, IncomeKeywords[i])
  {
    forall i | 0 <= i < |IncomeKeywords|
      ensures !Contains(s, IncomeKeywords[i])
    {
      var k := IncomeKeywords[i];
      forall j: nat
        ensures !OccursAt(s, k, j)
      {
        if j + |k| <= |s| {
          assert s[j..j + |k|][0] == s[j] && s[j..j + |k|][1] == s[j + 1];
          assert s[j] != k[0] || s[j + 1] != k[1];
        }
      }
    }
  }
}
