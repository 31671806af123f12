/** The closed set of eight interview topics, in the order the completion scan visits them. */
module Categories {

  const AllCategories: seq<string> := [
    "agent_relationship",
    "local_knowledge",
    "process_familiarity",
    "communication_availability",
    "budget_fees",
    "loan_eligibility",
    "property_type",
    "lifestyle_cultural_fit"
  ]

  predicate Distinct(xs: seq<string>) {
    forall i, j :: 0 <= i < j < |xs| ==> xs[i] != xs[j]
  }

  /** No topic is listed twice. */
  lemma AllCategoriesDistinct()
    ensures |AllCategories| == 8 && Distinct(AllCategories)
  {
  }
}
