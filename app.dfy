/**
 * The decision logic of the web endpoints in app.py, lifted out of Flask:
 * `ask` (validate the question, consult the matcher, apply the confidence
 * gate) and `get_faqs` (the optional case-insensitive category filter).
 * Requests and responses are plain values; the matcher is passed in as the
 * function that `best_match` computes for the loaded corpus.
 */
module App {
  import opened Wrappers
  import opened Sequences
  import opened Strings
  import opened Matcher

  const QuestionRequired: string := "question required"
  const BadRequest: nat := 400

  /**
   * The confidence threshold: the double nearest to 0.15, which is the value
   * the source compares scores with (slightly below 0.15).
   */
  const Threshold: real := 0.1499999999999999944488848768742172978818416595458984375

  const FallbackAnswer: string :=
    "\U{274C} Sorry, I only answer questions from our FAQ list. \U{1F449} Click 'View All FAQs' to see them."

  /** The reply of `ask`: an error with its HTTP status, or the JSON answer object. */
  datatype Reply =
    | Rejected(error: string, status: nat)
    | Answered(answer: string, matchedQuestion: Option<string>, category: Option<string>, score: real)

  /** `(data.get("question") or "").strip()`; `None` stands for a missing key or a JSON null. */
  function QuestionText(raw: Option<string>): string
  {
    match raw
    case None => ""
    case Some(q) => Strip(q)
  }

  /** The question text is empty exactly when the question is missing, null or all whitespace. */
  lemma QuestionTextEmpty(raw: Option<string>)
    ensures QuestionText(raw) == "" <==>
            raw.None? || forall i :: 0 <= i < |raw.value| ==> IsWhitespace(raw.value[i])
  {
    if raw.Some? {
      StripEmpty(raw.value);
    }
  }

  /**
   * The confidence gate: below the threshold the fixed fallback answer with
   * no matched question and no category; otherwise exactly what the matcher
   * found. The score is reported unchanged either way.
   */
  function Gate(m: Match): (r: Reply)
    ensures r.Answered? && r.score == m.score
    ensures r.matchedQuestion.Some? <==> Threshold <= m.score
    ensures m.score < Threshold ==>
              r.answer == FallbackAnswer && r.matchedQuestion == None && r.category == None
    ensures Threshold <= m.score ==>
              r.answer == m.answer && r.matchedQuestion == Some(m.question) && r.category == Some(m.category)
  {
    if m.score < Threshold then Answered(FallbackAnswer, None, None, m.score)
    else Answered(m.answer, Some(m.question), Some(m.category), m.score)
  }

  /**
   * `ask`: a missing, null, empty or all-whitespace question is rejected with
   * status 400; any other question is stripped, matched and gated.
   */
  function Ask(raw: Option<string>, bestMatch: string -> Match): (r: Reply)
    ensures r.Rejected? <==> raw.None? || forall i :: 0 <= i < |raw.value| ==> IsWhitespace(raw.value[i])
    ensures r.Rejected? ==> r.error == QuestionRequired && r.status == BadRequest
    ensures r.Answered? ==> raw.Some? && r == Gate(bestMatch(Strip(raw.value)))
  {
    QuestionTextEmpty(raw);
    var question := QuestionText(raw);
    if question == "" then Rejected(QuestionRequired, BadRequest)
    else Gate(bestMatch(question))
  }

  /** A rejected question never reaches the matcher: the reply is the same whatever the matcher would say. */
  lemma RejectedWithoutMatcher(raw: Option<string>, bestMatch: string -> Match, other: string -> Match)
    ensures QuestionText(raw) == "" ==>
              Ask(raw, bestMatch) == Ask(raw, other) == Rejected(QuestionRequired, BadRequest)
  {
  }

  /**
   * When `bestMatch` answers the stripped question as `FaqMatcher.BestMatch`
   * does for a corpus, a reply carries the score of the first best-scoring
   * FAQ, and a confident reply carries that FAQ's question, answer and category.
   */
  lemma AnsweredFromCorpus(raw: Option<string>, bestMatch: string -> Match, faqs: seq<Faq>,
                           scores: string -> seq<real>)
    requires IsBestMatch(faqs, scores(QuestionText(raw)), bestMatch(QuestionText(raw)))
    ensures var r := Ask(raw, bestMatch);
            var sims := scores(QuestionText(raw));
            r.Answered? ==>
              exists k :: 0 <= k < |faqs| &&
                (forall j :: 0 <= j < |faqs| ==> sims[j] <= sims[k]) &&
                (forall j :: 0 <= j < k ==> sims[j] < sims[k]) &&
                r.score == sims[k] &&
                (r.matchedQuestion.Some? ==>
                   r.matchedQuestion == Some(faqs[k].question) && r.answer == faqs[k].answer &&
                   r.category == Some(CategoryOf(faqs[k])))
  {
    var q := QuestionText(raw);
    GateOfBestMatch(faqs, scores(q), bestMatch(q));
  }

  /**
   * Gating a best match keeps the score of the first best-scoring FAQ and,
   * when confident, that FAQ's fields.
   */
  lemma GateOfBestMatch(faqs: seq<Faq>, sims: seq<real>, m: Match)
    requires IsBestMatch(faqs, sims, m)
    ensures exists k :: 0 <= k < |faqs| &&
              (forall j :: 0 <= j < |faqs| ==> sims[j] <= sims[k]) &&
              (forall j :: 0 <= j < k ==> sims[j] < sims[k]) &&
              Gate(m).score == sims[k] &&
              (Gate(m).matchedQuestion.Some? ==>
                 Gate(m).matchedQuestion == Some(faqs[k].question) && Gate(m).answer == faqs[k].answer &&
                 Gate(m).category == Some(CategoryOf(faqs[k])))
  {
    var k :| 0 <= k < |faqs| &&
             (forall j :: 0 <= j < |faqs| ==> sims[j] <= sims[k]) &&
             (forall j :: 0 <= j < k ==> sims[j] < sims[k]) &&
             m == Match(faqs[k].question, faqs[k].answer, CategoryOf(faqs[k]), sims[k]);
  }

  /** The key `get_faqs` indexes without a default; a FAQ lacking it raises `KeyError`. */
  const MissingKey: string := "category"

  /** `category.lower() in faq["category"].lower()`, for a FAQ that has a category. */
  predicate InCategory(faq: Faq, query: string)
  {
    faq.category.Some? && Contains(Lower(faq.category.value), Lower(query))
  }

  function CategoryTest(query: string): Faq -> bool
  {
    f => InCategory(f, query)
  }

  /**
   * `get_faqs`: without a category query, or with an empty one, the whole
   * corpus; otherwise the FAQs whose category contains the query ignoring
   * case, in corpus order, or a failure when some FAQ has no category.
   */
  function ListFaqs(faqs: seq<Faq>, category: Option<string>): (r: Result<seq<Faq>, string>)
    ensures category.None? || category.value == "" ==> r == Success(faqs)
    ensures category.Some? && category.value != "" ==>
              (r.Failure? <==> exists f :: f in faqs && f.category.None?)
    ensures r.Failure? ==> r.error == MissingKey
    ensures r.Success? && category.Some? && category.value != "" ==>
              IsSubsequence(r.value, faqs) &&
              (forall f :: f in r.value ==> InCategory(f, category.value)) &&
              (forall f :: f in faqs && InCategory(f, category.value) ==> f in r.value) &&
              |r.value| == Count(faqs, CategoryTest(category.value))
  {
    match category
    case None => Success(faqs)
    case Some(query) =>
      if query == "" then Success(faqs)
      else if exists f :: f in faqs && f.category.None? then Failure(MissingKey)
      else Success(Filter(faqs, CategoryTest(query)))
  }

  /** The category filter with the matcher's default: a FAQ without a category counts as "General". */
  predicate InCategoryOrDefault(faq: Faq, query: string)
  {
    Contains(Lower(CategoryOf(faq)), Lower(query))
  }

  function DefaultedCategoryTest(query: string): Faq -> bool
  {
    f => InCategoryOrDefault(f, query)
  }

  /**
   * `get_faqs` reading categories as the matcher does: it never fails, and
   * filters by the category the matcher would report.
   */
  function ListFaqsDefaulted(faqs: seq<Faq>, category: Option<string>): (r: seq<Faq>)
    ensures category.None? || category.value == "" ==> r == faqs
    ensures category.Some? && category.value != "" ==>
              IsSubsequence(r, faqs) &&
              (forall f :: f in r ==> InCategoryOrDefault(f, category.value)) &&
              (forall f :: f in faqs && InCategoryOrDefault(f, category.value) ==> f in r) &&
              |r| == Count(faqs, DefaultedCategoryTest(category.value))
  {
    match category
    case None => faqs
    case Some(query) =>
      if query == "" then faqs else Filter(faqs, DefaultedCategoryTest(query))
  }

  /** When every FAQ has a category, the corrected listing is exactly the source's. */
  lemma ListFaqsDefaultedAgrees(faqs: seq<Faq>, category: Option<string>)
    requires forall i :: 0 <= i < |faqs| ==> faqs[i].category.Some?
    ensures ListFaqs(faqs, category) == Success(ListFaqsDefaulted(faqs, category))
  {
    if category.Some? && category.value != "" {
      FilterAgrees(faqs, CategoryTest(category.value), DefaultedCategoryTest(category.value));
    }
  }

  /**
   * A corpus whose one FAQ has no category: the matcher files it under
   * "General", but listing the category "gen" fails in the source, while the
   * corrected listing returns that FAQ.
   */
  lemma ListFaqsFailsWithoutCategory()
    ensures var faq := Faq("q", "a", None);
            CategoryOf(faq) == "General" &&
            ListFaqs([faq], Some("gen")) == Failure(MissingKey) &&
            ListFaqsDefaulted([faq], Some("gen")) == [faq]
  {
    var faq := Faq("q", "a", None);
    assert faq in [faq];
    GeneralContainsGen();
    assert InCategoryOrDefault(faq, "gen");
    assert [faq][1..] == [];
    assert Filter([faq], DefaultedCategoryTest("gen")) == [faq];
  }

  lemma GeneralContainsGen()
    ensures Contains(Lower(DefaultCategory), Lower("gen"))
  {
    assert DefaultCategory == "G" + "eneral";
    LowerConcat("G", "eneral");
    assert Lower("G") == "g";
    LowerOfLowered("eneral");
    LowerOfLowered("gen");
    assert Lower(DefaultCategory) == "general";
    assert StartsWith("general", "gen");
  }
}
