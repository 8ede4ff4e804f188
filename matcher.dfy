/**
 * The FAQ corpus check (`load_faqs`) and the matcher (`FAQMatcher`) of
 * model.py. TF-IDF fitting and cosine similarity are scikit-learn's; the
 * model receives their outcome as a function `similarity` from a normalised
 * query to one score per FAQ, in corpus order.
 */
module Matcher {
  import opened Wrappers
  import opened Normalization

  /** One record of the FAQ file; `category` is `None` when the key is absent. */
  datatype Faq = Faq(question: string, answer: string, category: Option<string>)

  /** What `best_match` returns: the record's question, answer and category, and the score. */
  datatype Match = Match(question: string, answer: string, category: string, score: real)

  const DefaultCategory: string := "General"
  const EmptyCorpusError: string := "FAQ list is empty. Please check faqs.json"

  /** The emptiness check of `load_faqs`, applied to the parsed file. */
  function CheckFaqs(faqs: seq<Faq>): (r: Result<seq<Faq>, string>)
    ensures r.Failure? <==> faqs == []
    ensures r.Failure? ==> r.error == EmptyCorpusError
    ensures r.Success? ==> r.value == faqs
  {
    if faqs == [] then Failure(EmptyCorpusError) else Success(faqs)
  }

  /** `faq.get("category", "General")`. */
  function CategoryOf(faq: Faq): string
  {
    match faq.category
    case Some(c) => c
    case None => DefaultCategory
  }

  /**
   * `np.argmax(sims)`: an index of a largest score, the first one when
   * several scores tie for largest.
   */
  function ArgMax(sims: seq<real>): (k: nat)
    requires |sims| > 0
    ensures k < |sims|
    ensures forall j :: 0 <= j < |sims| ==> sims[j] <= sims[k]
    ensures forall j :: 0 <= j < k ==> sims[j] < sims[k]
  {
    if |sims| == 1 then 0
    else
      var k := ArgMax(sims[..|sims| - 1]);
      if sims[k] < sims[|sims| - 1] then |sims| - 1 else k
  }

  /** The two properties in `ArgMax`'s contract single out its result. */
  lemma ArgMaxUnique(sims: seq<real>, k: nat)
    requires k < |sims|
    requires forall j :: 0 <= j < |sims| ==> sims[j] <= sims[k]
    requires forall j :: 0 <= j < k ==> sims[j] < sims[k]
    ensures k == ArgMax(sims)
  {
  }

  /**
   * `m` is what `best_match` reports for the scores `sims`: the fields of a
   * FAQ with a largest score, the first such FAQ, together with that score.
   */
  ghost predicate IsBestMatch(faqs: seq<Faq>, sims: seq<real>, m: Match)
  {
    |sims| == |faqs| &&
    exists k :: 0 <= k < |faqs| &&
      (forall j :: 0 <= j < |faqs| ==> sims[j] <= sims[k]) &&
      (forall j :: 0 <= j < k ==> sims[j] < sims[k]) &&
      m == Match(faqs[k].question, faqs[k].answer, CategoryOf(faqs[k]), sims[k])
  }

  /**
   * `FAQMatcher`: parallel lists of the corpus' questions, answers,
   * categories and normalised questions, built once and only read afterwards.
   * The stopword set and the lemmatiser that `normalize` uses are fixed at
   * construction, and so is `similarity`, the fitted vectorizer and matrix:
   * it scores a normalised query against every normalised question.
   */
  class FaqMatcher {
    const stopwords: set<string>
    const lemmatize: string -> string
    const faqs: seq<Faq>
    const questions: seq<string>
    const answers: seq<string>
    const categories: seq<string>
    const normQuestions: seq<string>
    const similarity: string -> seq<real>

    /** Entry `i` of every list describes FAQ `i`, and every query gets one score per FAQ. */
    ghost predicate Valid()
    {
      |questions| == |faqs| && |answers| == |faqs| &&
      |categories| == |faqs| && |normQuestions| == |faqs| &&
      (forall i :: 0 <= i < |faqs| ==>
        questions[i] == faqs[i].question && answers[i] == faqs[i].answer &&
        categories[i] == CategoryOf(faqs[i]) &&
        normQuestions[i] == Normalize(faqs[i].question, stopwords, lemmatize)) &&
      forall q :: |similarity(q)| == |faqs|
    }

    /**
     * `fit` stands for fitting the TF-IDF vectorizer on the normalised
     * questions; it yields one score per document for any query.
     */
    constructor (faqs: seq<Faq>, stopwords: set<string>, lemmatize: string -> string,
                 fit: seq<string> -> string -> seq<real>)
      requires forall docs, q :: |fit(docs)(q)| == |docs|
      ensures Valid()
      ensures this.faqs == faqs && this.stopwords == stopwords && this.lemmatize == lemmatize
      ensures this.similarity == fit(this.normQuestions)
    {
      var qs, ans, cats, norms := [], [], [], [];
      var i := 0;
      while i < |faqs|
        invariant 0 <= i <= |faqs|
        invariant |qs| == i && |ans| == i && |cats| == i && |norms| == i
        invariant forall j :: 0 <= j < i ==>
          qs[j] == faqs[j].question && ans[j] == faqs[j].answer &&
          cats[j] == CategoryOf(faqs[j]) &&
          norms[j] == Normalize(faqs[j].question, stopwords, lemmatize)
      {
        qs := qs + [faqs[i].question];
        ans := ans + [faqs[i].answer];
        cats := cats + [CategoryOf(faqs[i])];
        norms := norms + [Normalize(faqs[i].question, stopwords, lemmatize)];
        i := i + 1;
      }
      this.stopwords := stopwords;
      this.lemmatize := lemmatize;
      this.faqs := faqs;
      this.questions := qs;
      this.answers := ans;
      this.categories := cats;
      this.normQuestions := norms;
      this.similarity := fit(norms);
    }

    /**
     * `best_match`: normalise the question, score it against every FAQ and
     * return the fields of the first best-scoring FAQ with its score.
     */
    method BestMatch(userQuestion: string) returns (m: Match)
      requires Valid() && |faqs| > 0
      ensures IsBestMatch(faqs, similarity(Normalize(userQuestion, stopwords, lemmatize)), m)
    {
      var nq := Normalize(userQuestion, stopwords, lemmatize);
      var sims := similarity(nq);
      var idx := ArgMax(sims);
      m := Match(questions[idx], answers[idx], categories[idx], sims[idx]);
    }
  }
}
