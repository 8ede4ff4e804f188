# FAQ chatbot matching core, in Dafny

This project models the matching core of a small FAQ chatbot. It has three parts:

- **Text normalisation** (`normalize`). The text is lowercased. Every character other than `a`-`z`, `0`-`9` and whitespace becomes a space. The text is split into tokens, and stopwords and tokens of at most two characters are dropped. The remaining tokens are lemmatised and joined with single spaces.
- **The FAQ matcher** (`load_faqs`, `FAQMatcher`). The corpus must not be empty. The matcher builds parallel lists of questions, answers, categories (default `"General"`) and normalised questions. `best_match` returns the fields of the first FAQ with the highest similarity score, together with that score.
- **The decision logic of the web endpoints** (`ask`, `get_faqs`). A question is stripped, and an empty one is rejected with status 400. A match scoring below 0.15 gets a fixed fallback answer. The FAQ listing can be filtered by a category substring, ignoring case.

Files:

- `wrappers.dfy`: `Option` and `Result`.
- `sequences.dfy`: order-preserving filtering, which is what a Python list comprehension with a condition does.
- `strings.dfy`: the Python string operations used: `isspace`, `lower`, `split()`, `" ".join`, `strip()` and `in`.
- `normalize.dfy`: `normalize`.
- `matcher.dfy`: the `load_faqs` check, `np.argmax`, and the `FAQMatcher` class.
- `app.dfy`: the request logic of `ask` and `get_faqs`.

Modelling choices:

- **Stopwords and lemmatiser.** The stopword set is a `set<string>` parameter. The lemmatiser is an arbitrary `string -> string` parameter.
- **Tokeniser.** The tokeniser is modelled as a whitespace split. This is an assumption. After the substitution step the text holds only ASCII letters, digits and whitespace. On such text, NLTK's tokeniser differs from a whitespace split only on a few fused words. For example, it splits `cannot`, `gonna`, `gotta`, `wanna`, `gimme` and `lemme` into two tokens.
- **Whitespace.** Whitespace is the set of characters for which Python's `str.isspace()` holds. This is also the set that `\s` matches.
- **Lowercasing.** `lower` maps ASCII capitals to small letters. It also maps U+0130 to `"i̇"` and U+212A to `"k"`. These are the only characters outside ASCII whose Python lowercase contains an ASCII character. Every other character is left unchanged. For `normalize` this is exact, because every non-ASCII, non-whitespace character becomes a space in the next step anyway.
- **Similarity.** Fitting the TF-IDF vectorizer is a parameter `fit` of the constructor. It is applied once to the normalised questions. The result is the matcher's `similarity` function, which maps a normalised query to one `real` score per FAQ, in corpus order. Cosine similarity is part of that function.
- **Threshold.** The confidence threshold is the exact value of the double nearest to 0.15, which is slightly below 0.15. With it, `score < 0.15` decides exactly as in Python for every double score. Literal 0.15 would decide differently for a score equal to that double.
- **Matcher state.** The matcher is a class whose fields are `const`: the constructor assigns them once, and they are only read afterwards. The constructor establishes the parallel-list invariant `Valid()`.
- **Request logic.** `ask` and `get_faqs` are functions over plain values. `ask` receives the matcher as the function that `best_match` computes.

Behaviour of the code worth noting:

- **Idempotence of `normalize`.** The code does not guarantee it. `NormalizeIdempotent` proves it only for a lemmatiser that is stable on the filter. `NormalizeNotIdempotent` shows that a lemmatiser mapping `oxen` to `ox` breaks it. WordNet does map `oxen` to `ox`.
- **Empty corpus.** The code has no check of its own when the matcher is built. Instead, fitting the vectorizer raises. See "Left out".
- **Missing category.** The category is optional, with `"General"` as default, but the FAQ listing fails on a FAQ without one. See "Findings".

## Model

| member | source | states |
|---|---|---|
| Sequences.Filter | model.py:47 | keeps exactly the elements that pass the test: all results pass, every passing element is kept, the result is an order-preserving subsequence, and its length is the number of passing elements |
| Sequences.FilterUnique | app.py:53 | these properties determine the filtered list completely |
| Strings.Lower | model.py:44 | the lowercased text holds no ASCII capital, no U+212A and no U+0130, and is at least as long as the input and at most twice as long |
| Strings.LowerPerChar | model.py:44 | for text without U+0130, the length is unchanged; an ASCII capital becomes its small letter, U+212A becomes `k`, and every other character stays as it is |
| Strings.LowerIdempotent | model.py:44 | lowercasing twice is lowercasing once |
| Strings.Split | model.py:46 | every token is non-empty, holds no whitespace, and is made of characters of the text |
| Strings.SplitAtWhitespace | model.py:46 | a whitespace character separates tokens: the text before it and the text after it split independently, so runs of whitespace separate tokens like a single space |
| Strings.SplitKeepsNonWhitespace | model.py:46 | the tokens, concatenated, are exactly the non-whitespace characters of the text, in order |
| Strings.SplitJoin | model.py:49 | splitting text joined with single spaces gives back the tokens |
| Strings.JoinShape | model.py:49 | joining tokens gives "" exactly when there are no tokens, and otherwise a text that neither starts nor ends with whitespace |
| Strings.Strip | app.py:21 | the result is a slice of the input with only whitespace cut off both sides, and it neither starts nor ends with whitespace |
| Strings.StripEmpty | app.py:21-22 | the stripped text is empty exactly when the input is all whitespace |
| Strings.StripIdempotent | app.py:21 | stripping twice is stripping once |
| Strings.ContainsIsSlice | app.py:53 | the substring test holds exactly when the needle is a slice of the text at some position |
| Normalization.ReplaceOthers | model.py:45 | each character not matched by `[^a-z0-9\s]` is kept, each other one becomes a single space, and the length is unchanged |
| Normalization.Scrub | model.py:44-45 | after lowercasing and substitution, every character is a lowercase ASCII letter, a digit or whitespace |
| Normalization.ScrubFixedPoint | model.py:44-45 | these two steps leave a text unchanged exactly when it already consists of such characters |
| Normalization.KeepContent | model.py:47 | every kept token is outside the stopword set and longer than two characters, every such input token is kept, and the kept tokens keep their original order |
| Normalization.LemmatizeAll | model.py:48 | one output token per input token, and output `i` is the lemma of input `i` |
| Normalization.ContentTokens | model.py:44-47 | every token that survives the filter is a clean lowercase word that is not a stopword and is longer than two characters |
| Normalization.Normalize | model.py:42-49 | when no token survives the filter, for example on empty input, the result is "" |
| Normalization.NormalizeTokens | model.py:42-49 | for a lemmatiser that yields words, the result splits back into the lemmatised tokens; it is "" exactly when no token survives, and otherwise neither starts nor ends with whitespace |
| Normalization.NormalizeIdempotent | model.py:42-49 | normalising twice equals normalising once, when the lemmatiser is stable on the filter |
| Normalization.NormalizeNotIdempotent | model.py:47-48 | a lemmatiser mapping "oxen" to "ox" makes normalise("oxen") = "ox" but normalise("ox") = "", so idempotence needs that proviso |
| Matcher.CheckFaqs | model.py:38-40 | an empty FAQ list is rejected with the fixed message, and a non-empty one is returned unchanged |
| Matcher.ArgMax | model.py:68 | the index is in range and has a largest score, and every earlier score is strictly smaller, so the first maximum wins |
| Matcher.ArgMaxUnique | model.py:68 | any index with those two properties is the one selected |
| Matcher.FaqMatcher.constructor | model.py:51-61 | the four lists have the corpus length; entry i holds FAQ i's question, answer, category ("General" when absent) and normalised question; the scorer is fitted on the normalised questions |
| Matcher.FaqMatcher.BestMatch | model.py:63-70 | the result is the question, answer and category of one FAQ index, with that index's score for the normalised question; the score is the largest, and every earlier FAQ scores strictly less |
| App.QuestionTextEmpty | app.py:21-22 | the question text is empty exactly when the question is missing, null or all whitespace |
| App.Gate | app.py:28-42 | below the threshold: the fixed fallback answer with no matched question and no category; otherwise the matcher's answer, question and category; the score is always passed through unchanged |
| App.Ask | app.py:21-42 | rejected with "question required" and status 400 exactly when the question is missing, null or all whitespace; otherwise the gated match of the stripped question |
| App.GateOfBestMatch | app.py:26-42 | gating a best match keeps the score of the first FAQ with the highest score; a confident reply carries that same FAQ's question, answer and category |
| App.AnsweredFromCorpus | app.py:21-42 | when the matcher answers the stripped question as `BestMatch` does for a corpus, every reply carries the score of the first FAQ with the highest score, and a confident reply carries that same FAQ's question, answer and category |
| App.RejectedWithoutMatcher | app.py:22-23 | a rejected request does not depend on the matcher |
| App.ListFaqs | app.py:51-55 | an absent or empty query returns every FAQ unchanged; otherwise it fails exactly when some FAQ lacks a category, and else returns, in order, exactly the FAQs whose lowercased category contains the lowercased query |
| App.ListFaqsDefaulted | app.py:52-55 | the listing with the matcher's "General" default: it never fails and filters by the category the matcher reports |
| App.ListFaqsDefaultedAgrees | app.py:53 | when every FAQ has a category, the corrected listing equals the source's |
| App.ListFaqsFailsWithoutCategory | app.py:53 | a FAQ without a category is "General" to the matcher, yet listing category "gen" fails in the source; the corrected listing returns it |

## Left out

- NLTK resource downloading and the loading of the stopword list and the lemmatiser (model.py:13-32) are network and disk I/O. The stopword set and the lemmatiser are parameters instead.
- The WordNet lemmatiser's behaviour is a foreign library's. The model treats it as an arbitrary function, so properties that depend on it are stated under explicit assumptions (`KeepsWords`, `StableOn`).
- The tokeniser is a whitespace split. NLTK's tokeniser also splits a few fused words (`cannot`, `gonna`, `gotta`, `wanna`, `gimme`, `lemme`, ...). The model does not reproduce this.
- TF-IDF fitting and transformation and cosine similarity (model.py:60-61, 66-67) are scikit-learn floating-point code. They are the constructor's `fit` parameter and the resulting `similarity` function. So the score range [0, 1], self-similarity of corpus questions, and a zero score for empty or out-of-vocabulary queries are not modelled.
- Fitting the vectorizer raises `ValueError` on an empty corpus, or when no normalised question has a vocabulary term. The model's constructor always succeeds. `BestMatch` requires a non-empty corpus, which is the only kind of corpus that gets past construction in the source.
- Scores are exact `real`s. NaN and rounding are not modelled.
- Reading and parsing `faqs.json` in `load_faqs` (model.py:36-37) is file I/O. Only the emptiness check is modelled. A FAQ record is modelled as a question, an answer and an optional category. Missing `question` or `answer` keys (a `KeyError` in the constructor), non-string values and a JSON `null` category are not modelled.
- `App.ListFaqs` lowercases only ASCII letters, plus U+0130 and U+212A. Python's `str.lower()` also lowercases other non-ASCII letters, so the model's case-insensitive category match differs from the source on non-ASCII capitals.
- Request parsing is not modelled: invalid JSON, a body that is not an object, and a `question` value that is not a string. A missing or null question is modelled as `None`.
- Flask setup, CORS, routing, JSON serialisation, `/health`, `/chat` and `app.run` (app.py:1-16, 73-80) are transport plumbing.
- `/feedback` (app.py:57-71) appends to a log file. It is file I/O with no logic to verify.
- Concurrency: the source has none beyond the web server's. The matcher is only read after construction.

## Findings

| source | as written | input that shows it | evidently intended | confidence | as-written member | corrected member |
|---|---|---|---|---|---|---|
| app.py:53 | `get_faqs` indexes `faq["category"]` directly, so one FAQ without a category makes every filtered listing raise `KeyError` | corpus `[{"question": "q", "answer": "a"}]` and query `category=gen` | a FAQ without a category is listed under `"General"`, as the matcher files it (model.py:56) | medium; not executed | App.ListFaqsFailsWithoutCategory | App.ListFaqsDefaulted |
