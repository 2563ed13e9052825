/**
  `ComplaintModel.predictSentiment`: a keyword count over the words of the
  lower-cased text.
 */
module Sentiment {
  import opened Common
  import opened Strings


  const POSITIVE_WORDS: seq<string> := ["good", "great", "excellent", "wonderful", "amazing", "perfect"]
  const NEGATIVE_WORDS: seq<string> := ["bad", "terrible", "awful", "horrible", "disgusting", "broken", "damaged"]

  /** Sentiment of a list of words by the keyword counts. */
  function SentimentOfWords(words: seq<string>): (r: string)
    ensures r == "High" || r == "Medium" || r == "Low"
  {
    var pos := |Filter(words, (w: string) => w in POSITIVE_WORDS)|;
    var neg := |Filter(words, (w: string) => w in NEGATIVE_WORDS)|;
    if neg > pos then "High" else if pos > neg then "Low" else "Medium"
  }

  /** `predictSentiment`: lower-case, split on single spaces, count exact
      keyword matches. */
  function PredictSentiment(text: string): (r: string)
    ensures r == "High" || r == "Medium" || r == "Low"
  {
    SentimentOfWords(Split(Lower(text), ' '))
  }

  /** The rule does not depend on letter case. */
  lemma PredictSentimentIgnoresCase(text: string)
    ensures PredictSentiment(Lower(text)) == PredictSentiment(text)
  {
    LowerIdempotent(text);
  }

  /** For lower-case words without spaces, joined by single spaces, the
      result is decided by comparing keyword counts over those very words. */
  lemma PredictSentimentOfWords(words: seq<string>)
    requires |words| >= 1
    requires forall i :: 0 <= i < |words| ==> ' ' !in words[i] && Lower(words[i]) == words[i]
    ensures var pos := |Filter(words, (w: string) => w in POSITIVE_WORDS)|;
            var neg := |Filter(words, (w: string) => w in NEGATIVE_WORDS)|;
            && (PredictSentiment(Join(words, ' ')) == "High" <==> neg > pos)
            && (PredictSentiment(Join(words, ' ')) == "Low" <==> pos > neg)
            && (PredictSentiment(Join(words, ' ')) == "Medium" <==> pos == neg)
  {
    LowerOfJoin(words);
    SplitJoin(words, ' ');
  }

  lemma {:induction false} LowerOfJoin(words: seq<string>)
    requires forall i :: 0 <= i < |words| ==> Lower(words[i]) == words[i]
    ensures Lower(Join(words, ' ')) == Join(words, ' ')
  {
    if |words| > 1 {
      LowerOfJoin(words[1..]);
      LowerOfConcat(words[0] + [' '], Join(words[1..], ' '));
      LowerOfConcat(words[0], [' ']);
    }
  }
}
