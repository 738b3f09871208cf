/**
 * The keyword filter of `forward_messages_to_channel`: decides, for the text
 * of one message, whether it is forwarded and which keyword matched.
 */
module KeywordFilter {
  import opened Wrappers
  import opened Text

  /** The filter's verdict on one message text. */
  datatype Decision =
    | ForwardAll               // no keyword filtering: every text is forwarded
    | Matched(keyword: string) // forwarded; the stripped keyword that matched
    | NoMatch                  // not forwarded

  /** The keyword list selects "forward everything": it is empty or it is
      exactly the one-element list holding the empty string. */
  predicate ForwardsAll(keywords: seq<string>)
  {
    keywords == [] || keywords == [""]
  }

  /** One keyword hits a text when its stripped form is not empty and, lower
      cased, occurs in the lower-cased text. */
  predicate Hits(text: string, keyword: string)
  {
    Strip(keyword) != [] && Contains(Lower(text), Lower(Strip(keyword)))
  }

  /** `keywords[i]` is the first keyword in list order that hits `text`. */
  predicate FirstHit(text: string, keywords: seq<string>, i: int)
  {
    && 0 <= i < |keywords|
    && Hits(text, keywords[i])
    && forall j :: 0 <= j < i ==> !Hits(text, keywords[j])
  }

  /** The position of the first keyword at or after `from` that hits `text`,
      or `|keywords|` when none does. */
  function FirstHitFrom(text: string, keywords: seq<string>, from: nat): (i: nat)
    requires from <= |keywords|
    ensures from <= i <= |keywords|
    ensures forall j :: from <= j < i ==> !Hits(text, keywords[j])
    ensures i < |keywords| ==> Hits(text, keywords[i])
    decreases |keywords| - from
  {
    if from == |keywords| || Hits(text, keywords[from]) then from
    else FirstHitFrom(text, keywords, from + 1)
  }

  /** The stripped form of the first keyword that hits, if any. */
  function FirstMatch(text: string, keywords: seq<string>): Option<string>
  {
    var i := FirstHitFrom(text, keywords, 0);
    if i < |keywords| then Some(Strip(keywords[i])) else None
  }

  /** `FirstMatch` finds nothing exactly when no keyword hits, and otherwise
      reports the stripped form of the first keyword in list order that hits. */
  lemma FirstMatchIsFirstHit(text: string, keywords: seq<string>)
    ensures FirstMatch(text, keywords).None? <==> forall j :: 0 <= j < |keywords| ==> !Hits(text, keywords[j])
    ensures FirstMatch(text, keywords).Some? ==>
      exists i :: FirstHit(text, keywords, i) && FirstMatch(text, keywords).value == Strip(keywords[i])
  {
    var i := FirstHitFrom(text, keywords, 0);
    if i < |keywords| {
      assert FirstHit(text, keywords, i);
    }
  }

  /** The keyword search loop: walks the list in order, skips blank keywords
      and stops at the first hit. */
  method MatchKeyword(text: string, keywords: seq<string>) returns (matched: Option<string>)
    ensures matched == FirstMatch(text, keywords)
  {
    var lowered := Lower(text);
    var i := 0;
    while i < |keywords|
      invariant 0 <= i <= |keywords|
      invariant FirstHitFrom(text, keywords, i) == FirstHitFrom(text, keywords, 0)
    {
      var keyword := Strip(keywords[i]);
      if keyword != [] && Contains(lowered, Lower(keyword)) {
        return Some(keyword);  // the `break` out of the search
      }
      i := i + 1;
    }
    return None;
  }

  /** The filter's verdict on one message text. */
  function Classify(text: string, keywords: seq<string>): Decision
  {
    if !ForwardsAll(keywords) then
      match FirstMatch(text, keywords)
      case Some(k) => Matched(k)
      case None => NoMatch
    else ForwardAll
  }

  /** The three verdicts: everything is forwarded exactly for the
      forward-everything lists; otherwise a text is dropped exactly when no
      keyword hits it, and a match reports the non-empty stripped form of the
      first keyword in list order that hits. */
  lemma ClassifyCases(text: string, keywords: seq<string>)
    ensures Classify(text, keywords) == ForwardAll <==> ForwardsAll(keywords)
    ensures Classify(text, keywords) == NoMatch <==>
      !ForwardsAll(keywords) && forall j :: 0 <= j < |keywords| ==> !Hits(text, keywords[j])
    ensures Classify(text, keywords).Matched? ==>
      var k := Classify(text, keywords).keyword;
      && k != []
      && Strip(k) == k
      && exists i :: FirstHit(text, keywords, i) && k == Strip(keywords[i])
  {
    FirstMatchIsFirstHit(text, keywords);
    var i := FirstHitFrom(text, keywords, 0);
    if i < |keywords| {
      StripIdempotent(keywords[i]);
    }
  }

  /** A list made only of blank entries, other than the forward-everything
      lists, matches no text at all. */
  lemma BlankKeywordsMatchNothing(text: string, keywords: seq<string>)
    requires !ForwardsAll(keywords)
    requires forall j :: 0 <= j < |keywords| ==> IsBlank(keywords[j])
    ensures Classify(text, keywords) == NoMatch
  {
    forall j | 0 <= j < |keywords| ensures !Hits(text, keywords[j]) {
      StripEmptyIffBlank(keywords[j]);
    }
    ClassifyCases(text, keywords);
  }

  /** A matched keyword really occurs in the text, ignoring case. */
  lemma MatchedKeywordOccurs(text: string, keywords: seq<string>)
    requires Classify(text, keywords).Matched?
    ensures exists p :: OccursAt(Lower(text), Lower(Classify(text, keywords).keyword), p)
  {
    ClassifyCases(text, keywords);
    var k := Classify(text, keywords).keyword;
    var i :| FirstHit(text, keywords, i) && k == Strip(keywords[i]);
    ContainsIsSubstring(Lower(text), Lower(k));
  }

  /** Whether a keyword hits does not depend on the case of the text. */
  lemma HitsIgnoreTextCase(text: string, keyword: string)
    ensures Hits(Lower(text), keyword) == Hits(text, keyword)
  {
    LowerSpec(text);
  }

  /** The search from any position stops at the same keyword whether the
      text is lowered or not. */
  lemma {:induction false} FirstHitIgnoresTextCase(text: string, keywords: seq<string>, from: nat)
    requires from <= |keywords|
    ensures FirstHitFrom(Lower(text), keywords, from) == FirstHitFrom(text, keywords, from)
    decreases |keywords| - from
  {
    if from < |keywords| {
      HitsIgnoreTextCase(text, keywords[from]);
      FirstHitIgnoresTextCase(text, keywords, from + 1);
    }
  }

  /** The verdict does not depend on the case of the text. */
  lemma MatchIgnoresTextCase(text: string, keywords: seq<string>)
    ensures Classify(Lower(text), keywords) == Classify(text, keywords)
  {
    FirstHitIgnoresTextCase(text, keywords, 0);
  }
}
