/** The keyword filter `check_keywords`. */
module Keywords {

  import opened Text

  /** Some keyword of `keywords`, lower-cased, occurs in the already lower-cased
      title `textLower`: the `any(...)` of line 109, keyword by keyword. */
  function AnyKeywordIn(textLower: string, keywords: seq<string>): bool
  {
    if keywords == [] then false
    else Contains(LowerStr(keywords[0]), textLower) || AnyKeywordIn(textLower, keywords[1..])
  }

  /** The `any(...)` holds exactly when one of the keywords, lower-cased, occurs
      in the lower-cased title. */
  lemma {:induction false} AnyKeywordInSpec(textLower: string, keywords: seq<string>)
    ensures AnyKeywordIn(textLower, keywords)
            <==> exists j :: 0 <= j < |keywords| && Contains(LowerStr(keywords[j]), textLower)
  {
    if keywords != [] {
      AnyKeywordInSpec(textLower, keywords[1..]);
      assert forall j :: 1 <= j < |keywords| ==> keywords[j] == keywords[1..][j - 1];
    }
  }

  /** `check_keywords(text, keywords)`; with no keywords nothing matches. */
  function CheckKeywords(text: string, keywords: seq<string>): (r: bool)
    ensures keywords == [] ==> !r
  {
    AnyKeywordIn(LowerStr(text), keywords)
  }

  /** A title matches exactly when one of the keywords, lower-cased, is a
      substring of the lower-cased title. */
  lemma CheckKeywordsSpec(text: string, keywords: seq<string>)
    ensures CheckKeywords(text, keywords)
            <==> exists j :: 0 <= j < |keywords| && Contains(LowerStr(keywords[j]), LowerStr(text))
  {
    AnyKeywordInSpec(LowerStr(text), keywords);
  }

  /** The filter ignores the case of the title: lower-casing it first changes nothing. */
  lemma CheckKeywordsIgnoresTitleCase(text: string, keywords: seq<string>)
    ensures CheckKeywords(LowerStr(text), keywords) == CheckKeywords(text, keywords)
  {
    LowerStrIdempotent(text);
  }

  /** The filter ignores the case of the keywords too. */
  lemma CheckKeywordsIgnoresKeywordCase(text: string, keywords: seq<string>)
    ensures CheckKeywords(text, seq(|keywords|, j requires 0 <= j < |keywords| => LowerStr(keywords[j])))
            == CheckKeywords(text, keywords)
  {
    var lowered := seq(|keywords|, j requires 0 <= j < |keywords| => LowerStr(keywords[j]));
    forall j | 0 <= j < |keywords| ensures LowerStr(lowered[j]) == LowerStr(keywords[j]) {
      LowerStrIdempotent(keywords[j]);
    }
    CheckKeywordsSpec(text, lowered);
    CheckKeywordsSpec(text, keywords);
  }

  /** An empty keyword is a substring of every title, so it lets every title through. */
  lemma EmptyKeywordMatchesAll(text: string, keywords: seq<string>)
    requires "" in keywords
    ensures CheckKeywords(text, keywords)
  {
    var j :| 0 <= j < |keywords| && keywords[j] == "";
    assert OccursAt(LowerStr(keywords[j]), LowerStr(text), 0);
    CheckKeywordsSpec(text, keywords);
  }

  /** Adding keywords never makes a matching title stop matching. */
  lemma CheckKeywordsMonotone(text: string, keywords: seq<string>, more: seq<string>)
    requires CheckKeywords(text, keywords)
    ensures CheckKeywords(text, keywords + more) && CheckKeywords(text, more + keywords)
  {
    CheckKeywordsSpec(text, keywords);
    CheckKeywordsSpec(text, keywords + more);
    CheckKeywordsSpec(text, more + keywords);
    var j :| 0 <= j < |keywords| && Contains(LowerStr(keywords[j]), LowerStr(text));
    assert (keywords + more)[j] == keywords[j];
    assert (more + keywords)[|more| + j] == keywords[j];
  }

  /** "Catering", "CATERING" and "catering" all pass the keyword "catering". */
  lemma CateringInAnyCase()
    ensures CheckKeywords("Catering", ["catering"])
    ensures CheckKeywords("CATERING", ["catering"])
    ensures CheckKeywords("catering", ["catering"])
  {
    var k := LowerStr("catering");
    assert k == "catering";
    assert LowerStr("Catering") == "catering";
    assert LowerStr("CATERING") == "catering";
    assert OccursAt(k, "catering", 0);
    CheckKeywordsSpec("Catering", ["catering"]);
    CheckKeywordsSpec("CATERING", ["catering"]);
    CheckKeywordsSpec("catering", ["catering"]);
  }
}
