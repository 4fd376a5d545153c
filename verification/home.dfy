/**
 The home page once the response body is in hand: the body is normalised
 to a list of articles, and each render computes the dropdown options and
 the filtered list for the current search text and selected category.
 */
module Home {
  import opened Js
  import opened JsStrings
  import opened Articles
  import opened ArticleFilter
  import opened CategoryList
  import opened Seqs

  /** Lines 18-20: the body itself when it is an array, else its `data`
      property when that is an array, else no articles. Reading `data` from
      a `null` body throws; the promise's `catch` then reports the failure. */
  function Normalize(body: Value): (r: Completion<seq<Value>>)
    ensures body.Arr? ==> r == Normal(body.elems)
    ensures !body.Arr? ==> (r.Throw? <==> Nullish(body))
    ensures !body.Arr? && Nullish(body) ==> r.error == ReadOfNullish("data")
    ensures !body.Arr? && !Nullish(body) && Prop(body, Data).Arr? ==> r == Normal(Prop(body, Data).elems)
    ensures !body.Arr? && !Nullish(body) && !Prop(body, Data).Arr? ==> r == Normal([])
  {
    if body.Arr? then
      Normal(body.elems)
    else
      var data :- Get(body, Data);
      if data.Arr? then Normal(data.elems) else Normal([])
  }

  /** A bare array and a Strapi `{ data: [...] }` envelope, with or without
      `meta`, give the same articles. */
  lemma EnvelopeMatchesBareArray(articles: seq<Value>, meta: Value)
    ensures Normalize(Obj(map["data" := Arr(articles)])) == Normalize(Arr(articles))
    ensures Normalize(Obj(map["data" := Arr(articles), "meta" := meta])) == Normal(articles)
  {
  }

  /** What one render computes from the article list. */
  datatype View = View(options: seq<Value>, shown: seq<Value>)

  /** Lines 30-53 of the page: the dropdown options, then the filtered list. */
  method Render(articles: seq<Value>, search: string, selected: string, host: Host) returns (r: Completion<View>)
    ensures r.Normal? <==> Filter(articles, search, selected, host).Normal?
    ensures r.Normal? ==>
              && (forall i :: 0 <= i < |articles| ==> !Nullish(articles[i]))
              && r.value.options == [Str("All")] + FirstSeen(Categories(articles))
              && r.value.shown == Filter(articles, search, selected, host).value
    ensures r.Throw? && (exists i :: 0 <= i < |articles| && Nullish(articles[i])) ==>
              r.error == ReadOfNullish("attributes")
    ensures r.Throw? && (forall i :: 0 <= i < |articles| ==> !Nullish(articles[i])) ==>
              r.error == Filter(articles, search, selected, host).error
  {
    FilterNormalIff(articles, search, selected, host);
    var options :- CategoryOptions(articles);
    var shown :- Filter(articles, search, selected, host);
    return Normal(View(options, shown));
  }

  /** With an empty search, choosing a string category shows every article
      filed under it. Together with `CategoryOptionsSpec`, every string
      option after 'All' shows at least one article. */
  lemma {:induction false} OptionSelectsItsArticles(articles: seq<Value>, category: string, host: Host)
    requires host.lower("") == ""
    requires forall i :: 0 <= i < |articles| ==> Presentable(articles[i], host)
    ensures Filter(articles, "", category, host).Normal?
    ensures forall i :: 0 <= i < |articles| && ArticleCategory(articles[i]) == Normal(Str(category)) ==>
                        articles[i] in Filter(articles, "", category, host).value
  {
    EmptySearchKeepsAll(articles, host);
    FilterNarrowing(articles, "", category, host);
    FilterContents(articles, "", category, host);
    forall x | Presentable(x, host)
      ensures Completes(x, "", host) && MatchesSearch(AttrOf(x).value, "", host)
    {
      IncludesEmpty(host.lower(Prop(AttrOf(x).value, Title).s));
    }
  }

  /** A category that is not a string can never be selected: the dropdown
      hands back a string and `===` does not convert. */
  lemma NonStringCategoryNeverSelected(article: Value, search: string, selected: string, host: Host)
    requires selected != "All"
    requires ArticleCategory(article).Normal? && !ArticleCategory(article).value.Str?
    ensures Keep(article, search, selected, host) != Normal(true)
  {
  }
}
